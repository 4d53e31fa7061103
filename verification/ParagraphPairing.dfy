/** Paragraph scripts: inside a run of one mark followed by a longer run of the
    opposite mark, entries are paired so that they stand side by side. */
module ParagraphPairing {
  import opened EditScripts

  function Opposite(op: Op): Op { if op == Add then Delete else Add }

  /** Where the run of `op` that starts at i ends. */
  function RunEnd<T>(s: seq<Entry<T>>, i: nat, op: Op): (j: nat)
    requires i <= |s|
    ensures i <= j <= |s| && (forall t :: i <= t < j ==> s[t].op == op) && (j < |s| ==> s[j].op != op)
    decreases |s| - i
  {
    if i == |s| || s[i].op != op then i else RunEnd(s, i + 1, op)
  }

  function Min(i: nat, j: nat): nat { if i < j then i else j }

  function Interleave<T>(u: seq<Entry<T>>, v: seq<Entry<T>>): (r: seq<Entry<T>>)
    requires |u| == |v|
    ensures |r| == 2 * |u|
  {
    if u == [] then [] else Interleave(u[..|u| - 1], v[..|v| - 1]) + [u[|u| - 1], v[|v| - 1]]
  }

  /** Where the group that starts at i ends; the surplus of a longer second run waits for the next group. */
  function GroupEnd<T>(s: seq<Entry<T>>, i: nat): (e: nat)
    requires i < |s|
    ensures i < e <= |s|
  {
    if s[i].op == Common then i + 1
    else
      var j := RunEnd(s, i, s[i].op);
      var k := RunEnd(s, j, Opposite(s[i].op));
      if k - j <= 1 then k else j + Min(j - i, k - j)
  }

  /** The group that starts at i rearranged: surplus of the first run, then the pairs. */
  function Group<T>(s: seq<Entry<T>>, i: nat): seq<Entry<T>>
    requires i < |s|
  {
    if s[i].op == Common then [s[i]]
    else
      var j := RunEnd(s, i, s[i].op);
      var k := RunEnd(s, j, Opposite(s[i].op));
      if k - j <= 1 then s[i..k] else PairAround(s, i, j, Min(j - i, k - j))
  }

  /** s from i to j + pairs, with the `pairs` entries before j and those from j interleaved. */
  function PairAround<T>(s: seq<Entry<T>>, i: nat, j: nat, pairs: nat): seq<Entry<T>>
    requires i <= j - pairs && j + pairs <= |s|
  {
    s[i..j - pairs] + Interleave(s[j - pairs..j], s[j..j + pairs])
  }

  function PairedFrom<T>(s: seq<Entry<T>>, i: nat): seq<Entry<T>>
    requires i <= |s|
    decreases |s| - i
  {
    if i == |s| then [] else Group(s, i) + PairedFrom(s, GroupEnd(s, i))
  }

  function Paired<T>(s: seq<Entry<T>>): seq<Entry<T>> { PairedFrom(s, 0) }

  /** What is written and what is still to come stay the same together. */
  lemma PairedFromStep<T>(s: seq<Entry<T>>, i: nat, written: seq<Entry<T>>)
    requires i < |s|
    ensures written + PairedFrom(s, i) == (written + Group(s, i)) + PairedFrom(s, GroupEnd(s, i))
  {
    hide Group, GroupEnd;
  }

  lemma NothingLeftToPair<T>(s: seq<Entry<T>>)
    ensures PairedFrom(s, |s|) == []
  {
  }

  /** Paired entries stand side by side. */
  lemma {:induction false} InterleaveAt<T>(u: seq<Entry<T>>, v: seq<Entry<T>>, t: nat)
    requires |u| == |v| && t < |u|
    ensures Interleave(u, v)[2 * t] == u[t] && Interleave(u, v)[2 * t + 1] == v[t]
  {
    if t < |u| - 1 { InterleaveAt(u[..|u| - 1], v[..|v| - 1], t); }
  }

  /** All of a run is kept, or nothing of it. */
  lemma {:induction false} KeptUniform<T>(s: seq<Entry<T>>, op: Op, dropped: Op)
    requires forall i :: 0 <= i < |s| ==> s[i].op == op
    ensures Kept(s, dropped) == if op == dropped then [] else s
  {
    if s != [] {
      KeptUniform(s[..|s| - 1], op, dropped);
      assert s == s[..|s| - 1] + [s[|s| - 1]];
    }
  }

  /** One of two opposite entries is kept. */
  lemma KeptTwoMore<T>(s: seq<Entry<T>>, d: Entry<T>, e: Entry<T>, dropped: Op)
    requires dropped != Common && d.op != Common && e.op == Opposite(d.op)
    ensures Kept(s + [d, e], dropped) == Kept(s, dropped) + [if d.op == dropped then e else d]
  {
    assert s + [d, e] == (s + [d]) + [e];
    KeptSnoc(s, d, dropped);
    KeptSnoc(s + [d], e, dropped);
  }

  /** Dropping one mark from interleaved runs leaves the other run. */
  lemma {:induction false} KeptInterleave<T>(u: seq<Entry<T>>, v: seq<Entry<T>>, op: Op, dropped: Op)
    requires |u| == |v| && op != Common && dropped != Common
    requires forall i :: 0 <= i < |u| ==> u[i].op == op && v[i].op == Opposite(op)
    ensures Kept(Interleave(u, v), dropped) == if op == dropped then v else u
  {
    hide Kept, Interleave;
    if u == [] {
      assert v == [];
      KeptNothing<T>(dropped);
    } else {
      var (u', v', d, e) := (u[..|u| - 1], v[..|v| - 1], u[|u| - 1], v[|v| - 1]);
      KeptInterleave(u', v', op, dropped);
      InterleaveSnoc(u, v);
      KeptTwoMore(Interleave(u', v'), d, e, dropped);
      assert (if op == dropped then v' + [e] else u' + [d]) == if op == dropped then v else u;
    }
  }

  lemma KeptNothing<T>(dropped: Op)
    ensures Kept(Interleave<T>([], []), dropped) == []
  {
  }

  lemma InterleaveSnoc<T>(u: seq<Entry<T>>, v: seq<Entry<T>>)
    requires |u| == |v| > 0
    ensures Interleave(u, v) == Interleave(u[..|u| - 1], v[..|v| - 1]) + [u[|u| - 1], v[|v| - 1]]
  {
  }

  lemma MultisetLast<T>(u: seq<Entry<T>>)
    requires u != []
    ensures multiset(u) == multiset(u[..|u| - 1]) + multiset{u[|u| - 1]}
  {
    assert u == u[..|u| - 1] + [u[|u| - 1]];
  }

  lemma MultisetTwoMore<T>(r: seq<Entry<T>>, d: Entry<T>, e: Entry<T>)
    ensures multiset(r + [d, e]) == multiset(r) + multiset{d} + multiset{e}
  {
    assert r + [d, e] == r + [d] + [e];
  }

  lemma {:induction false} MultisetInterleave<T>(u: seq<Entry<T>>, v: seq<Entry<T>>)
    requires |u| == |v|
    ensures multiset(Interleave(u, v)) == multiset(u) + multiset(v)
  {
    if u != [] {
      MultisetInterleave(u[..|u| - 1], v[..|v| - 1]);
      MultisetLast(u);
      MultisetLast(v);
      MultisetTwoMore(Interleave(u[..|u| - 1], v[..|v| - 1]), u[|u| - 1], v[|v| - 1]);
    }
  }

  lemma InterleaveKeeps<T>(u: seq<Entry<T>>, v: seq<Entry<T>>, op: Op, dropped: Op)
    requires |u| == |v| && op != Common && dropped != Common
    requires forall i :: 0 <= i < |u| ==> u[i].op == op && v[i].op == Opposite(op)
    ensures Kept(Interleave(u, v), dropped) == Kept(u + v, dropped)
  {
    KeptUniform(u, op, dropped);
    KeptUniform(v, Opposite(op), dropped);
    KeptConcat(u, v, dropped);
    KeptInterleave(u, v, op, dropped);
  }

  lemma SlicesJoin<T>(s: seq<Entry<T>>, i: nat, m: nat, j: nat, e: nat)
    requires i <= m <= j <= e <= |s|
    ensures s[i..m] + (s[m..j] + s[j..e]) == s[i..e]
  {
  }

  /** What the rearrangement may not change: the order on either side and the entries themselves. */
  ghost function Sides<T>(s: seq<Entry<T>>): (seq<Entry<T>>, seq<Entry<T>>, multiset<Entry<T>>) {
    (Kept(s, Add), Kept(s, Delete), multiset(s))
  }

  lemma SidesConcat<T>(s: seq<Entry<T>>, t: seq<Entry<T>>, s': seq<Entry<T>>, t': seq<Entry<T>>)
    requires Sides(s) == Sides(t) && Sides(s') == Sides(t')
    ensures Sides(s + s') == Sides(t + t')
  {
    KeptConcat(s, s', Add);
    KeptConcat(s, s', Delete);
    KeptConcat(t, t', Add);
    KeptConcat(t, t', Delete);
  }

  lemma InterleaveSameSides<T>(u: seq<Entry<T>>, v: seq<Entry<T>>, op: Op)
    requires |u| == |v| && op != Common
    requires forall i :: 0 <= i < |u| ==> u[i].op == op && v[i].op == Opposite(op)
    ensures Sides(Interleave(u, v)) == Sides(u + v)
  {
    InterleaveKeeps(u, v, op, Add);
    InterleaveKeeps(u, v, op, Delete);
    MultisetInterleave(u, v);
  }

  lemma PairAroundKeeps<T>(s: seq<Entry<T>>, i: nat, j: nat, pairs: nat, op: Op)
    requires i <= j - pairs && j + pairs <= |s| && op != Common
    requires forall t :: j - pairs <= t < j ==> s[t].op == op
    requires forall t :: j <= t < j + pairs ==> s[t].op == Opposite(op)
    ensures Sides(PairAround(s, i, j, pairs)) == Sides(s[i..j + pairs])
  {
    hide Kept, Interleave, Sides;
    InterleaveSameSides(s[j - pairs..j], s[j..j + pairs], op);
    SidesConcat(s[i..j - pairs], s[i..j - pairs],
                Interleave(s[j - pairs..j], s[j..j + pairs]), s[j - pairs..j] + s[j..j + pairs]);
    SlicesJoin(s, i, j - pairs, j, j + pairs);
  }

  /** A run from i to j and more than one opposite mark up to k are rearranged around j. */
  lemma GroupAroundJ<T>(s: seq<Entry<T>>, i: nat, j: nat, k: nat)
    requires i < |s| && s[i].op != Common
    requires j == RunEnd(s, i, s[i].op) && k == RunEnd(s, j, Opposite(s[i].op)) && k - j > 1
    ensures Group(s, i) == PairAround(s, i, j, Min(j - i, k - j))
  {
    hide Interleave, PairAround;
  }

  lemma GroupEndAroundJ<T>(s: seq<Entry<T>>, i: nat, j: nat, k: nat)
    requires i < |s| && s[i].op != Common
    requires j == RunEnd(s, i, s[i].op) && k == RunEnd(s, j, Opposite(s[i].op)) && k - j > 1
    ensures GroupEnd(s, i) == j + Min(j - i, k - j)
  {
  }

  lemma GroupCommon<T>(s: seq<Entry<T>>, i: nat)
    requires i < |s| && s[i].op == Common
    ensures Group(s, i) == [s[i]] == s[i..i + 1] && GroupEnd(s, i) == i + 1
  {
  }

  lemma GroupKept<T>(s: seq<Entry<T>>, i: nat, j: nat, k: nat)
    requires i < |s| && s[i].op != Common
    requires j == RunEnd(s, i, s[i].op) && k == RunEnd(s, j, Opposite(s[i].op)) && k - j <= 1
    ensures Group(s, i) == s[i..k] && GroupEnd(s, i) == k
  {
  }

  lemma GroupKeeps<T>(s: seq<Entry<T>>, i: nat)
    requires i < |s|
    ensures Sides(Group(s, i)) == Sides(s[i..GroupEnd(s, i)])
  {
    hide Kept, Interleave, Sides, Group, GroupEnd, PairAround;
    if s[i].op == Common {
      GroupCommon(s, i);
    } else {
      var j := RunEnd(s, i, s[i].op);
      var k := RunEnd(s, j, Opposite(s[i].op));
      if k - j > 1 {
        GroupAroundJ(s, i, j, k);
        GroupEndAroundJ(s, i, j, k);
        PairAroundKeeps(s, i, j, Min(j - i, k - j), s[i].op);
      } else {
        GroupKept(s, i, j, k);
      }
    }
  }

  lemma {:induction false} PairedFromKeeps<T>(s: seq<Entry<T>>, i: nat)
    requires i <= |s|
    ensures Sides(PairedFrom(s, i)) == Sides(s[i..])
    decreases |s| - i
  {
    hide Kept, Sides, Group, GroupEnd;
    if i < |s| {
      var e := GroupEnd(s, i);
      GroupKeeps(s, i);
      PairedFromKeeps(s, e);
      SidesConcat(Group(s, i), s[i..e], PairedFrom(s, e), s[e..]);
      assert s[i..] == s[i..e] + s[e..];
    } else {
      assert s[i..] == [] == PairedFrom(s, i);
    }
  }

  /** Pairing is a permutation that keeps the order of the common and deleted entries, and that of
      the common and added ones. */
  lemma PairedKeepsSides<T>(s: seq<Entry<T>>)
    ensures Kept(Paired(s), Add) == Kept(s, Add) && Kept(Paired(s), Delete) == Kept(s, Delete)
    ensures multiset(Paired(s)) == multiset(s)
  {
    assert s[0..] == s;
    PairedFromKeeps(s, 0);
  }

  /** So both texts are still spelled. */
  lemma PairedSpells(s: Script)
    ensures Before(Paired(s)) == Before(s) && After(Paired(s)) == After(s)
  {
    PairedKeepsSides(s);
    ProjectOfKept(s, Add);
    ProjectOfKept(s, Delete);
    ProjectOfKept(Paired(s), Add);
    ProjectOfKept(Paired(s), Delete);
  }

  lemma PairAroundAt<T>(s: seq<Entry<T>>, i: nat, j: nat, pairs: nat, t: nat)
    requires i <= j - pairs && j + pairs <= |s| && t < pairs
    ensures var (g, at) := (PairAround(s, i, j, pairs), j - pairs - i + 2 * t);
            at + 1 < |g| && g[at] == s[j - pairs + t] && g[at + 1] == s[j + t]
  {
    InterleaveAt(s[j - pairs..j], s[j..j + pairs], t);
  }

  lemma PairedFromStarts<T>(s: seq<Entry<T>>, i: nat, at: nat)
    requires i < |s| && at < |Group(s, i)|
    ensures |PairedFrom(s, i)| >= |Group(s, i)| && PairedFrom(s, i)[at] == Group(s, i)[at]
  {
  }

  /** A run from i to j followed by more than one opposite mark up to k yields min(j - i, k - j)
      adjacent pairs: the last entries of the first run with the first entries of the second. */
  lemma PairsStandSideBySide<T>(s: seq<Entry<T>>, i: nat, j: nat, k: nat, t: nat)
    requires i < |s| && s[i].op != Common
    requires j == RunEnd(s, i, s[i].op) && k == RunEnd(s, j, Opposite(s[i].op)) && k - j > 1
    requires t < Min(j - i, k - j)
    ensures var (p, pairs) := (PairedFrom(s, i), Min(j - i, k - j));
            var at := j - pairs - i + 2 * t;
            at + 1 < |p| && p[at] == s[j - pairs + t] && p[at + 1] == s[j + t]
  {
    hide PairedFrom, Group, PairAround, Interleave, RunEnd;
    var pairs := Min(j - i, k - j);
    GroupAroundJ(s, i, j, k);
    PairAroundAt(s, i, j, pairs, t);
    PairedFromStarts(s, i, j - pairs - i + 2 * t);
    PairedFromStarts(s, i, j - pairs - i + 2 * t + 1);
  }
}
