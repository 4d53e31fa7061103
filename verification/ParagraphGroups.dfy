/** What a paragraph script is, position by position: which runs are paired, where the pairs stand,
    and what keeps its place. */
module ParagraphGroups {
  import opened EditScripts
  import opened ParagraphPairing

  /** From i to j all entries are marked op, and the entry at j is not. */
  ghost predicate IsRun<T>(s: seq<Entry<T>>, i: nat, j: nat, op: Op) {
    i <= j <= |s| && (forall t :: i <= t < j ==> s[t].op == op) && (j < |s| ==> s[j].op != op)
  }

  /** The t-th pair of the entries from `first` with those from `second` on stands side by side in r. */
  ghost predicate PairStands<T>(s: seq<Entry<T>>, r: seq<Entry<T>>, first: nat, second: nat, t: nat)
    requires first <= second && second + t < |s| && first + 2 * t + 1 < |r|
  {
    r[first + 2 * t] == s[first + t] && r[first + 2 * t + 1] == s[second + t]
  }

  ghost predicate PairsStand<T>(s: seq<Entry<T>>, r: seq<Entry<T>>, first: nat, second: nat, pairs: nat)
    requires first <= second && second + pairs <= |s| && first + 2 * pairs <= |r|
  {
    forall t :: 0 <= t < pairs ==> PairStands(s, r, first, second, t)
  }

  ghost predicate InPlace<T>(s: seq<Entry<T>>, r: seq<Entry<T>>, i: nat, j: nat)
    requires i <= j <= |s| == |r|
  {
    forall x :: i <= x < j ==> r[x] == s[x]
  }

  /** A run from i to j and the opposite run from j to k, where r goes on at `next`: at most one opposite entry
      leaves both in place. Otherwise as many entries as both runs have are paired, the last ones of the first
      run with the first ones of the second; the surplus of the first stays, that of the second comes next. */
  ghost predicate RunsPaired<T>(s: seq<Entry<T>>, r: seq<Entry<T>>, i: nat, j: nat, k: nat, next: nat)
    requires i < j <= k <= |s| == |r|
  {
    if k - j <= 1 then next == k && InPlace(s, r, i, k)
    else
      var pairs := Min(j - i, k - j);
      && next == j + pairs
      && InPlace(s, r, i, j - pairs)
      && PairsStand(s, r, j - pairs, j, pairs)
  }

  /** The entries from i to `next` form a group: a common entry that stays, or two opposite runs. */
  ghost predicate IsGroup<T>(s: seq<Entry<T>>, r: seq<Entry<T>>, i: nat, next: nat)
    requires |s| == |r|
  {
    && i < next <= |s|
    && if s[i].op == Common then next == i + 1 && r[i] == s[i]
       else forall j: nat, k: nat :: i < j && IsRun(s, i, j, s[i].op) && IsRun(s, j, k, Opposite(s[i].op)) ==>
              RunsPaired(s, r, i, j, k, next)
  }

  /** Groups from `starts[0]` to the end, one behind the other. */
  ghost predicate AreGroups<T>(s: seq<Entry<T>>, r: seq<Entry<T>>, starts: seq<nat>)
    requires |s| == |r|
  {
    && starts != [] && starts[|starts| - 1] == |s|
    && forall g: nat, h: nat :: h == g + 1 && h < |starts| ==> IsGroup(s, r, starts[g], starts[h])
  }

  /** r is the script s divided into groups and paired group by group. */
  ghost predicate PairsUp<T>(s: seq<Entry<T>>, r: seq<Entry<T>>) {
    |s| == |r| && exists starts: seq<nat> :: AreGroups(s, r, starts) && starts[0] == 0
  }

  lemma RunEndIsRun<T>(s: seq<Entry<T>>, i: nat, j: nat, op: Op)
    requires i <= |s|
    ensures IsRun(s, i, j, op) <==> j == RunEnd(s, i, op)
  {
    var e := RunEnd(s, i, op);
    assert e < |s| ==> s[e].op != op;
    if IsRun(s, i, j, op) {
      assert j < |s| ==> s[j].op != op;
    }
  }

  lemma GroupLength<T>(s: seq<Entry<T>>, i: nat)
    requires i < |s|
    ensures |Group(s, i)| == GroupEnd(s, i) - i
  {
    hide Interleave, RunEnd;
  }

  lemma SliceAt<T>(r: seq<Entry<T>>, i: nat, e: nat, g: seq<Entry<T>>, x: nat)
    requires i <= x < e <= |r| && r[i..e] == g
    ensures r[x] == g[x - i]
  {
    assert r[i..e][x - i] == r[x];
  }

  lemma SliceInPlace<T>(s: seq<Entry<T>>, r: seq<Entry<T>>, i: nat, e: nat)
    requires i <= e <= |s| == |r| && r[i..e] == s[i..e]
    ensures InPlace(s, r, i, e)
  {
    forall x | i <= x < e ensures r[x] == s[x] {
      SliceAt(r, i, e, s[i..e], x);
    }
  }

  /** One group of the result in its place. */
  lemma GroupStands<T>(s: seq<Entry<T>>, r: seq<Entry<T>>, i: nat)
    requires i < |s| == |r| && r[i..GroupEnd(s, i)] == Group(s, i)
    ensures IsGroup(s, r, i, GroupEnd(s, i))
  {
    var (e, op) := (GroupEnd(s, i), s[i].op);
    hide Group, GroupEnd, RunsPaired, IsRun;
    if op == Common {
      GroupCommon(s, i);
      SliceAt(r, i, i + 1, s[i..i + 1], i);
    } else {
      forall j: nat, k: nat | i < j && IsRun(s, i, j, op) && IsRun(s, j, k, Opposite(op))
        ensures i < j <= k <= |s| && RunsPaired(s, r, i, j, k, e)
      {
        GroupOfRuns(s, r, i, j, k);
      }
    }
  }

  lemma GroupOfRuns<T>(s: seq<Entry<T>>, r: seq<Entry<T>>, i: nat, j: nat, k: nat)
    requires i < |s| == |r| && s[i].op != Common && r[i..GroupEnd(s, i)] == Group(s, i)
    requires i < j && IsRun(s, i, j, s[i].op) && IsRun(s, j, k, Opposite(s[i].op))
    ensures RunsPaired(s, r, i, j, k, GroupEnd(s, i))
  {
    hide Group, GroupEnd, PairAround, RunEnd, IsRun, InPlace, PairsStand;
    RunEndIsRun(s, i, j, s[i].op);
    RunEndIsRun(s, j, k, Opposite(s[i].op));
    if k - j <= 1 {
      GroupKept(s, i, j, k);
      SliceInPlace(s, r, i, k);
    } else {
      GroupAroundJ(s, i, j, k);
      GroupEndAroundJ(s, i, j, k);
      AroundStands(s, r, i, j, Min(j - i, k - j));
    }
  }

  lemma AroundStands<T>(s: seq<Entry<T>>, r: seq<Entry<T>>, i: nat, j: nat, pairs: nat)
    requires i <= j - pairs && j + pairs <= |s| == |r|
    requires r[i..j + pairs] == PairAround(s, i, j, pairs)
    ensures InPlace(s, r, i, j - pairs) && PairsStand(s, r, j - pairs, j, pairs)
  {
    var g := PairAround(s, i, j, pairs);
    forall x | i <= x < j - pairs ensures r[x] == s[x] {
      SliceAt(r, i, j + pairs, g, x);
    }
    hide PairAround;
    var first := j - pairs;
    forall t | 0 <= t < pairs ensures PairStands(s, r, first, j, t) {
      PairAroundAt(s, i, j, pairs, t);
      var at := first + 2 * t;
      SliceAt(r, i, j + pairs, g, at);
      SliceAt(r, i, j + pairs, g, at + 1);
    }
  }

  // ---------------------------------------------------------------- the whole script

  lemma {:induction false} PairedLength<T>(s: seq<Entry<T>>, i: nat)
    requires i <= |s|
    ensures |PairedFrom(s, i)| == |s| - i
    decreases |s| - i
  {
    if i < |s| {
      GroupLength(s, i);
      PairedLength(s, GroupEnd(s, i));
      hide Group, GroupEnd;
    }
  }

  /** From any start of a group on, the paired script falls into groups. */
  lemma {:induction false} GroupsFrom<T>(s: seq<Entry<T>>, r: seq<Entry<T>>, i: nat) returns (starts: seq<nat>)
    requires i <= |s| == |r| && r[i..] == PairedFrom(s, i)
    ensures AreGroups(s, r, starts) && starts[0] == i
    decreases |s| - i
  {
    if i == |s| {
      starts := [i];
    } else {
      hide Group, GroupEnd, IsGroup;
      var e := GroupEnd(s, i);
      GroupLength(s, i);
      SplitAt(r, i, e, Group(s, i), PairedFrom(s, e));
      GroupStands(s, r, i);
      var rest := GroupsFrom(s, r, e);
      starts := [i] + rest;
    }
  }

  lemma SplitAt<T>(r: seq<Entry<T>>, i: nat, e: nat, g: seq<Entry<T>>, rest: seq<Entry<T>>)
    requires i <= e <= |r| && r[i..] == g + rest && |g| == e - i
    ensures r[i..e] == g && r[e..] == rest
  {
    assert r[i..e] == r[i..][..e - i];
    assert r[e..] == r[i..][e - i..];
  }

  /** The paired script pairs up s. */
  lemma PairedPairsUp<T>(s: seq<Entry<T>>)
    ensures PairsUp(s, Paired(s))
  {
    PairedLength(s, 0);
    assert Paired(s)[0..] == PairedFrom(s, 0);
    var starts := GroupsFrom(s, Paired(s), 0);
  }

  /** The two runs at i. */
  lemma RunsAt<T>(s: seq<Entry<T>>, i: nat) returns (j: nat, k: nat)
    requires i < |s|
    ensures j == RunEnd(s, i, s[i].op) && k == RunEnd(s, j, Opposite(s[i].op))
    ensures i < j <= k <= |s| && IsRun(s, i, j, s[i].op) && IsRun(s, j, k, Opposite(s[i].op))
  {
    j := RunEnd(s, i, s[i].op);
    RunStarts(s, i, s[i].op);
    k := RunEnd(s, j, Opposite(s[i].op));
  }

  lemma GroupPairs<T>(s: seq<Entry<T>>, r: seq<Entry<T>>, i: nat, next: nat, j: nat, k: nat)
    requires |s| == |r| && IsGroup(s, r, i, next) && s[i].op != Common
    requires i < j <= k <= |s| && IsRun(s, i, j, s[i].op) && IsRun(s, j, k, Opposite(s[i].op))
    ensures RunsPaired(s, r, i, j, k, next)
  {
  }

  /** A group determines the result on its stretch. */
  lemma GroupIs<T>(s: seq<Entry<T>>, r: seq<Entry<T>>, i: nat, next: nat)
    requires |s| == |r| && IsGroup(s, r, i, next)
    ensures next == GroupEnd(s, i) && r[i..next] == Group(s, i)
  {
    hide Group, GroupEnd, PairAround, RunEnd, IsRun;
    if s[i].op == Common {
      GroupCommon(s, i);
    } else {
      var j, k := RunsAt(s, i);
      GroupPairs(s, r, i, next, j, k);
      hide IsGroup, PairsStand, InPlace;
      if k - j <= 1 {
        GroupKept(s, i, j, k);
        InPlaceSlice(s, r, i, k);
      } else {
        GroupAroundJ(s, i, j, k);
        GroupEndAroundJ(s, i, j, k);
        StandsAround(s, r, i, j, Min(j - i, k - j));
      }
    }
  }

  lemma InPlaceSlice<T>(s: seq<Entry<T>>, r: seq<Entry<T>>, i: nat, e: nat)
    requires i <= e <= |s| == |r| && InPlace(s, r, i, e)
    ensures r[i..e] == s[i..e]
  {
  }

  lemma RunStarts<T>(s: seq<Entry<T>>, i: nat, op: Op)
    requires i < |s| && s[i].op == op
    ensures i < RunEnd(s, i, op)
  {
  }

  lemma StandsAround<T>(s: seq<Entry<T>>, r: seq<Entry<T>>, i: nat, j: nat, pairs: nat)
    requires i <= j - pairs && j + pairs <= |s| == |r|
    requires InPlace(s, r, i, j - pairs) && PairsStand(s, r, j - pairs, j, pairs)
    ensures r[i..j + pairs] == PairAround(s, i, j, pairs)
  {
    var (g, h, first) := (PairAround(s, i, j, pairs), r[i..j + pairs], j - pairs);
    forall x | 0 <= x < |h| ensures h[x] == g[x] {
      if i + x >= first {
        var t := (i + x - first) / 2;
        PairAroundAt(s, i, j, pairs, t);
        assert PairStands(s, r, first, j, t);
        hide PairAround;
        assert h[x] == r[i + x];
      }
    }
  }

  lemma {:induction false} GroupsAre<T>(s: seq<Entry<T>>, r: seq<Entry<T>>, starts: seq<nat>)
    requires |s| == |r| && AreGroups(s, r, starts)
    ensures starts[0] <= |s| && r[starts[0]..] == PairedFrom(s, starts[0])
    decreases |starts|
  {
    hide Group, GroupEnd, IsGroup;
    if |starts| > 1 {
      var (i, rest) := (starts[0], starts[1..]);
      assert IsGroup(s, r, starts[0], starts[1]);
      GroupBounds(s, r, i, rest[0]);
      GroupIs(s, r, i, rest[0]);
      GroupsAreTail(s, r, starts);
      GroupsAre(s, r, rest);
      assert r[i..] == r[i..rest[0]] + r[rest[0]..];
    }
  }

  lemma GroupBounds<T>(s: seq<Entry<T>>, r: seq<Entry<T>>, i: nat, next: nat)
    requires |s| == |r| && IsGroup(s, r, i, next)
    ensures i < next <= |s|
  {
  }

  lemma GroupsAreTail<T>(s: seq<Entry<T>>, r: seq<Entry<T>>, starts: seq<nat>)
    requires |s| == |r| && AreGroups(s, r, starts) && |starts| > 1
    ensures AreGroups(s, r, starts[1..])
  {
    hide IsGroup;
    var rest := starts[1..];
    forall g: nat, h: nat | h == g + 1 && h < |rest| ensures IsGroup(s, r, rest[g], rest[h]) {
      assert rest[g] == starts[g + 1] && rest[h] == starts[h + 1];
    }
  }

  /** The paired script is the only one that pairs up s. */
  lemma PairsUpIff<T>(s: seq<Entry<T>>, r: seq<Entry<T>>)
    ensures PairsUp(s, r) <==> r == Paired(s)
  {
    PairedPairsUp(s);
    if PairsUp(s, r) {
      var starts: seq<nat> :| AreGroups(s, r, starts) && starts[0] == 0;
      GroupsAre(s, r, starts);
      assert r[0..] == r;
    }
  }

  // ---------------------------------------------------------------- what becomes of one run

  /** A group of r starts at i. */
  ghost predicate StartsGroup<T>(s: seq<Entry<T>>, r: seq<Entry<T>>, i: nat)
    requires |s| == |r|
  {
    exists starts: seq<nat>, g: nat :: AreGroups(s, r, starts) && starts[0] == 0 && g < |starts| && starts[g] == i
  }

  lemma ZeroStartsGroup<T>(s: seq<Entry<T>>, r: seq<Entry<T>>)
    requires PairsUp(s, r)
    ensures StartsGroup(s, r, 0)
  {
    var starts: seq<nat> :| AreGroups(s, r, starts) && starts[0] == 0;
    assert starts[0 as nat] == 0;
  }

  /** The group that holds position x. */
  lemma {:induction false} GroupAt<T>(s: seq<Entry<T>>, r: seq<Entry<T>>, starts: seq<nat>, x: nat) returns (g: nat)
    requires |s| == |r| && AreGroups(s, r, starts) && starts[0] <= x < |s|
    ensures g + 1 < |starts| && starts[g] <= x < starts[g + 1] && IsGroup(s, r, starts[g], starts[g + 1])
  {
    hide IsGroup;
    g := 0;
    assert |starts| > 1;
    while starts[g + 1] <= x
      invariant g + 1 < |starts| && starts[g] <= x
      decreases |starts| - g
    {
      g := g + 1;
      assert starts[|starts| - 1] == |s|;
    }
    var h := g + 1;
    assert IsGroup(s, r, starts[g], starts[h]);
  }

  /** Every common entry is a group of its own: it stays, and the next group starts behind it. */
  lemma CommonStays<T>(s: seq<Entry<T>>, r: seq<Entry<T>>, x: nat)
    requires PairsUp(s, r) && x < |s| && s[x].op == Common
    ensures r[x] == s[x] && StartsGroup(s, r, x) && StartsGroup(s, r, x + 1)
  {
    var starts: seq<nat> :| AreGroups(s, r, starts) && starts[0] == 0;
    var g := GroupAt(s, r, starts, x);
    NoCommonInside(s, r, starts[g], starts[g + 1], x);
  }

  lemma NoCommonInside<T>(s: seq<Entry<T>>, r: seq<Entry<T>>, i: nat, next: nat, x: nat)
    requires |s| == |r| && IsGroup(s, r, i, next) && i <= x < next && s[x].op == Common
    ensures x == i && next == i + 1
  {
    if s[i].op != Common { ChangedGroup(s, r, i, next); }
  }

  lemma ChangedGroup<T>(s: seq<Entry<T>>, r: seq<Entry<T>>, i: nat, next: nat)
    requires |s| == |r| && IsGroup(s, r, i, next) && s[i].op != Common
    ensures forall x :: i <= x < next ==> s[x].op != Common
  {
    var j, k := RunsAt(s, i);
    GroupPairs(s, r, i, next, j, k);
  }

  /** A run at the start of a group and the opposite run behind it are paired, and the next group starts
      behind the pairs. */
  lemma StartedRunIsPaired<T>(s: seq<Entry<T>>, r: seq<Entry<T>>, i: nat, j: nat, k: nat)
    requires |s| == |r| && StartsGroup(s, r, i) && i < j <= |s| && s[i].op != Common
    requires IsRun(s, i, j, s[i].op) && IsRun(s, j, k, Opposite(s[i].op))
    ensures var next := if k - j <= 1 then k else j + Min(j - i, k - j);
            RunsPaired(s, r, i, j, k, next) && StartsGroup(s, r, next)
  {
    var starts: seq<nat>, g: nat :| AreGroups(s, r, starts) && starts[0] == 0 && g < |starts| && starts[g] == i;
    var h := g + 1;
    assert h < |starts|;
    assert IsGroup(s, r, starts[g], starts[h]);
    assert RunsPaired(s, r, i, j, k, starts[h]);
  }

  /** A changed run at the beginning or behind a common entry, and the opposite run behind it, are paired. */
  lemma RunIsPaired<T>(s: seq<Entry<T>>, r: seq<Entry<T>>, i: nat, j: nat, k: nat)
    requires PairsUp(s, r) && i < j <= |s| && s[i].op != Common && (i == 0 || s[i - 1].op == Common)
    requires IsRun(s, i, j, s[i].op) && IsRun(s, j, k, Opposite(s[i].op))
    ensures j <= k && RunsPaired(s, r, i, j, k, if k - j <= 1 then k else j + Min(j - i, k - j))
  {
    if i == 0 { ZeroStartsGroup(s, r); } else { CommonStays(s, r, i - 1); }
    StartedRunIsPaired(s, r, i, j, k);
  }

  /** Two deletions and two additions: first with first, second with second. */
  lemma TwoPairs<T>(s: seq<Entry<T>>, r: seq<Entry<T>>)
    requires PairsUp(s, r) && |s| == 4
    requires s[0].op == s[1].op == Delete && s[2].op == s[3].op == Add
    ensures r == [s[0], s[2], s[1], s[3]]
  {
    assert |r| == 4;
    hide PairsUp, IsRun, InPlace;
    FourMarks(s);
    RunIsPaired(s, r, 0, 2, 4);
    assert PairStands(s, r, 0, 2, 0) && PairStands(s, r, 0, 2, 1);
  }

  lemma FourMarks<T>(s: seq<Entry<T>>)
    requires |s| == 4 && s[0].op == s[1].op == Delete && s[2].op == s[3].op == Add
    ensures IsRun(s, 0, 2, Delete) && IsRun(s, 2, 4, Add)
  {
  }
}
