/** The gaps between a subset of a list and the list itself. */
module Gaps {
  import opened Collections
  import opened Options

  /** s can be obtained from t by leaving elements out, matching as early as possible. */
  predicate Subsequence<T(==)>(s: seq<T>, t: seq<T>) {
    if s == [] then true
    else if t == [] then false
    else if s[0] == t[0] then Subsequence(s[1..], t[1..])
    else Subsequence(s, t[1..])
  }

  /** Ascending positions of s in t. */
  ghost predicate Embeds<T>(s: seq<T>, t: seq<T>, at: seq<int>) {
    && |at| == |s|
    && (forall i :: 0 <= i < |s| ==> 0 <= at[i] < |t| && t[at[i]] == s[i])
    && (forall i, j :: 0 <= i < j < |s| ==> at[i] < at[j])
  }

  lemma {:induction false} EarlyMatchIsEnough<T>(s: seq<T>, t: seq<T>, at: seq<int>)
    requires Embeds(s, t, at)
    ensures Subsequence(s, t)
    decreases |t|
  {
    if s != [] {
      assert 0 <= at[0] < |t|;
      if s[0] == t[0] {
        forall i | 0 <= i < |s| - 1 ensures 0 <= at[i + 1] - 1 < |t[1..]| && t[1..][at[i + 1] - 1] == s[1..][i] {
          assert at[0] < at[i + 1];
        }
        EarlyMatchIsEnough(s[1..], t[1..], seq(|s| - 1, i requires 0 <= i < |s| - 1 => at[i + 1] - 1));
      } else {
        forall i | 0 <= i < |s| ensures 0 <= at[i] - 1 < |t[1..]| && t[1..][at[i] - 1] == s[i] {
          assert at[0] <= at[i];
        }
        EarlyMatchIsEnough(s, t[1..], seq(|s|, i requires 0 <= i < |s| => at[i] - 1));
      }
    }
  }

  lemma {:induction false} SubsequenceEmbeds<T>(s: seq<T>, t: seq<T>) returns (at: seq<int>)
    requires Subsequence(s, t)
    ensures Embeds(s, t, at)
    decreases |t|
  {
    if s == [] {
      at := [];
    } else if s[0] == t[0] {
      var rest := SubsequenceEmbeds(s[1..], t[1..]);
      at := [0] + seq(|rest|, i requires 0 <= i < |rest| => rest[i] + 1);
    } else {
      var rest := SubsequenceEmbeds(s, t[1..]);
      at := seq(|rest|, i requires 0 <= i < |rest| => rest[i] + 1);
    }
  }

  function At<K(==), T>(gaps: map<K, seq<T>>, e: K): seq<T> {
    if e in gaps then gaps[e] else []
  }

  /** The subset with every gap put back in its place. */
  function Rebuild<T(==)>(subset: seq<T>, before: map<T, seq<T>>, after: map<Option<T>, seq<T>>): seq<T> {
    if subset == [] then []
    else
      var e := subset[|subset| - 1];
      Rebuild(subset[..|subset| - 1], before, after) + At(before, e) + [e] + At(after, Some(e))
  }

  lemma {:induction false} RebuildIgnores<T>(subset: seq<T>, before: map<T, seq<T>>, after: map<Option<T>, seq<T>>,
                                             before': map<T, seq<T>>, after': map<Option<T>, seq<T>>)
    requires forall i :: 0 <= i < |subset| ==> At(before, subset[i]) == At(before', subset[i])
    requires forall i :: 0 <= i < |subset| ==> At(after, Some(subset[i])) == At(after', Some(subset[i]))
    ensures Rebuild(subset, before, after) == Rebuild(subset, before', after')
  {
    if subset != [] {
      RebuildIgnores(subset[..|subset| - 1], before, after, before', after');
    }
  }

  /** Whatever the gaps are, the subset lies in the rebuilt list. */
  lemma {:induction false} SubsetInRebuild<T>(subset: seq<T>, before: map<T, seq<T>>, after: map<Option<T>, seq<T>>)
    ensures Subsequence(subset, Rebuild(subset, before, after))
  {
    if subset != [] {
      var (init, e) := (subset[..|subset| - 1], subset[|subset| - 1]);
      SubsetInRebuild(init, before, after);
      var r := Rebuild(init, before, after);
      OneMore(init, e, r, At(before, e), At(after, Some(e)));
      hide Subsequence;
      assert subset == init + [e];
    }
  }

  lemma OneMore<T>(s: seq<T>, e: T, r: seq<T>, b: seq<T>, a: seq<T>)
    requires Subsequence(s, r)
    ensures Subsequence(s + [e], r + b + [e] + a)
  {
    var at := SubsequenceEmbeds(s, r);
    EarlyMatchIsEnough(s + [e], r + b + [e] + a, at + [|r| + |b|]);
  }

  // ---------------------------------------------------------------- the loop

  /** What holds after i elements of the subset were found in the first j of the original, `gap` being open. */
  ghost predicate Found<T>(subset: seq<T>, original: seq<T>, i: nat, j: nat, gap: seq<T>, before: map<T, seq<T>>) {
    && i <= |subset| && j <= |original|
    && (Subsequence(subset, original) <==> Subsequence(subset[i..], original[j..]))
    && (NoRepeats(original) ==>
          && Rebuild(subset[..i], before, map[]) + gap == original[..j]
          && (forall k :: 0 <= k < i ==> subset[k] in original[..j])
          && NoRepeats(subset[..i])
          && (forall e :: e in before ==> e in subset[..i]))
  }

  lemma FoundSkip<T>(subset: seq<T>, original: seq<T>, i: nat, j: nat, gap: seq<T>, before: map<T, seq<T>>)
    requires Found(subset, original, i, j, gap, before) && i < |subset| && j < |original| && subset[i] != original[j]
    ensures Found(subset, original, i, j + 1, gap + [original[j]], before)
  {
    assert original[j..][1..] == original[j + 1..];
    assert original[..j + 1] == original[..j] + [original[j]];
    hide Rebuild, NoRepeats;
  }

  lemma FoundMatch<T>(subset: seq<T>, original: seq<T>, i: nat, j: nat, gap: seq<T>,
                      before: map<T, seq<T>>, before': map<T, seq<T>>)
    requires Found(subset, original, i, j, gap, before) && i < |subset| && j < |original| && subset[i] == original[j]
    requires before' == if |gap| > 0 then before[subset[i] := gap] else before
    ensures Found(subset, original, i + 1, j + 1, [], before')
  {
    hide Rebuild, NoRepeats, Subsequence;
    var e := subset[i];
    MatchBoth(subset, original, i, j);
    if NoRepeats(original) {
      var (s, t) := (subset[..i], original[..j]);
      assert subset[..i + 1] == s + [e] && original[..j + 1] == t + [e];
      NewIsNew(original, j);
      assert forall k :: 0 <= k < i ==> s[k] == subset[k] && subset[k] in t;
      assert e !in s;
      NoRepeatsSnoc(s, e);
      MatchRebuilds(s, e, gap, before, before');
    }
  }

  lemma MatchBoth<T>(subset: seq<T>, original: seq<T>, i: nat, j: nat)
    requires i < |subset| && j < |original| && subset[i] == original[j]
    ensures Subsequence(subset[i..], original[j..]) <==> Subsequence(subset[i + 1..], original[j + 1..])
  {
    assert original[j..][1..] == original[j + 1..] && subset[i..][1..] == subset[i + 1..];
  }

  lemma NewIsNew<T>(original: seq<T>, j: nat)
    requires NoRepeats(original) && j < |original|
    ensures original[j] !in original[..j]
  {
  }

  lemma NoRepeatsSnoc<T>(s: seq<T>, e: T)
    requires NoRepeats(s) && e !in s
    ensures NoRepeats(s + [e])
  {
  }

  /** Filing the open gap before the element just found rebuilds the original up to that element. */
  lemma MatchRebuilds<T>(s: seq<T>, e: T, gap: seq<T>, before: map<T, seq<T>>, before': map<T, seq<T>>)
    requires e !in s && (forall d :: d in before ==> d in s)
    requires before' == if |gap| > 0 then before[e := gap] else before
    ensures Rebuild(s + [e], before', map[]) == Rebuild(s, before, map[]) + gap + [e]
    ensures forall d :: d in before' ==> d in s + [e]
  {
    assert e !in before && At(before', e) == gap;
    RebuildIgnores(s, before, map[], before', map[]);
    RebuildSnoc(s, e, before', map[]);
    hide Rebuild;
  }

  lemma RebuildSnoc<T>(s: seq<T>, e: T, before: map<T, seq<T>>, after: map<Option<T>, seq<T>>)
    ensures Rebuild(s + [e], before, after) == Rebuild(s, before, after) + At(before, e) + [e] + At(after, Some(e))
  {
    assert (s + [e])[..|s|] == s;
  }

  lemma FoundRebuilds<T>(subset: seq<T>, original: seq<T>, j: nat, before: map<T, seq<T>>)
    requires Found(subset, original, |subset|, j, [], before) && NoRepeats(original)
    ensures j <= |original| && Rebuild(subset, before, map[]) == original[..j] && NoRepeats(subset)
  {
    assert subset[..|subset|] == subset;
    assert Rebuild(subset, before, map[]) + [] == Rebuild(subset, before, map[]);
  }

  lemma FoundAll<T>(subset: seq<T>, original: seq<T>, j: nat, before: map<T, seq<T>>, after: map<Option<T>, seq<T>>)
    requires Found(subset, original, |subset|, j, [], before) && subset != [] && NoRepeats(original)
    requires after == if j < |original| then map[Some(subset[|subset| - 1]) := original[j..]] else map[]
    ensures Rebuild(subset, before, after) == original
  {
    hide Rebuild, Subsequence, Found;
    FoundRebuilds(subset, original, j, before);
    var (init, e) := (subset[..|subset| - 1], subset[|subset| - 1]);
    assert subset == init + [e];
    assert e !in init by { NewIsNew(subset, |init|); }
    hide NoRepeats;
    LastGap(init, e, before, after);
    assert At(after, Some(e)) == original[j..];
    assert original == original[..j] + original[j..];
  }

  /** A gap behind the last element only is appended. */
  lemma LastGap<T>(init: seq<T>, e: T, before: map<T, seq<T>>, after: map<Option<T>, seq<T>>)
    requires e !in init && after.Keys <= {Some(e)}
    ensures Rebuild(init + [e], before, after) == Rebuild(init + [e], before, map[]) + At(after, Some(e))
  {
    RebuildIgnores(init, before, map[], before, after);
    RebuildSnoc(init, e, before, map[]);
    RebuildSnoc(init, e, before, after);
    hide Rebuild;
    var r := Rebuild(init, before, map[]) + At(before, e) + [e];
    assert r + [] == r;
  }

  class Gaps<T(==)> {
    var before: map<T, seq<T>>
    var after: map<Option<T>, seq<T>>

    /** With a non-empty subset of a list of distinct elements, putting the gaps back rebuilds the list
        exactly when the subset is a subsequence of it. Without a subset the whole list is filed under nil. */
    constructor (subset: Option<seq<T>>, original: Option<seq<T>>)
      requires subset.Some? && original.Some? && subset.value != [] ==> original.value != []
      ensures subset.None? || original.None? ==> before == map[] && after == map[]
      ensures subset.Some? && original.Some? && subset.value == [] ==>
                before == map[] && after == if original.value == [] then map[] else map[None := original.value]
      ensures subset.Some? && original.Some? && subset.value != [] ==>
                after.Keys <= {Some(subset.value[|subset.value| - 1])}
      ensures subset.Some? && original.Some? && subset.value != [] && NoRepeats(original.value) ==>
                (Rebuild(subset.value, before, after) == original.value <==> Subsequence(subset.value, original.value))
    {
      before, after := map[], map[];
      new;
      if subset.Some? && original.Some? {
        FindGaps(subset.value, original.value);
      }
    }

    method FindGaps(subset: seq<T>, original: seq<T>)
      requires before == map[] && after == map[]
      requires subset != [] ==> original != []
      modifies this
      ensures subset == [] ==> before == map[] && after == if original == [] then map[] else map[None := original]
      ensures subset != [] ==> after.Keys <= {Some(subset[|subset| - 1])}
      ensures subset != [] && NoRepeats(original) ==>
                (Rebuild(subset, before, after) == original <==> Subsequence(subset, original))
    {
      var i, j := 0, 0;
      var currentGap: seq<T> := [];
      NothingFound(subset, original);
      hide Subsequence, Rebuild, NoRepeats, Found;
      while i < |subset|
        invariant 0 <= i <= |subset| && 0 <= j <= |original| && after == map[]
        invariant Found(subset, original, i, j, currentGap, before)
        invariant i < |subset| ==> j < |original|
        invariant i == |subset| ==> currentGap == []
        invariant subset == [] ==> i == j == 0 && before == map[]
        decreases |original| - j
      {
        var e1, e2 := subset[i], original[j];
        if e1 == e2 {
          FoundMatch(subset, original, i, j, currentGap, before,
                     if |currentGap| > 0 then before[e1 := currentGap] else before);
          if |currentGap| > 0 {
            before := before[e1 := currentGap];
            currentGap := [];
          }
          i := i + 1;
        } else {
          FoundSkip(subset, original, i, j, currentGap, before);
          currentGap := currentGap + [e2];
        }
        j := j + 1;
        if i == |subset| || j == |original| {
          break;
        }
      }
      if j < |original| {
        after := after[if i > 0 then Some(subset[i - 1]) else None := original[j..]];
      }
      FindGapsEnds(subset, original, i, j, currentGap, before, after);
    }
  }

  lemma NothingFound<T>(subset: seq<T>, original: seq<T>)
    ensures Found(subset, original, 0, 0, [], map[])
  {
    assert subset[0..] == subset && original[0..] == original;
  }

  /** The loop ends at the end of the subset, or at the end of the original with elements of the subset missing
      there. */
  lemma FindGapsEnds<T>(subset: seq<T>, original: seq<T>, i: nat, j: nat, gap: seq<T>, before: map<T, seq<T>>,
                        after: map<Option<T>, seq<T>>)
    requires Found(subset, original, i, j, gap, before) && (i == |subset| || j == |original|)
    requires i == |subset| ==> gap == []
    requires subset != [] && i == 0 ==> j == |original|
    requires after == if j < |original| then map[if i > 0 then Some(subset[i - 1]) else None := original[j..]]
                      else map[]
    ensures subset != [] ==> after.Keys <= {Some(subset[|subset| - 1])}
    ensures subset != [] && NoRepeats(original) ==>
              (Rebuild(subset, before, after) == original <==> Subsequence(subset, original))
  {
    SubsetInRebuild(subset, before, after);
    if subset != [] && NoRepeats(original) {
      if i == |subset| {
        FoundAll(subset, original, j, before, after);
      } else {
        assert original[j..] == [] && subset[i..] != [];
      }
    }
  }

  // ---------------------------------------------------------------- each omitted element

  /** x is shown in the gap before or after element i of the subset. */
  ghost predicate InGap<T>(subset: seq<T>, before: map<T, seq<T>>, after: map<Option<T>, seq<T>>, x: T, i: nat)
    requires i < |subset|
  {
    x in At(before, subset[i]) || x in At(after, Some(subset[i]))
  }

  lemma {:induction false} GapsInRebuild<T>(subset: seq<T>, before: map<T, seq<T>>, after: map<Option<T>, seq<T>>,
                                            x: T, i: nat)
    requires i < |subset| && InGap(subset, before, after, x, i)
    ensures x in Rebuild(subset, before, after)
  {
    if i < |subset| - 1 {
      GapsInRebuild(subset[..|subset| - 1], before, after, x, i);
    }
  }

  /** Every element left out of the subset is in one gap, once. */
  lemma {:induction false} OmittedInOneGap<T>(subset: seq<T>, before: map<T, seq<T>>,
                                              after: map<Option<T>, seq<T>>, x: T)
    returns (i: nat)
    requires NoRepeats(Rebuild(subset, before, after)) && x in Rebuild(subset, before, after) && x !in subset
    ensures i < |subset| && InGap(subset, before, after, x, i)
    ensures !(x in At(before, subset[i]) && x in At(after, Some(subset[i])))
    ensures forall k :: 0 <= k < |subset| && k != i ==> !InGap(subset, before, after, x, k)
  {
    hide Rebuild, NoRepeats, At, InGap;
    SplitLast(subset, before, after, x);
    var init := subset[..|subset| - 1];
    forall k | 0 <= k < |init|
      ensures subset[k] == init[k] && (InGap(subset, before, after, x, k) <==> InGap(init, before, after, x, k))
    {
      InGapOfInit(subset, before, after, x, k);
    }
    if x in Rebuild(init, before, after) {
      i := OmittedInOneGap(init, before, after, x);
    } else {
      i := |init|;
      forall k | 0 <= k < |init| ensures !InGap(init, before, after, x, k) {
        if InGap(init, before, after, x, k) { GapsInRebuild(init, before, after, x, k); }
      }
    }
  }

  /** An omitted element lies in the part before the last element's gaps, or in one of these two gaps. */
  lemma SplitLast<T>(subset: seq<T>, before: map<T, seq<T>>, after: map<Option<T>, seq<T>>, x: T)
    requires NoRepeats(Rebuild(subset, before, after)) && x in Rebuild(subset, before, after) && x !in subset
    ensures subset != [] && NoRepeats(Rebuild(subset[..|subset| - 1], before, after))
    ensures InGap(subset, before, after, x, |subset| - 1) <==> x !in Rebuild(subset[..|subset| - 1], before, after)
    ensures !(x in At(before, subset[|subset| - 1]) && x in At(after, Some(subset[|subset| - 1])))
  {
    var (init, e) := (subset[..|subset| - 1], subset[|subset| - 1]);
    var (r, b, a) := (Rebuild(init, before, after), At(before, e), At(after, Some(e)));
    assert Rebuild(subset, before, after) == r + b + [e] + a == r + (b + [e] + a);
    hide NoRepeats, Rebuild;
    PartsAreDisjoint(r, b, e, a, x);
    PrefixNoRepeats(r, b + [e] + a);
  }

  lemma InGapOfInit<T>(subset: seq<T>, before: map<T, seq<T>>, after: map<Option<T>, seq<T>>, x: T, k: nat)
    requires k < |subset| - 1
    ensures InGap(subset, before, after, x, k) <==> InGap(subset[..|subset| - 1], before, after, x, k)
  {
  }

  lemma PrefixNoRepeats<T>(s: seq<T>, t: seq<T>)
    requires NoRepeats(s + t)
    ensures NoRepeats(s)
  {
    assert s == (s + t)[..|s|];
  }

  lemma PartsAreDisjoint<T>(r: seq<T>, b: seq<T>, e: T, a: seq<T>, x: T)
    requires NoRepeats(r + b + [e] + a) && x != e
    ensures !(x in r && x in b) && !(x in r && x in a) && !(x in b && x in a)
  {
    var all := r + b + [e] + a;
    forall i, j | 0 <= i < |r| && 0 <= j < |b| ensures r[i] != b[j] {
      assert all[i] == r[i] && all[|r| + j] == b[j];
    }
    forall i, j | 0 <= i < |r| && 0 <= j < |a| ensures r[i] != a[j] {
      assert all[i] == r[i] && all[|r| + |b| + 1 + j] == a[j];
    }
    forall i, j | 0 <= i < |b| && 0 <= j < |a| ensures b[i] != a[j] {
      assert all[|r| + i] == b[i] && all[|r| + |b| + 1 + j] == a[j];
    }
  }

  // ---------------------------------------------------------------- no end

  /** The loop's variables when the original is empty: elements past its end read as nil. */
  datatype LoopState<T> = LoopState(i: nat, j: nat, gap: seq<Option<T>>)

  /** One round of the loop on an empty original, or nothing when the loop stops. */
  function Round<T>(subset: seq<T>, s: LoopState<T>): Option<LoopState<T>> {
    if s.i >= |subset| then None
    else
      var next := LoopState(s.i, s.j + 1, s.gap + [None]);
      if next.i == |subset| || next.j == 0 then None else Some(next)
  }

  function Rounds<T>(subset: seq<T>, n: nat): Option<LoopState<T>> {
    if n == 0 then Some(LoopState(0, 0, []))
    else
      match Rounds(subset, n - 1)
      case None => None
      case Some(s) => Round(subset, s)
  }

  /** With a non-empty subset and an empty original the loop never stops, and the open gap grows without bound. */
  lemma {:induction false} EmptyOriginalNeverStops<T>(subset: seq<T>, n: nat)
    requires subset != []
    ensures Rounds(subset, n).Some? && Rounds(subset, n).value.j == n && |Rounds(subset, n).value.gap| == n
    ensures Rounds(subset, n).value.i == 0
  {
    if n > 0 { EmptyOriginalNeverStops(subset, n - 1); }
  }
}
