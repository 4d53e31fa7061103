/** The size of the difference between two raw texts, which decides whether an edit
    still counts as a grace-period edit. */
module EditSizes {
  import opened LcsGrid
  import opened EditScripts
  import opened OnpDiff

  function Chars(text: string): seq<string> {
    seq(|text|, i requires 0 <= i < |text| => [text[i]])
  }

  lemma {:induction false} LcsOfChars(a: string, b: string, x: nat, y: nat)
    requires x <= |a| && y <= |b|
    ensures PrefixLcs(Chars(a), Chars(b), x, y) == PrefixLcs(a, b, x, y)
    decreases x + y
  {
    if x > 0 && y > 0 {
      assert Chars(a)[x - 1] == [a[x - 1]] && Chars(b)[y - 1] == [b[y - 1]];
      assert [a[x - 1]] == [b[y - 1]] <==> a[x - 1] == b[y - 1] by {
        assert [a[x - 1]][0] == a[x - 1] && [b[y - 1]][0] == b[y - 1];
      }
      LcsOfChars(a, b, x - 1, y - 1);
      LcsOfChars(a, b, x - 1, y);
      LcsOfChars(a, b, x, y - 1);
    }
  }

  /** Fewest characters to delete and insert. */
  function EditDistance(before: string, after: string): int {
    |before| + |after| - 2 * Lcs(before, after)
  }

  lemma {:induction false} EntriesAreSingle(s: Script)
    requires forall i :: 0 <= i < |Before(s)| ==> |Before(s)[i]| == 1
    requires forall i :: 0 <= i < |After(s)| ==> |After(s)[i]| == 1
    ensures forall i :: 0 <= i < |s| ==> |s[i].text| == 1
  {
    if s != [] {
      var (t, e) := (s[..|s| - 1], s[|s| - 1]);
      var (b, a) := (Before(t), After(t));
      assert forall i :: 0 <= i < |b| ==> b[i] == Before(s)[i];
      assert forall i :: 0 <= i < |a| ==> a[i] == After(s)[i];
      EntriesAreSingle(t);
      assert e.op != Add ==> Before(s)[|b|] == e.text;
      assert e.op == Add ==> After(s)[|a|] == e.text;
    }
  }

  method SumChanged(runs: Script) returns (r: nat)
    ensures r == Changed(runs)
  {
    r := 0;
    for i := 0 to |runs|
      invariant r == Changed(runs[..i])
    {
      assert runs[..i + 1][..i] == runs[..i];
      r := r + if runs[i].op == Common then 0 else |runs[i].text|;
    }
    assert runs[..|runs|] == runs;
  }

  /** The characters in changed runs: the edit distance, or 0 when the comparison gives up. */
  method DiffSize(before: string, after: string) returns (r: int)
    ensures r == if GivesUp(Chars(before), Chars(after)) then 0 else EditDistance(before, after)
  {
    var runs := ShortDiffOf(Chars(before), Chars(after));
    LcsOfChars(before, after, |before|, |after|);
    if !GivesUp(Chars(before), Chars(after)) {
      ghost var s: Script :| Shortest(s, Chars(before), Chars(after)) && runs == Runs(s);
      EntriesAreSingle(s);
      ChangedOfRuns(s);
      ChangedOfSingles(s);
    }
    r := SumChanged(runs);
  }

  function LengthDifference(original: string, raw: string): nat {
    if |original| < |raw| then |raw| - |original| else |original| - |raw|
  }

  /** Whether both tests accept the edit. */
  predicate PassesSizeTests(original: string, raw: string, maxDiff: int) {
    && LengthDifference(original, raw) <= maxDiff
    && (if GivesUp(Chars(original), Chars(raw)) then 0 else EditDistance(original, raw)) <= maxDiff
  }

  /** The two tests of an edit's size against the limit. */
  method WithinMaxDiff(original: string, raw: string, maxDiff: int) returns (r: bool)
    ensures r <==> PassesSizeTests(original, raw, maxDiff)
    ensures !GivesUp(Chars(original), Chars(raw)) ==> (r <==> EditDistance(original, raw) <= maxDiff)
  {
    SizeTestsAreExactIff(original, raw, maxDiff);
    var difference := if |original| < |raw| then |raw| - |original| else |original| - |raw|;
    if difference > maxDiff {
      return false;
    }
    var size := DiffSize(original, raw);
    return size <= maxDiff;
  }

  /** The tests accept exactly the edits within the limit, unless the comparison gives up on a rewrite of
      similar length. For limits below twice the round limit every such rewrite is wrongly accepted. */
  lemma SizeTestsAreExactIff(original: string, raw: string, maxDiff: int)
    ensures (PassesSizeTests(original, raw, maxDiff) <==> EditDistance(original, raw) <= maxDiff)
            <==> !(GivesUp(Chars(original), Chars(raw)) && LengthDifference(original, raw) <= maxDiff
                   && maxDiff < EditDistance(original, raw))
    ensures maxDiff < 2 * MAX_ROUNDS ==>
              ((PassesSizeTests(original, raw, maxDiff) <==> EditDistance(original, raw) <= maxDiff)
               <==> !GivesUp(Chars(original), Chars(raw)) || LengthDifference(original, raw) > maxDiff)
  {
    LcsOfChars(original, raw, |original|, |raw|);
    PrefixLcsBounds(original, raw, |original|, |raw|);
    if GivesUp(Chars(original), Chars(raw)) { GivingUpHidesLargeEdits(original, raw); }
  }

  /** When the comparison gives up, the distance is at least twice the round limit. */
  lemma GivingUpHidesLargeEdits(original: string, raw: string)
    requires GivesUp(Chars(original), Chars(raw))
    ensures EditDistance(original, raw) >= 2 * MAX_ROUNDS
  {
    LcsOfChars(original, raw, |original|, |raw|);
  }

  /** Replacing every one of a thousand characters passes the strictest limit. */
  lemma RewritePasses()
    ensures var (original, raw) := (seq(MAX_ROUNDS, _ => 'a'), seq(MAX_ROUNDS, _ => 'b'));
            PassesSizeTests(original, raw, 0) && EditDistance(original, raw) == 2 * MAX_ROUNDS
  {
    var (original, raw) := (seq(MAX_ROUNDS, _ => 'a'), seq(MAX_ROUNDS, _ => 'b'));
    LcsOfRewrite(original, raw, |original|, |raw|);
    LcsOfChars(original, raw, |original|, |raw|);
  }
}
