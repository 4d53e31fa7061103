/** Edit scripts: lists of texts marked common, added or deleted, what they
    spell on either side, and the grouping of equal marks into runs. */
module EditScripts {
  import opened LcsGrid

  datatype Op = Common | Add | Delete
  /** A text, or an object that holds one, with its mark. */
  datatype Entry<T> = Entry(text: T, op: Op)
  type Script = seq<Entry<string>>

  /** The texts of a script without those marked `dropped`. */
  function Project(s: Script, dropped: Op): seq<string> {
    if s == [] then []
    else Project(s[..|s| - 1], dropped) + (if s[|s| - 1].op == dropped then [] else [s[|s| - 1].text])
  }

  function Before(s: Script): seq<string> { Project(s, Add) }

  function After(s: Script): seq<string> { Project(s, Delete) }

  /** The entries of a script without those marked `dropped`, in order. */
  function Kept<T>(s: seq<Entry<T>>, dropped: Op): seq<Entry<T>> {
    if s == [] then []
    else Kept(s[..|s| - 1], dropped) + (if s[|s| - 1].op == dropped then [] else [s[|s| - 1]])
  }

  lemma KeptSnoc<T>(s: seq<Entry<T>>, e: Entry<T>, dropped: Op)
    ensures Kept(s + [e], dropped) == if e.op == dropped then Kept(s, dropped) else Kept(s, dropped) + [e]
  {
    assert (s + [e])[..|s|] == s;
  }

  lemma ProjectSnoc(s: Script, e: Entry<string>, dropped: Op)
    ensures Project(s + [e], dropped) == if e.op == dropped then Project(s, dropped) else Project(s, dropped) + [e.text]
  {
    assert (s + [e])[..|s|] == s;
  }

  /** A side's texts are those of its entries. */
  lemma {:induction false} ProjectOfKept(s: Script, dropped: Op)
    ensures Project(Kept(s, dropped), dropped) == Project(s, dropped)
  {
    if s == [] {
    } else {
      var (t, e) := (s[..|s| - 1], s[|s| - 1]);
      assert s == t + [e];
      hide Kept, Project;
      ProjectOfKept(t, dropped);
      KeptSnoc(t, e, dropped);
      ProjectSnoc(t, e, dropped);
      ProjectSnoc(Kept(t, dropped), e, dropped);
    }
  }

  lemma {:induction false} KeptConcat<T>(s: seq<Entry<T>>, t: seq<Entry<T>>, dropped: Op)
    ensures Kept(s + t, dropped) == Kept(s, dropped) + Kept(t, dropped)
  {
    if t == [] {
      assert s + t == s;
    } else {
      assert (s + t)[..|s + t| - 1] == s + t[..|t| - 1];
      KeptConcat(s, t[..|t| - 1], dropped);
    }
  }

  function Count(s: Script, op: Op): nat {
    if s == [] then 0 else Count(s[..|s| - 1], op) + (if s[|s| - 1].op == op then 1 else 0)
  }

  function NonCommon(s: Script): nat { Count(s, Add) + Count(s, Delete) }

  lemma {:induction false} ProjectConcat(s: Script, t: Script, dropped: Op)
    ensures Project(s + t, dropped) == Project(s, dropped) + Project(t, dropped)
  {
    if t == [] {
      assert s + t == s;
    } else {
      assert (s + t)[..|s + t| - 1] == s + t[..|t| - 1];
      ProjectConcat(s, t[..|t| - 1], dropped);
    }
  }

  lemma {:induction false} CountConcat(s: Script, t: Script, op: Op)
    ensures Count(s + t, op) == Count(s, op) + Count(t, op)
  {
    if t == [] {
      assert s + t == s;
    } else {
      assert (s + t)[..|s + t| - 1] == s + t[..|t| - 1];
      CountConcat(s, t[..|t| - 1], op);
    }
  }

  lemma {:induction false} Lengths(s: Script)
    ensures |Before(s)| == Count(s, Common) + Count(s, Delete)
    ensures |After(s)| == Count(s, Common) + Count(s, Add)
  {
    if s != [] { Lengths(s[..|s| - 1]); }
  }

  lemma {:induction false} Entries(s: Script)
    ensures |s| == Count(s, Common) + Count(s, Add) + Count(s, Delete)
  {
    if s != [] { Entries(s[..|s| - 1]); }
  }

  /** Without additions and deletions a script consists of common entries, one for each text. */
  lemma {:induction false} OnlyCommon(s: Script)
    requires NonCommon(s) == 0
    ensures |Before(s)| == |After(s)| == |s|
    ensures forall i :: 0 <= i < |s| ==> s[i] == Entry(Before(s)[i], Common) == Entry(After(s)[i], Common)
  {
    if s != [] {
      var (t, e) := (s[..|s| - 1], s[|s| - 1]);
      OnlyCommon(t);
      assert s == t + [e] && Before(s) == Before(t) + [e.text] && After(s) == After(t) + [e.text];
    }
  }

  /** The common entries of any script are a common subsequence of its two sides. */
  lemma {:induction false} CommonAtMostLcs(s: Script)
    ensures Count(s, Common) <= Lcs(Before(s), After(s))
  {
    if s != [] {
      var t, e := s[..|s| - 1], s[|s| - 1];
      CommonAtMostLcs(t);
      var (a, b, a', b') := (Before(s), After(s), Before(t), After(t));
      assert a[..|a'|] == a' && b[..|b'|] == b';
      PrefixLcsOfPrefixes(a, b, a', b', |a'|, |b'|);
      PrefixLcsStep(a, b, |a|, |b|);
    }
  }

  /** No script between two texts is shorter than the length minus twice the common subsequence. */
  lemma EveryScriptAtLeast(s: Script)
    ensures NonCommon(s) >= |Before(s)| + |After(s)| - 2 * Lcs(Before(s), After(s))
  {
    Lengths(s);
    CommonAtMostLcs(s);
  }

  // ---------------------------------------------------------------- runs

  /** Appends an entry, extending the last run when the marks agree. */
  function AppendRun(runs: Script, e: Entry<string>): Script {
    if runs != [] && runs[|runs| - 1].op == e.op
    then runs[|runs| - 1 := Entry(runs[|runs| - 1].text + e.text, e.op)]
    else runs + [e]
  }

  /** The script with every maximal run of one mark concatenated. */
  function Runs(s: Script): Script {
    if s == [] then [] else AppendRun(Runs(s[..|s| - 1]), s[|s| - 1])
  }

  predicate NeighboursDiffer(s: Script) {
    forall i :: 0 < i < |s| ==> s[i - 1].op != s[i].op
  }

  predicate NoEmptyText(s: Script) {
    forall i :: 0 <= i < |s| ==> s[i].text != ""
  }

  function Join(texts: seq<string>): string {
    if texts == [] then "" else Join(texts[..|texts| - 1]) + texts[|texts| - 1]
  }

  /** Every character of the script with the mark of its entry. */
  function Spread(s: Script): seq<(char, Op)> {
    if s == [] then [] else Spread(s[..|s| - 1]) + Marked(s[|s| - 1].text, s[|s| - 1].op)
  }

  function Marked(text: string, op: Op): seq<(char, Op)> {
    seq(|text|, i requires 0 <= i < |text| => (text[i], op))
  }

  lemma SpreadAppendRun(r: Script, e: Entry<string>)
    ensures Spread(AppendRun(r, e)) == Spread(r) + Marked(e.text, e.op)
  {
    var r' := AppendRun(r, e);
    if r != [] && r[|r| - 1].op == e.op {
      assert r'[..|r'| - 1] == r[..|r| - 1];
      assert Marked(r[|r| - 1].text + e.text, e.op) == Marked(r[|r| - 1].text, e.op) + Marked(e.text, e.op);
    } else {
      assert r'[..|r'| - 1] == r;
    }
  }

  /** Grouping keeps every character with its mark, and no two neighbouring runs share a mark. */
  lemma {:induction false} RunsKeepMarks(s: Script)
    ensures Spread(Runs(s)) == Spread(s) && NeighboursDiffer(Runs(s))
    ensures NoEmptyText(s) ==> NoEmptyText(Runs(s))
  {
    if s != [] {
      var r := Runs(s[..|s| - 1]);
      RunsKeepMarks(s[..|s| - 1]);
      SpreadAppendRun(r, s[|s| - 1]);
      hide Spread, Marked;
    }
  }

  lemma SpreadSnoc(s: Script)
    requires s != []
    ensures Spread(s) == Spread(s[..|s| - 1]) + Marked(s[|s| - 1].text, s[|s| - 1].op)
    ensures |Spread(s)| == |Spread(s[..|s| - 1])| + |s[|s| - 1].text|
  {
  }

  /** The last character of a script carries the mark of its last entry. */
  lemma SpreadEnd(s: Script)
    requires s != [] && NoEmptyText(s)
    ensures Spread(s) != [] && Spread(s)[|Spread(s)| - 1].1 == s[|s| - 1].op
  {
    SpreadSnoc(s);
    assert s[|s| - 1].text != "";
  }

  /** The last run is exactly the longest suffix of characters that share one mark. */
  lemma LastRunIsMaximal(s: Script, i: int)
    requires s != [] && NeighboursDiffer(s) && NoEmptyText(s)
    requires var n := |Spread(s)| - |s[|s| - 1].text|; n - 1 <= i < |Spread(s)| && i >= 0
    ensures |Spread(s)| >= |s[|s| - 1].text|
    ensures (Spread(s)[i].1 == s[|s| - 1].op) == (i >= |Spread(s)| - |s[|s| - 1].text|)
  {
    var t := s[..|s| - 1];
    SpreadSnoc(s);
    hide Spread;
    if t != [] {
      assert t[|t| - 1].op == s[|s| - 2].op != s[|s| - 1].op;
      SpreadEnd(t);
    } else {
      NothingSpread();
    }
  }

  lemma NothingSpread()
    ensures Spread([]) == []
  {
  }

  /** Scripts with the same marked characters end in runs of the same length. */
  lemma LastRunsAlike(r: Script, s: Script)
    requires Spread(r) == Spread(s) && r != [] && s != []
    requires NeighboursDiffer(r) && NeighboursDiffer(s) && NoEmptyText(r) && NoEmptyText(s)
    ensures |r[|r| - 1].text| == |s[|s| - 1].text| && r[|r| - 1].op == s[|s| - 1].op
  {
    SpreadEnd(r);
    SpreadEnd(s);
    SpreadSnoc(r);
    SpreadSnoc(s);
    hide Spread, NeighboursDiffer, NoEmptyText;
    var (n, d, e) := (|Spread(r)|, |r[|r| - 1].text|, |s[|s| - 1].text|);
    if d < e {
      LastRunIsMaximal(r, n - d - 1);
      LastRunIsMaximal(s, n - d - 1);
    } else if d > e {
      LastRunIsMaximal(s, n - e - 1);
      LastRunIsMaximal(r, n - e - 1);
    }
  }

  lemma MarkedOnce(d: string, e: string, op: Op)
    requires Marked(d, op) == Marked(e, op) && |d| == |e|
    ensures d == e
  {
    forall i | 0 <= i < |d| ensures d[i] == e[i] {
      assert Marked(d, op)[i] == Marked(e, op)[i];
    }
  }

  /** The grouped form is the only one: two scripts with the same marked characters,
      no empty texts and differing neighbours are equal. */
  lemma {:induction false} GroupedFormIsUnique(r: Script, s: Script)
    requires Spread(r) == Spread(s)
    requires NeighboursDiffer(r) && NeighboursDiffer(s) && NoEmptyText(r) && NoEmptyText(s)
    ensures r == s
    decreases |r|
  {
    if r == [] || s == [] {
      if r != [] { SpreadEnd(r); }
      if s != [] { SpreadEnd(s); }
    } else {
      var (r', s', d, e) := (r[..|r| - 1], s[..|s| - 1], r[|r| - 1], s[|s| - 1]);
      LastRunsAlike(r, s);
      SpreadSnoc(r);
      SpreadSnoc(s);
      hide Spread, Marked;
      var n := |Spread(r')|;
      assert |Spread(s')| == n;
      assert Spread(r') == Spread(r)[..n] == Spread(s');
      assert Marked(d.text, d.op) == Spread(r)[n..] == Marked(e.text, e.op);
      GroupedFormIsUnique(r', s');
      MarkedOnce(d.text, e.text, d.op);
      assert r == r' + [d] && s == s' + [e];
    }
  }

  function Text(s: Script, dropped: Op): string { Join(Project(s, dropped)) }

  lemma TextSnoc(s: Script, e: Entry<string>, dropped: Op)
    ensures Text(s + [e], dropped) == Text(s, dropped) + (if e.op == dropped then "" else e.text)
  {
    assert (s + [e])[..|s|] == s;
    var p := Project(s, dropped);
    if e.op == dropped {
      assert p + [] == p;
    } else {
      assert (p + [e.text])[..|p|] == p;
    }
  }

  lemma TextAppendRun(r: Script, e: Entry<string>, dropped: Op)
    ensures Text(AppendRun(r, e), dropped) == Text(r, dropped) + (if e.op == dropped then "" else e.text)
  {
    if r != [] && r[|r| - 1].op == e.op {
      var q, d := r[..|r| - 1], r[|r| - 1];
      assert r == q + [d] && AppendRun(r, e) == q + [Entry(d.text + e.text, e.op)];
      TextSnoc(q, d, dropped);
      TextSnoc(q, Entry(d.text + e.text, e.op), dropped);
    } else {
      TextSnoc(r, e, dropped);
    }
  }

  /** Both sides of the grouped script spell the same text as before grouping. */
  lemma {:induction false} RunsKeepText(s: Script, dropped: Op)
    ensures Text(Runs(s), dropped) == Text(s, dropped)
  {
    if s != [] {
      var t, e := s[..|s| - 1], s[|s| - 1];
      assert s == t + [e];
      RunsKeepText(t, dropped);
      TextAppendRun(Runs(t), e, dropped);
      TextSnoc(t, e, dropped);
    }
  }

  /** Characters that are added or deleted. */
  function Changed(s: Script): nat {
    if s == [] then 0
    else Changed(s[..|s| - 1]) + (if s[|s| - 1].op == Common then 0 else |s[|s| - 1].text|)
  }

  lemma {:induction false} ChangedOfRuns(s: Script)
    ensures Changed(Runs(s)) == Changed(s)
  {
    if s != [] {
      var r, e := Runs(s[..|s| - 1]), s[|s| - 1];
      ChangedOfRuns(s[..|s| - 1]);
      var r' := AppendRun(r, e);
      if r != [] && r[|r| - 1].op == e.op {
        assert r'[..|r'| - 1] == r[..|r| - 1];
      } else {
        assert r'[..|r'| - 1] == r;
      }
    }
  }

  lemma {:induction false} ChangedOfSingles(s: Script)
    requires forall i :: 0 <= i < |s| ==> |s[i].text| == 1
    ensures Changed(s) == NonCommon(s)
  {
    if s != [] { ChangedOfSingles(s[..|s| - 1]); }
  }
}
