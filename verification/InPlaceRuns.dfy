/** What is left of an edit script whose runs were concatenated in place: the text of a
    run is appended to the very text that its first entry holds. */
module InPlaceRuns {
  import opened EditScripts

  /** An entry marked `op` after s continues the last run of s. */
  predicate Joins<T>(s: seq<Entry<T>>, op: Op) {
    s != [] && s[|s| - 1].op == op
  }

  /** Where the last run starts. */
  function LastHead<T>(s: seq<Entry<T>>): (h: nat)
    requires s != []
    ensures h < |s| && s[h].op == s[|s| - 1].op
  {
    var t := s[..|s| - 1];
    if Joins(t, s[|s| - 1].op) then LastHead(t) else |s| - 1
  }

  /** The first entries of the runs. */
  function Heads<T>(s: seq<Entry<T>>): seq<Entry<T>> {
    if s == [] then []
    else
      var (t, e) := (s[..|s| - 1], s[|s| - 1]);
      if Joins(t, e.op) then Heads(t) else Heads(t) + [e]
  }

  /** The script with more text in its entry h. */
  function Extended(s: Script, h: nat, text: string): (r: Script)
    requires h < |s|
  {
    s[h := Entry(s[h].text + text, s[h].op)]
  }

  /** The script after every run has been appended to the text of its first entry. */
  function Merged(s: Script): (r: Script)
    ensures |r| == |s| && forall i :: 0 <= i < |s| ==> r[i].op == s[i].op
  {
    if s == [] then []
    else
      var (t, e) := (s[..|s| - 1], s[|s| - 1]);
      (if Joins(t, e.op) then Extended(Merged(t), LastHead(t), e.text) else Merged(t)) + [e]
  }

  lemma MergedSnoc(s: Script, e: Entry<string>)
    ensures Merged(s + [e])
         == (if Joins(s, e.op) then Extended(Merged(s), LastHead(s), e.text) else Merged(s)) + [e]
  {
    assert (s + [e])[..|s|] == s;
  }

  lemma HeadsSnoc<T>(s: seq<Entry<T>>, e: Entry<T>)
    ensures Heads(s + [e]) == if Joins(s, e.op) then Heads(s) else Heads(s) + [e]
  {
    assert (s + [e])[..|s|] == s;
  }

  lemma LastHeadSnoc<T>(s: seq<Entry<T>>, e: Entry<T>)
    ensures LastHead(s + [e]) == if Joins(s, e.op) then LastHead(s) else |s|
  {
    assert (s + [e])[..|s|] == s;
  }

  lemma {:induction false} LastHeadIsLast<T>(s: seq<Entry<T>>)
    requires s != []
    ensures Heads(s) != [] && Heads(s)[|Heads(s)| - 1] == s[LastHead(s)]
  {
    if Joins(s[..|s| - 1], s[|s| - 1].op) { LastHeadIsLast(s[..|s| - 1]); }
  }

  /** Marks alone decide where runs start. */
  lemma {:induction false} LastHeadByMarks<T, U>(s: seq<Entry<T>>, r: seq<Entry<U>>)
    requires s != [] && |s| == |r| && forall i :: 0 <= i < |s| ==> s[i].op == r[i].op
    ensures LastHead(s) == LastHead(r)
  {
    if |s| > 1 { LastHeadByMarks(s[..|s| - 1], r[..|r| - 1]); }
  }

  lemma NoHeads<T>()
    ensures Heads<T>([]) == []
  {
  }

  /** More text in the head of the last run is more text in the last head. */
  lemma {:induction false} HeadsExtended(s: Script, text: string)
    requires s != []
    ensures Heads(s) != []
    ensures Heads(Extended(s, LastHead(s), text)) == Extended(Heads(s), |Heads(s)| - 1, text)
  {
    LastHeadIsLast(s);
    var (t, e) := (s[..|s| - 1], s[|s| - 1]);
    var u := Extended(s, LastHead(s), text);
    assert s == t + [e];
    HeadsSnoc(t, e);
    LastHeadSnoc(t, e);
    hide Heads, LastHead;
    if Joins(t, e.op) {
      HeadsExtended(t, text);
      var t' := Extended(t, LastHead(t), text);
      assert u == t' + [e];
      HeadsSnoc(t', e);
    } else {
      var e' := Entry(e.text + text, e.op);
      assert u == t + [e'];
      HeadsSnoc(t, e');
    }
  }

  /** The first entries of the runs hold the grouped script. */
  lemma {:induction false} HeadsOfMerged(s: Script)
    ensures Heads(Merged(s)) == Runs(s)
  {
    hide Heads, LastHead, Merged;
    if s != [] {
      var (t, e) := (s[..|s| - 1], s[|s| - 1]);
      assert s == t + [e];
      HeadsOfMerged(t);
      MergedSnoc(t, e);
      var m := Merged(t);
      if Joins(t, e.op) {
        LastHeadByMarks(t, m);
        HeadsExtended(m, e.text);
        LastHeadIsLast(m);
        HeadsSnoc(Extended(m, LastHead(m), e.text), e);
      } else {
        HeadsSnoc(m, e);
        if t != [] { LastHeadIsLast(m); LastHeadByMarks(t, m); }
      }
    } else {
      NoHeads<string>();
      EmptyIsQuiet();
    }
  }

  /** An entry changes only if it is the first of its run. */
  lemma {:induction false} MergedOrHead<T>(u: seq<Entry<T>>, s: Script, i: nat)
    requires |u| == |s| && (forall k :: 0 <= k < |s| ==> u[k].op == s[k].op) && i < |s|
    ensures Merged(s)[i] == s[i] || u[i] in Heads(u)
  {
    hide Heads, Merged, LastHead;
    var (v, t, d, e) := (u[..|u| - 1], s[..|s| - 1], u[|u| - 1], s[|s| - 1]);
    assert u == v + [d] && s == t + [e];
    HeadsSnoc(v, d);
    MergedSnoc(t, e);
    if i < |t| {
      MergedOrHead(v, t, i);
      assert v[i] == u[i] && t[i] == s[i];
      if Joins(t, e.op) {
        LastHeadByMarks(v, t);
        LastHeadIsLast(v);
      }
    }
  }

  // ---------------------------------------------------------------- when nothing is lost

  /** Only empty texts continue a run; without empty texts, every run has one entry. */
  predicate QuietRuns(s: Script) {
    forall i :: 0 < i < |s| && s[i].op == s[i - 1].op ==> s[i].text == ""
  }

  /** Characters on both sides; common ones are on either side. */
  function TextSize(s: Script): nat {
    if s == [] then 0
    else TextSize(s[..|s| - 1]) + |s[|s| - 1].text| * (if s[|s| - 1].op == Common then 2 else 1)
  }

  lemma {:induction false} SizeOfSides(s: Script)
    ensures |Text(s, Add)| + |Text(s, Delete)| == TextSize(s)
  {
    if s != [] {
      var (t, e) := (s[..|s| - 1], s[|s| - 1]);
      assert s == t + [e];
      SizeOfSides(t);
      TextSnoc(t, e, Add);
      TextSnoc(t, e, Delete);
    }
  }

  lemma {:induction false} SizeExtended(s: Script, h: nat, text: string)
    requires h < |s|
    ensures TextSize(Extended(s, h, text)) == TextSize(s) + |text| * (if s[h].op == Common then 2 else 1)
  {
    var (t, u) := (s[..|s| - 1], Extended(s, h, text));
    if h < |s| - 1 {
      SizeExtended(t, h, text);
      assert u[..|u| - 1] == Extended(t, h, text);
    } else {
      assert u[..|u| - 1] == t;
    }
  }

  lemma SizeSnoc(s: Script, e: Entry<string>)
    ensures TextSize(s + [e]) == TextSize(s) + |e.text| * (if e.op == Common then 2 else 1)
  {
    assert (s + [e])[..|s|] == s;
  }

  lemma QuietSnoc(s: Script, e: Entry<string>)
    ensures QuietRuns(s + [e]) <==> QuietRuns(s) && (Joins(s, e.op) ==> e.text == "")
  {
    var r := s + [e];
    if QuietRuns(r) {
      forall i | 0 < i < |s| && s[i].op == s[i - 1].op ensures s[i].text == "" {
        assert r[i] == s[i] && r[i - 1] == s[i - 1];
      }
      assert Joins(s, e.op) ==> r[|s|].op == r[|s| - 1].op;
    }
  }

  /** Merging never shrinks a script; it changes nothing exactly when all runs are quiet, and else it grows. */
  lemma {:induction false} MergedGrows(s: Script)
    ensures if QuietRuns(s) then Merged(s) == s else TextSize(Merged(s)) > TextSize(s)
  {
    hide QuietRuns, Merged, LastHead, TextSize;
    if s == [] {
      EmptyIsQuiet();
    } else {
      var (t, e) := (s[..|s| - 1], s[|s| - 1]);
      assert s == t + [e];
      var m := Merged(t);
      MergedGrows(t);
      MergedSnoc(t, e);
      QuietSnoc(t, e);
      SizeSnoc(t, e);
      if Joins(t, e.op) {
        var (h, x) := (LastHead(t), Extended(m, LastHead(t), e.text));
        SizeExtended(m, h, e.text);
        SizeSnoc(x, e);
        if e.text == "" {
          assert m[h].text + "" == m[h].text;
          assert x == m;
        }
      } else {
        SizeSnoc(m, e);
      }
    }
  }

  lemma EmptyIsQuiet()
    ensures QuietRuns([]) && Merged([]) == []
  {
  }

  /** A script whose runs were concatenated in place still spells its two texts if and only if
      nothing but empty texts continues a run. */
  lemma MergedSpellsIff(s: Script)
    ensures Before(Merged(s)) == Before(s) && After(Merged(s)) == After(s) <==> QuietRuns(s)
    ensures Text(Merged(s), Add) == Text(s, Add) && Text(Merged(s), Delete) == Text(s, Delete) <==> QuietRuns(s)
  {
    MergedGrows(s);
    SizeOfSides(s);
    SizeOfSides(Merged(s));
  }

  /** Without empty texts nothing is lost exactly when the script is its own grouped form. */
  lemma {:induction false} QuietMeansGrouped(s: Script)
    requires NoEmptyText(s)
    ensures QuietRuns(s) <==> Runs(s) == s
  {
    RunsKeepMarks(s);
    if QuietRuns(s) {
      assert NeighboursDiffer(s);
      GroupedFormIsUnique(Runs(s), s);
    }
  }

  /** Two equal texts of two tokens: grouped in place, the script spells neither. */
  lemma MergedForgets()
    ensures var s := [Entry("a", Common), Entry("b", Common)];
            Merged(s) == [Entry("ab", Common), Entry("b", Common)] && !QuietRuns(s)
  {
    var (first, second) := (Entry("a", Common), Entry("b", Common));
    var s := [first, second];
    assert s == [first] + [second] && [first] == [] + [first];
    MergedSnoc([first], second);
    MergedSnoc([], first);
    assert Merged([first]) == [first] && LastHead([first]) == 0;
    assert "a" + "b" == "ab";
    assert Extended([first], 0, "b") == [Entry("ab", Common)];
    assert s[1].op == s[0].op;
  }
}
