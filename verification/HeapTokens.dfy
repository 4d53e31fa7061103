/** String objects as the diff handles them: the entries of a script are the very objects of
    the compared arrays, and grouping appends to these objects in place. */
module HeapTokens {
  import opened Collections
  import opened EditScripts
  import opened EditTraces
  import opened InPlaceRuns
  import opened ParagraphPairing

  class Token {
    var s: string

    constructor (s: string)
      ensures this.s == s
    {
      this.s := s;
    }
  }

  type TokenScript = seq<Entry<Token>>

  /** The texts that a list of tokens holds. */
  ghost function Texts(tokens: seq<Token>): (r: seq<string>)
    reads tokens
    ensures |r| == |tokens| && forall i :: 0 <= i < |r| ==> r[i] == tokens[i].s
  {
    if tokens == [] then [] else Texts(tokens[..|tokens| - 1]) + [tokens[|tokens| - 1].s]
  }

  ghost function Objects(u: TokenScript): set<Token> {
    set i | 0 <= i < |u| :: u[i].text
  }

  /** The entries hold the texts and marks of s. */
  ghost predicate Shows(u: TokenScript, s: Script)
    reads Objects(u)
  {
    |u| == |s| && forall i :: 0 <= i < |u| ==> u[i].text.s == s[i].text && u[i].op == s[i].op
  }

  /** No object occurs twice. */
  ghost predicate Distinct(a: seq<Token>, b: seq<Token>) {
    && NoRepeats(a) && NoRepeats(b)
    && (forall i, j :: 0 <= i < |a| && 0 <= j < |b| ==> a[i] != b[j])
  }

  /** What splitting a string yields: a new object for each piece. */
  method NewTokens(texts: seq<string>) returns (tokens: seq<Token>)
    ensures Texts(tokens) == texts && (forall i :: 0 <= i < |tokens| ==> fresh(tokens[i]))
    ensures NoRepeats(tokens)
  {
    tokens := [];
    for i := 0 to |texts|
      invariant |tokens| == i && forall j :: 0 <= j < i ==> tokens[j].s == texts[j] && fresh(tokens[j])
      invariant NoRepeats(tokens)
    {
      var token := new Token(texts[i]);
      tokens := tokens + [token];
    }
  }

  /** The texts and marks of a script of objects. */
  method Spelled(u: TokenScript) returns (s: Script)
    ensures Shows(u, s)
  {
    s := [];
    for i := 0 to |u|
      invariant |s| == i && forall j :: 0 <= j < i ==> u[j].text.s == s[j].text && u[j].op == s[j].op
    {
      s := s + [Entry(u[i].text.s, u[i].op)];
    }
  }

  lemma ShowsOnce(u: TokenScript, s: Script, r: Script)
    requires Shows(u, s) && Shows(u, r)
    ensures s == r
  {
    forall i | 0 <= i < |s| ensures s[i] == r[i] {
      assert s[i].text == u[i].text.s == r[i].text;
    }
  }

  // ---------------------------------------------------------------- scripts of objects and of texts

  lemma {:induction false} SegmentShows(a: seq<Token>, b: seq<Token>, reverse: bool, p: Point, q: Point)
    requires Ascending(a, b, p, q)
    ensures Shows(Segment(a, b, reverse, p, q), Segment(Texts(a), Texts(b), reverse, p, q))
    decreases q.x - p.x + q.y - p.y
  {
    if p != q { SegmentShows(a, b, reverse, StepPoint(p, q), q); }
  }

  /** The script of a path over objects shows the script of the same path over their texts. */
  lemma {:induction false} ScriptShows(a: seq<Token>, b: seq<Token>, reverse: bool, points: seq<Point>)
    requires Staircase(a, b, points) && Staircase(Texts(a), Texts(b), points)
    ensures Shows(EditScript(a, b, reverse, points), EditScript(Texts(a), Texts(b), reverse, points))
  {
    if points != [] {
      var rest := points[1..];
      ScriptShows(a, b, reverse, rest);
      assert Ascending(a, b, Source(rest), points[0]);
      SegmentShows(a, b, reverse, Source(rest), points[0]);
    }
  }

  lemma {:induction false} HeadsShow(u: TokenScript, s: Script)
    requires Shows(u, s)
    ensures Shows(Heads(u), Heads(s))
  {
    hide Heads;
    if u == [] {
      NoHeads<Token>();
      NoHeads<string>();
    } else {
      var (v, t, d, e) := (u[..|u| - 1], s[..|s| - 1], u[|u| - 1], s[|s| - 1]);
      HeadsShow(v, t);
      assert u == v + [d] && s == t + [e];
      HeadsSnoc(v, d);
      HeadsSnoc(t, e);
    }
  }

  lemma {:induction false} RunEndShows(u: TokenScript, s: Script, i: nat, op: Op)
    requires Shows(u, s) && i <= |u|
    ensures RunEnd(u, i, op) == RunEnd(s, i, op)
    decreases |u| - i
  {
    if i < |u| { RunEndShows(u, s, i + 1, op); }
  }

  lemma {:induction false} InterleaveShows(u: TokenScript, v: TokenScript, s: Script, t: Script)
    requires |u| == |v| && Shows(u, s) && Shows(v, t)
    ensures Shows(Interleave(u, v), Interleave(s, t))
  {
    if u != [] {
      InterleaveShows(u[..|u| - 1], v[..|v| - 1], s[..|s| - 1], t[..|t| - 1]);
    }
  }

  lemma ShowsSlice(u: TokenScript, s: Script, i: nat, j: nat)
    requires Shows(u, s) && i <= j <= |u|
    ensures Shows(u[i..j], s[i..j])
  {
  }

  lemma ShowsConcat(u: TokenScript, s: Script, v: TokenScript, t: Script)
    requires Shows(u, s) && Shows(v, t)
    ensures Shows(u + v, s + t)
  {
  }

  lemma PairAroundShows(u: TokenScript, s: Script, i: nat, j: nat, pairs: nat)
    requires Shows(u, s) && i <= j - pairs && j + pairs <= |u|
    ensures Shows(PairAround(u, i, j, pairs), PairAround(s, i, j, pairs))
  {
    ShowsSlice(u, s, i, j - pairs);
    ShowsSlice(u, s, j - pairs, j);
    ShowsSlice(u, s, j, j + pairs);
    InterleaveShows(u[j - pairs..j], u[j..j + pairs], s[j - pairs..j], s[j..j + pairs]);
    assert |u| == |s|;
    hide Shows, Interleave;
    ShowsConcat(u[i..j - pairs], s[i..j - pairs], Interleave(u[j - pairs..j], u[j..j + pairs]),
                Interleave(s[j - pairs..j], s[j..j + pairs]));
  }

  lemma GroupShows(u: TokenScript, s: Script, i: nat)
    requires Shows(u, s) && i < |u|
    ensures GroupEnd(u, i) == GroupEnd(s, i) && Shows(Group(u, i), Group(s, i))
  {
    var op := u[i].op;
    assert |s| == |u| && s[i].op == op;
    hide Shows, Group, GroupEnd, PairAround, RunEnd;
    if op == Common {
      GroupCommon(u, i);
      GroupCommon(s, i);
      ShowsSlice(u, s, i, i + 1);
    } else {
      var j := RunEnd(u, i, op);
      var k := RunEnd(u, j, Opposite(op));
      RunEndShows(u, s, i, op);
      RunEndShows(u, s, j, Opposite(op));
      if k - j > 1 {
        GroupAroundJ(u, i, j, k);
        GroupAroundJ(s, i, j, k);
        GroupEndAroundJ(u, i, j, k);
        GroupEndAroundJ(s, i, j, k);
        PairAroundShows(u, s, i, j, Min(j - i, k - j));
      } else {
        GroupKept(u, i, j, k);
        GroupKept(s, i, j, k);
        ShowsSlice(u, s, i, k);
      }
    }
  }

  lemma {:induction false} PairedFromShows(u: TokenScript, s: Script, i: nat)
    requires Shows(u, s) && i <= |u|
    ensures i <= |s| && Shows(PairedFrom(u, i), PairedFrom(s, i))
    decreases |u| - i
  {
    assert |u| == |s|;
    if i < |u| {
      hide Group, GroupEnd, Shows;
      GroupShows(u, s, i);
      var e := GroupEnd(u, i);
      PairedFromShows(u, s, e);
      ShowsConcat(Group(u, i), Group(s, i), PairedFrom(u, e), PairedFrom(s, e));
    }
  }

  /** Pairing looks at marks only, so it pairs objects as it pairs their texts. */
  lemma PairedShows(u: TokenScript, s: Script)
    requires Shows(u, s)
    ensures Shows(Paired(u), Paired(s))
  {
    PairedFromShows(u, s, 0);
  }

  // ---------------------------------------------------------------- grouping in place

  /** No object occurs twice in a script. */
  ghost predicate Apart(u: TokenScript) {
    forall i, j :: 0 <= i < j < |u| ==> u[i].text != u[j].text
  }

  /** The entries written so far are pairwise distinct objects of a and b, none of them still to be read. */
  ghost predicate Consumed(full: TokenScript, a: seq<Token>, b: seq<Token>, x: int, y: int) {
    && 0 <= x <= |a| && 0 <= y <= |b|
    && Apart(full)
    && (forall i, j :: 0 <= i < |full| && x <= j < |a| ==> full[i].text != a[j])
    && (forall i, j :: 0 <= i < |full| && y <= j < |b| ==> full[i].text != b[j])
    && (forall i :: 0 <= i < |full| ==> full[i].text in a || full[i].text in b)
  }

  /** Every object that is not in the script still holds its original text. */
  ghost predicate Untouched(a: seq<Token>, b: seq<Token>, aText: seq<string>, bText: seq<string>, full: TokenScript)
    reads a, b
  {
    KeepsText(a, aText, Objects(full)) && KeepsText(b, bText, Objects(full))
  }

  ghost predicate KeepsText(tokens: seq<Token>, texts: seq<string>, taken: set<Token>)
    reads tokens
  {
    |texts| == |tokens| && forall i :: 0 <= i < |tokens| && tokens[i] !in taken ==> tokens[i].s == texts[i]
  }

  lemma ShowsSnoc(u: TokenScript, s: Script, token: Token, op: Op)
    requires Shows(u, s)
    ensures Shows(u + [Entry(token, op)], s + [Entry(token.s, op)])
  {
  }

  /** Appending to one object changes the text of its entry only. */
  method Append(head: Token, text: string, ghost full: TokenScript, ghost s: Script, ghost h: nat)
    requires Shows(full, s) && h < |full| && full[h].text == head
    requires Apart(full)
    modifies head
    ensures Shows(full, Extended(s, h, text)) && head.s == old(head.s) + text
  {
    assert forall i :: 0 <= i < |full| && i != h ==> full[i].text != head;
    head.s := head.s + text;
  }

  /** Adds one object to the grouped script `ses`: appended in place to the last run when the marks agree.
      `full` lists all objects taken so far, `done` the texts they had. */
  method Push(ses: TokenScript, ghost full: TokenScript, ghost done: Script, token: Token, op: Op)
    returns (ses': TokenScript)
    requires ses == Heads(full) && Shows(full, Merged(done)) && token !in Objects(full)
    requires Apart(full)
    modifies Objects(full)
    ensures ses' == Heads(full + [Entry(token, op)])
    ensures Shows(full + [Entry(token, op)], Merged(done + [Entry(old(token.s), op)]))
  {
    HeadsSnoc(full, Entry(token, op));
    MergedSnoc(done, Entry(token.s, op));
    assert Joins(full, op) <==> Joins(done, op);
    ghost var h := 0;
    if full != [] {
      h := LastHead(full);
      LastHeadIsLast(full);
      LastHeadByMarks(full, done);
      assert full[h].text in Objects(full);
    }
    assert |ses| > 0 ==> full != [] && ses[|ses| - 1] == full[h] && full[h].op == full[|full| - 1].op;
    ghost var m := Merged(done);
    hide Heads, LastHead, Merged, Objects, Shows, Extended;
    if |ses| > 0 && ses[|ses| - 1].op == op {
      Append(ses[|ses| - 1].text, token.s, full, m, h);
      ses' := ses;
      ShowsSnoc(full, Extended(m, h, token.s), token, op);
    } else {
      ses' := ses + [Entry(token, op)];
      ShowsSnoc(full, m, token, op);
    }
  }

  lemma NothingTaken(a: seq<Token>, b: seq<Token>)
    ensures Untouched(a, b, Texts(a), Texts(b), []) && Consumed([], a, b, 0, 0)
    ensures [] == Heads<Token>([]) && Shows([], Merged([]))
  {
  }

  /** Taking the next object of a or of b into the script keeps all objects that are read later apart from it. */
  method Take(ses: TokenScript, ghost full: TokenScript, ghost done: Script, a: seq<Token>, b: seq<Token>,
              ghost aText: seq<string>, ghost bText: seq<string>, ghost x: int, ghost y: int,
              ghost x': int, ghost y': int, token: Token, ghost text: string, op: Op)
    returns (ses': TokenScript)
    requires Distinct(a, b) && Untouched(a, b, aText, bText, full) && Consumed(full, a, b, x, y)
    requires ses == Heads(full) && Shows(full, Merged(done))
    requires x <= x' <= |a| && y <= y' <= |b|
    requires (x < x' && token == a[x] && text == aText[x]) || (y < y' && token == b[y] && text == bText[y])
    modifies a, b
    ensures ses' == Heads(full + [Entry(token, op)])
    ensures Shows(full + [Entry(token, op)], Merged(done + [Entry(text, op)]))
    ensures Untouched(a, b, aText, bText, full + [Entry(token, op)])
    ensures Consumed(full + [Entry(token, op)], a, b, x', y')
  {
    NextIsNew(full, a, b, aText, bText, x, y, x', y', token, text);
    ConsumedNext(full, a, b, x, y, x', y', token, op);
    assert Apart(full);
    hide Distinct, Heads, Merged, Shows, Objects, Consumed, Apart, Untouched;
    ses' := PushKeeping(ses, full, done, a, b, aText, bText, token, op);
  }

  /** Pushing changes objects of the script only. */
  method PushKeeping(ses: TokenScript, ghost full: TokenScript, ghost done: Script, a: seq<Token>, b: seq<Token>,
                     ghost aText: seq<string>, ghost bText: seq<string>, token: Token, op: Op)
    returns (ses': TokenScript)
    requires ses == Heads(full) && Shows(full, Merged(done)) && token !in Objects(full) && Apart(full)
    requires Untouched(a, b, aText, bText, full) && forall t :: t in Objects(full) ==> t in a || t in b
    modifies a, b
    ensures ses' == Heads(full + [Entry(token, op)])
    ensures Shows(full + [Entry(token, op)], Merged(done + [Entry(old(token.s), op)]))
    ensures Untouched(a, b, aText, bText, full + [Entry(token, op)])
  {
    ObjectsSnoc(full, Entry(token, op));
    ghost var taken := Objects(full);
    hide Heads, Merged, Shows, Objects, Apart;
    ses' := Push(ses, full, done, token, op);
    assert KeepsText(a, aText, taken) && KeepsText(b, bText, taken);
    assert Objects(full + [Entry(token, op)]) == taken + {token};
  }

  /** The texts that s gives to the objects of u are those they had in a and b. */
  ghost predicate Aligned(a: seq<Token>, b: seq<Token>, aText: seq<string>, bText: seq<string>, u: TokenScript,
                          s: Script)
  {
    && |u| == |s| && |aText| == |a| && |bText| == |b|
    && (forall i :: 0 <= i < |s| ==> u[i].op == s[i].op)
    && (forall i, k :: 0 <= i < |u| && 0 <= k < |a| && u[i].text == a[k] ==> s[i].text == aText[k])
    && (forall i, k :: 0 <= i < |u| && 0 <= k < |b| && u[i].text == b[k] ==> s[i].text == bText[k])
  }

  lemma ShownTexts(a: seq<Token>, b: seq<Token>, u: TokenScript, s: Script)
    requires Shows(u, s)
    ensures Aligned(a, b, Texts(a), Texts(b), u, s)
  {
  }

  /** After grouping in place only the objects that start a run hold another text than before. */
  lemma OnlyHeadsChange(a: seq<Token>, b: seq<Token>, aText: seq<string>, bText: seq<string>, u: TokenScript, s: Script)
    requires Aligned(a, b, aText, bText, u, s) && Shows(u, Merged(s)) && Untouched(a, b, aText, bText, u)
    ensures Untouched(a, b, aText, bText, Heads(u))
  {
    hide Heads, Merged, Shows;
    forall k | 0 <= k < |a| && a[k] !in Objects(Heads(u)) ensures a[k].s == aText[k] {
      if a[k] in Objects(u) {
        var i :| 0 <= i < |u| && u[i].text == a[k];
        EntryKeeps(u, s, i);
      }
    }
    forall k | 0 <= k < |b| && b[k] !in Objects(Heads(u)) ensures b[k].s == bText[k] {
      if b[k] in Objects(u) {
        var i :| 0 <= i < |u| && u[i].text == b[k];
        EntryKeeps(u, s, i);
      }
    }
  }

  lemma EntryKeeps(u: TokenScript, s: Script, i: nat)
    requires |u| == |s| && Shows(u, Merged(s)) && i < |u| && u[i].text !in Objects(Heads(u))
    ensures u[i].text.s == s[i].text
  {
    assert forall k :: 0 <= k < |s| ==> u[k].op == s[k].op;
    hide Merged, Heads, Objects;
    MergedOrHead(u, s, i);
    if u[i] in Heads(u) { EntryObject(Heads(u), u[i]); }
  }

  lemma EntryObject(u: TokenScript, e: Entry<Token>)
    requires e in u
    ensures e.text in Objects(u)
  {
    var k :| 0 <= k < |u| && u[k] == e;
    assert u[k].text == e.text;
  }

  lemma NextIsNew(full: TokenScript, a: seq<Token>, b: seq<Token>, aText: seq<string>, bText: seq<string>,
                  x: int, y: int, x': int, y': int, token: Token, text: string)
    requires Untouched(a, b, aText, bText, full) && Consumed(full, a, b, x, y) && x <= x' <= |a| && y <= y' <= |b|
    requires (x < x' && token == a[x] && text == aText[x]) || (y < y' && token == b[y] && text == bText[y])
    ensures token !in Objects(full) && token.s == text
    ensures forall t :: t in Objects(full) ==> t in a || t in b
  {
  }

  lemma ObjectsSnoc(u: TokenScript, e: Entry<Token>)
    ensures Objects(u + [e]) == Objects(u) + {e.text}
  {
    var r := u + [e];
    assert forall i :: 0 <= i < |u| ==> r[i] == u[i];
    assert r[|u|] == e;
    forall t | t in Objects(u) + {e.text} ensures t in Objects(r) {
      if t in Objects(u) {
        var i :| 0 <= i < |u| && u[i].text == t;
        assert r[i].text == t;
      }
    }
  }

  lemma ConsumedNext(full: TokenScript, a: seq<Token>, b: seq<Token>, x: int, y: int, x': int, y': int,
                     token: Token, op: Op)
    requires Distinct(a, b) && Consumed(full, a, b, x, y) && x <= x' <= |a| && y <= y' <= |b|
    requires (x < x' && token == a[x]) || (y < y' && token == b[y])
    ensures Consumed(full + [Entry(token, op)], a, b, x', y')
  {
  }
}
