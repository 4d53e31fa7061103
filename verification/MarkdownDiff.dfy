/** The side-by-side Markdown diff: a line diff of the escaped texts whose changed
    neighbours are compared again word by word. */
module MarkdownDiff {
  import opened Options
  import LcsGrid
  import EditTraces
  import opened EditScripts
  import opened OnpDiff
  import opened Tokenizers

  const MAX_DIFFERENCE := 200

  function EscapeChar(c: char): string {
    match c
    case '&' => "&amp;"
    case '<' => "&lt;"
    case '>' => "&gt;"
    case '"' => "&quot;"
    case '\'' => "&#39;"
    case _ => [c]
  }

  function EscapeHtml(text: string): string {
    if text == "" then "" else EscapeChar(text[0]) + EscapeHtml(text[1..])
  }

  /** Part of a table cell: plain text, or text wrapped in a del or ins element. */
  datatype Piece = Plain(text: string) | Del(text: string) | Ins(text: string)
  type Cell = seq<Piece>

  /** One table row; a cell is empty when its side has no such line. */
  datatype Row = Row(left: Cell, right: Cell)

  function CellText(cell: Cell): string {
    if cell == [] then "" else CellText(cell[..|cell| - 1]) + cell[|cell| - 1].text
  }

  /** The text of the left column with its marks ignored. */
  function LeftText(rows: seq<Row>): string {
    if rows == [] then "" else LeftText(rows[..|rows| - 1]) + CellText(rows[|rows| - 1].left)
  }

  function RightText(rows: seq<Row>): string {
    if rows == [] then "" else RightText(rows[..|rows| - 1]) + CellText(rows[|rows| - 1].right)
  }

  /** The pieces a script shows on one side: `mark` wraps what only that side has. */
  function SidePieces(s: Script, dropped: Op): Cell
    requires dropped != Common
  {
    if s == [] then []
    else
      var e := s[|s| - 1];
      SidePieces(s[..|s| - 1], dropped)
      + (if e.op == dropped then [] else if e.op == Common then [Plain(e.text)]
         else if e.op == Delete then [Del(e.text)] else [Ins(e.text)])
  }

  lemma {:induction false} SidePiecesText(s: Script, dropped: Op)
    requires dropped != Common
    ensures CellText(SidePieces(s, dropped)) == Text(s, dropped)
  {
    if s != [] {
      var t, e := s[..|s| - 1], s[|s| - 1];
      SidePiecesText(t, dropped);
      assert s == t + [e];
      TextSnoc(t, e, dropped);
      var c := SidePieces(t, dropped);
      if e.op == dropped {
        assert SidePieces(s, dropped) == c;
      } else {
        var piece := if e.op == Common then Plain(e.text) else if e.op == Delete then Del(e.text) else Ins(e.text);
        assert SidePieces(s, dropped) == c + [piece] && (c + [piece])[..|c|] == c;
      }
    }
  }

  /** A piece shows an entry: plain when it is common, in a del element when deleted, in an ins element when added. */
  predicate Marks(piece: Piece, e: Entry<string>) {
    && piece.text == e.text
    && (piece.Plain? <==> e.op == Common) && (piece.Del? <==> e.op == Delete) && (piece.Ins? <==> e.op == Add)
  }

  /** The cell shows, piece by piece, the entries that are not `dropped`. */
  ghost predicate MarksSide(cell: Cell, s: Script, dropped: Op) {
    && |cell| == |Kept(s, dropped)|
    && forall k :: 0 <= k < |cell| ==> Marks(cell[k], Kept(s, dropped)[k])
  }

  lemma {:induction false} SidePiecesMark(s: Script, dropped: Op)
    requires dropped != Common
    ensures MarksSide(SidePieces(s, dropped), s, dropped)
  {
    if s != [] {
      SidePiecesMark(s[..|s| - 1], dropped);
    }
  }

  /** The texts that carry a mark, in order. */
  function TextsMarked(s: Script, op: Op): seq<string> {
    if s == [] then []
    else TextsMarked(s[..|s| - 1], op) + (if s[|s| - 1].op == op then [s[|s| - 1].text] else [])
  }

  function PlainTexts(cell: Cell): seq<string> {
    if cell == [] then []
    else PlainTexts(cell[..|cell| - 1]) + (if cell[|cell| - 1].Plain? then [cell[|cell| - 1].text] else [])
  }

  function DelTexts(cell: Cell): seq<string> {
    if cell == [] then []
    else DelTexts(cell[..|cell| - 1]) + (if cell[|cell| - 1].Del? then [cell[|cell| - 1].text] else [])
  }

  function InsTexts(cell: Cell): seq<string> {
    if cell == [] then []
    else InsTexts(cell[..|cell| - 1]) + (if cell[|cell| - 1].Ins? then [cell[|cell| - 1].text] else [])
  }

  lemma {:induction false} SideByKind(cell: Cell, s: Script, dropped: Op)
    requires dropped != Common && MarksSide(cell, s, dropped)
    ensures PlainTexts(cell) == TextsMarked(s, Common)
    ensures DelTexts(cell) == if dropped == Delete then [] else TextsMarked(s, Delete)
    ensures InsTexts(cell) == if dropped == Add then [] else TextsMarked(s, Add)
    decreases |s|
  {
    if s != [] {
      var (t, e) := (s[..|s| - 1], s[|s| - 1]);
      if e.op == dropped {
        SideByKind(cell, t, dropped);
      } else {
        var init := cell[..|cell| - 1];
        assert Kept(s, dropped) == Kept(t, dropped) + [e];
        assert Marks(cell[|cell| - 1], Kept(s, dropped)[|cell| - 1]);
        assert forall k :: 0 <= k < |init| ==> Marks(init[k], Kept(s, dropped)[k]);
        SideByKind(init, t, dropped);
      }
    }
  }

  /** Both cells carry the common texts, the left one also the deletions and the right one the additions. */
  ghost predicate RowMarks(row: Row, s: Script) {
    && MarksSide(row.left, s, Add) && MarksSide(row.right, s, Delete)
    && PlainTexts(row.left) == TextsMarked(s, Common) == PlainTexts(row.right)
    && DelTexts(row.left) == TextsMarked(s, Delete) && InsTexts(row.left) == []
    && InsTexts(row.right) == TextsMarked(s, Add) && DelTexts(row.right) == []
  }

  /** Distributes a script over the two sides. */
  method GenerateSideBySide(diff: Script) returns (deleted: Cell, inserted: Cell)
    ensures deleted == SidePieces(diff, Add) && inserted == SidePieces(diff, Delete)
    ensures RowMarks(Row(deleted, inserted), diff)
  {
    hide RowMarks;
    deleted, inserted := [], [];
    for i := 0 to |diff|
      invariant deleted == SidePieces(diff[..i], Add) && inserted == SidePieces(diff[..i], Delete)
    {
      assert diff[..i + 1][..i] == diff[..i];
      match diff[i].op {
        case Common =>
          deleted := deleted + [Plain(diff[i].text)];
          inserted := inserted + [Plain(diff[i].text)];
        case Delete =>
          deleted := deleted + [Del(diff[i].text)];
        case Add =>
          inserted := inserted + [Ins(diff[i].text)];
      }
    }
    assert diff[..|diff|] == diff;
    RowIsMarked(diff);
  }

  lemma RowIsMarked(s: Script)
    ensures RowMarks(Row(SidePieces(s, Add), SidePieces(s, Delete)), s)
  {
    SidePiecesMark(s, Add);
    SidePiecesMark(s, Delete);
    SideByKind(SidePieces(s, Add), s, Add);
    SideByKind(SidePieces(s, Delete), s, Delete);
  }

  /** The words, or the lines when the two word counts are too far apart. */
  function InnerTokens(first: string, second: string): (seq<string>, seq<string>) {
    var (b, a) := (WordsFrom(first, 0), WordsFrom(second, 0));
    var difference := if |b| < |a| then |a| - |b| else |b| - |a|;
    if difference > MAX_DIFFERENCE then (TokenizeLine(first), TokenizeLine(second)) else (b, a)
  }

  predicate InnerGivesUp(first: string, second: string) {
    var (b, a) := InnerTokens(first, second);
    GivesUp(b, a)
  }

  lemma InnerTokensRejoin(first: string, second: string)
    requires StartsInLine(first) && StartsInLine(second)
    ensures var (b, a) := InnerTokens(first, second); Join(b) == first && Join(a) == second
  {
    LineTokensRejoin(first);
    LineTokensRejoin(second);
    AllWords(first);
    AllWords(second);
  }

  /** Entry i and the next one carry opposite marks and are shown in one row. */
  predicate PairAt(lines: Script, i: nat)
    requires i < |lines|
  {
    i + 1 < |lines| && lines[i].op != Common && lines[i + 1].op == (if lines[i].op == Delete then Add else Delete)
  }

  /** Which of the two entries at i and i + 1 is the deletion and which the addition. */
  function DeletedThenAdded(lines: Script, i: nat): (nat, nat)
    requires i < |lines|
  {
    if lines[i].op == Delete then (i, i + 1) else (i + 1, i)
  }

  /** No paired row from i on needs an inner comparison that gives up. */
  predicate InnerFinish(lines: Script, i: nat)
    requires i <= |lines|
    decreases |lines| - i
  {
    if i == |lines| then true
    else if PairAt(lines, i) then
      var (first, second) := DeletedThenAdded(lines, i);
      !InnerGivesUp(lines[first].text, lines[second].text) && InnerFinish(lines, i + 2)
    else InnerFinish(lines, i + 1)
  }

  predicate AllStartInLine(s: Script) {
    forall i :: 0 <= i < |s| ==> StartsInLine(s[i].text)
  }

  lemma {:induction false} RunsStartInLine(s: Script)
    requires AllStartInLine(s)
    ensures AllStartInLine(Runs(s))
  {
    if s != [] {
      RunsStartInLine(s[..|s| - 1]);
    }
  }

  /** Every entry's text is a text of one of the two sides. */
  lemma {:induction false} EntriesComeFromSides(s: Script, i: nat)
    requires i < |s|
    ensures s[i].text in Before(s) || s[i].text in After(s)
  {
    if i == |s| - 1 {
      assert s[i].op != Add ==> Before(s)[|Before(s)| - 1] == s[i].text;
      assert s[i].op == Add ==> After(s)[|After(s)| - 1] == s[i].text;
    } else {
      EntriesComeFromSides(s[..|s| - 1], i);
      assert s[..|s| - 1][i] == s[i];
    }
  }

  /** Comparing two token lists and grouping: both sides rejoin, unless the comparison gives up. */
  method CompareTokens(before: seq<string>, after: seq<string>) returns (r: Script)
    ensures GivesUp(before, after) ==> r == []
    ensures !GivesUp(before, after) ==>
              && Text(r, Add) == Join(before) && Text(r, Delete) == Join(after)
              && NeighboursDiffer(r)
              && exists s :: Shortest(s, before, after) && r == Runs(s)
  {
    r := ShortDiffOf(before, after);
    if !GivesUp(before, after) {
      ghost var s: Script :| Shortest(s, before, after) && r == Runs(s);
      RunsKeepText(s, Add);
      RunsKeepText(s, Delete);
      RunsKeepMarks(s);
    }
  }

  /** The row marks a shortest script between the inner tokens, deletions left and additions right. */
  ghost predicate MarksShortest(row: Row, first: string, second: string) {
    exists s: Script ::
      && Shortest(s, InnerTokens(first, second).0, InnerTokens(first, second).1)
      && RowMarks(row, Runs(s))
  }

  /** The cells of one pair of changed lines. */
  method CompareLines(first: string, second: string) returns (row: Row)
    requires StartsInLine(first) && StartsInLine(second)
    ensures !InnerGivesUp(first, second) ==> CellText(row.left) == first && CellText(row.right) == second
    ensures !InnerGivesUp(first, second) ==> MarksShortest(row, first, second)
    ensures InnerGivesUp(first, second) ==> row == Row([], [])
  {
    var beforeTokens := TokenizeMarkdown(first);
    var afterTokens := TokenizeMarkdown(second);
    var difference := if |beforeTokens| < |afterTokens| then |afterTokens| - |beforeTokens|
                      else |beforeTokens| - |afterTokens|;
    if difference > MAX_DIFFERENCE {
      beforeTokens, afterTokens := TokenizeLine(first), TokenizeLine(second);
    }
    assert (beforeTokens, afterTokens) == InnerTokens(first, second);
    InnerTokensRejoin(first, second);
    var diff := CompareTokens(beforeTokens, afterTokens);
    var deleted, inserted := GenerateSideBySide(diff);
    SidePiecesText(diff, Add);
    SidePiecesText(diff, Delete);
    row := Row(deleted, inserted);
  }

  lemma {:induction false} SymbolsAreTokens(text: string, i: nat)
    requires i <= |text| && forall k :: 0 <= k < |text| ==> !IsWord(text[k])
    ensures |WordsFrom(text, i)| == |text| - i
    ensures forall k :: 0 <= k < |text| - i ==> WordsFrom(text, i)[k] == [text[i + k]]
    decreases |text| - i
  {
    if i < |text| {
      SymbolsAreTokens(text, i + 1);
      assert !IsWord(text[i]);
      var (all, rest) := (WordsFrom(text, i), WordsFrom(text, i + 1));
      assert all == [[text[i]]] + rest;
      hide WordsFrom, IsWord;
      forall k | 0 <= k < |text| - i ensures all[k] == [text[i + k]] {
        if k > 0 { assert all[k] == rest[k - 1]; }
      }
    }
  }

  /** Lines of symbols are compared character by character while their lengths differ by at most 200, else
      as whole lines. */
  lemma SymbolsFarApart(first: string, second: string)
    requires OneLine(first) && OneLine(second)
    requires forall k :: 0 <= k < |first| ==> !IsWord(first[k])
    requires forall k :: 0 <= k < |second| ==> !IsWord(second[k])
    ensures var (b, a) := InnerTokens(first, second);
            if |first| - |second| <= 200 && |second| - |first| <= 200
            then |b| == |first| && |a| == |second| else b == [first] && a == [second]
  {
    SymbolsAreTokens(first, 0);
    SymbolsAreTokens(second, 0);
    OneLineIsOneToken(first);
    OneLineIsOneToken(second);
  }

  /** A line of a thousand exclamation marks against one of a thousand question marks: both cells are empty. */
  lemma SymbolsGiveUp()
    ensures var (first, second) := (seq(MAX_ROUNDS, _ => '!'), seq(MAX_ROUNDS, _ => '?'));
            InnerGivesUp(first, second) && StartsInLine(first) && StartsInLine(second)
  {
    var (first, second) := (seq(MAX_ROUNDS, _ => '!'), seq(MAX_ROUNDS, _ => '?'));
    SymbolsAreTokens(first, 0);
    SymbolsAreTokens(second, 0);
    var (b, a) := (WordsFrom(first, 0), WordsFrom(second, 0));
    assert InnerTokens(first, second) == (b, a);
    forall i, j | 0 <= i < |b| && 0 <= j < |a| ensures b[i] != a[j] {
      assert b[i] == [first[i]] == "!" && a[j] == [second[j]] == "?";
    }
    RewriteGivesUp(b, a);
  }

  lemma RowSnoc(rows: seq<Row>, row: Row)
    ensures LeftText(rows + [row]) == LeftText(rows) + CellText(row.left)
    ensures RightText(rows + [row]) == RightText(rows) + CellText(row.right)
  {
    assert (rows + [row])[..|rows|] == rows;
  }

  lemma PrefixSnoc(lines: Script, i: nat, dropped: Op)
    requires i < |lines|
    ensures Text(lines[..i + 1], dropped)
         == Text(lines[..i], dropped) + (if lines[i].op == dropped then "" else lines[i].text)
  {
    assert lines[..i + 1] == lines[..i] + [lines[i]];
    TextSnoc(lines[..i], lines[i], dropped);
  }

  /** What the rows show of the first i lines: all of them, or strictly less once an inner comparison gave up. */
  ghost predicate Shown(rows: seq<Row>, lines: Script, i: nat, complete: bool)
    requires i <= |lines|
  {
    var (left, right) := (Text(lines[..i], Add), Text(lines[..i], Delete));
    if complete then LeftText(rows) == left && RightText(rows) == right
    else |LeftText(rows)| < |left| && |RightText(rows)| < |right|
  }

  lemma EmptyCell()
    ensures CellText([]) == ""
  {
  }

  lemma PlainCell(text: string)
    ensures CellText([Plain(text)]) == text
  {
    assert [Plain(text)][..0] == [];
  }

  lemma ShownSingle(rows: seq<Row>, lines: Script, i: nat, complete: bool, row: Row)
    requires i < |lines| && Shown(rows, lines, i, complete)
    requires CellText(row.left) == if lines[i].op == Add then "" else lines[i].text
    requires CellText(row.right) == if lines[i].op == Delete then "" else lines[i].text
    ensures Shown(rows + [row], lines, i + 1, complete)
  {
    hide Text, LeftText, RightText, CellText;
    RowSnoc(rows, row);
    PrefixSnoc(lines, i, Add);
    PrefixSnoc(lines, i, Delete);
  }

  lemma ShownPair(rows: seq<Row>, lines: Script, i: nat, complete: bool, row: Row, first: nat, second: nat,
                  gaveUp: bool)
    requires i < |lines| && PairAt(lines, i) && Shown(rows, lines, i, complete)
    requires (first, second) == DeletedThenAdded(lines, i)
    requires lines[first].text != "" && lines[second].text != ""
    requires !gaveUp ==> CellText(row.left) == lines[first].text && CellText(row.right) == lines[second].text
    requires gaveUp ==> row == Row([], [])
    ensures Shown(rows + [row], lines, i + 2, complete && !gaveUp)
  {
    RowSnoc(rows, row);
    PrefixPair(lines, i, first, second);
    EmptyCell();
    hide Text, LeftText, RightText, CellText;
  }

  lemma PrefixPair(lines: Script, i: nat, first: nat, second: nat)
    requires i < |lines| && PairAt(lines, i)
    requires (first, second) == DeletedThenAdded(lines, i)
    ensures Text(lines[..i + 2], Add) == Text(lines[..i], Add) + lines[first].text
    ensures Text(lines[..i + 2], Delete) == Text(lines[..i], Delete) + lines[second].text
  {
    PrefixSnoc(lines, i, Add);
    PrefixSnoc(lines, i + 1, Add);
    PrefixSnoc(lines, i, Delete);
    PrefixSnoc(lines, i + 1, Delete);
    hide Text;
  }

  /** What the row for the entry at i shows and marks. */
  ghost predicate RowRenders(row: Row, lines: Script, i: nat)
    requires i < |lines|
  {
    if PairAt(lines, i) then
      var (first, second) := DeletedThenAdded(lines, i);
      if InnerGivesUp(lines[first].text, lines[second].text) then row == Row([], [])
      else MarksShortest(row, lines[first].text, lines[second].text)
    else
      row == Row(if lines[i].op == Add then [] else [Plain(lines[i].text)],
                 if lines[i].op == Delete then [] else [Plain(lines[i].text)])
  }

  /** The entries of the line diff from i on at which a row begins. */
  function RowStarts(lines: Script, i: nat): (r: seq<nat>)
    requires i <= |lines|
    ensures forall k :: 0 <= k < |r| ==> r[k] < |lines|
    decreases |lines| - i
  {
    if i == |lines| then [] else [i] + RowStarts(lines, if PairAt(lines, i) then i + 2 else i + 1)
  }

  /** A deletion and an addition stand at i and i + 1, in one order or the other. */
  predicate OppositeAt(lines: Script, i: nat) {
    && i + 1 < |lines|
    && ((lines[i].op == Delete && lines[i + 1].op == Add) || (lines[i].op == Add && lines[i + 1].op == Delete))
  }

  /** Rows begin at these entries: from the first to the end, each row takes two opposite entries or one entry. */
  ghost predicate AreRows(lines: Script, i: nat, starts: seq<nat>)
    decreases |starts|
  {
    if starts == [] then i == |lines|
    else starts[0] == i < |lines| && AreRows(lines, if OppositeAt(lines, i) then i + 2 else i + 1, starts[1..])
  }

  lemma {:induction false} RowStartsAreRows(lines: Script, i: nat)
    requires i <= |lines|
    ensures AreRows(lines, i, RowStarts(lines, i))
    decreases |lines| - i
  {
    if i < |lines| { RowStartsAreRows(lines, if PairAt(lines, i) then i + 2 else i + 1); }
  }

  /** One row for each start, in order. */
  ghost predicate RowsRender(rows: seq<Row>, lines: Script, starts: seq<nat>)
    requires forall k :: 0 <= k < |starts| ==> starts[k] < |lines|
  {
    |rows| == |starts| && forall k :: 0 <= k < |rows| ==> RowRenders(rows[k], lines, starts[k])
  }

  /** The row for the entry at i, together with its opposite neighbour when there is one. */
  method RowAt(lines: Script, i: nat, ghost rows: seq<Row>, ghost complete: bool)
    returns (row: Row, next: nat, ghost finished: bool)
    requires i < |lines| && AllStartInLine(lines) && Shown(rows, lines, i, complete)
    ensures next == (if PairAt(lines, i) then i + 2 else i + 1) && next <= |lines|
    ensures RowRenders(row, lines, i)
    ensures InnerFinish(lines, i) == (finished && InnerFinish(lines, next))
    ensures Shown(rows + [row], lines, next, complete && finished)
  {
    hide Shown, CellText, InnerGivesUp, MarksShortest;
    EmptyCell();
    PlainCell(lines[i].text);
    if PairAt(lines, i) {
      var first := if lines[i].op == Delete then i else i + 1;
      var second := if lines[i].op == Delete then i + 1 else i;
      row := CompareLines(lines[first].text, lines[second].text);
      finished := !InnerGivesUp(lines[first].text, lines[second].text);
      ShownPair(rows, lines, i, complete, row, first, second, !finished);
      next := i + 2;
    } else {
      row := Row(if lines[i].op == Add then [] else [Plain(lines[i].text)],
                 if lines[i].op == Delete then [] else [Plain(lines[i].text)]);
      ShownSingle(rows, lines, i, complete, row);
      finished, next := true, i + 1;
    }
  }

  /** The loop of the side-by-side view: rows for the first i entries. */
  ghost predicate Progress(rows: seq<Row>, lines: Script, i: nat, complete: bool, starts: seq<nat>) {
    && i <= |lines|
    && Shown(rows, lines, i, complete)
    && InnerFinish(lines, 0) == (complete && InnerFinish(lines, i))
    && (forall k :: 0 <= k < |starts| ==> starts[k] < |lines|)
    && starts + RowStarts(lines, i) == RowStarts(lines, 0)
    && RowsRender(rows, lines, starts)
  }

  lemma ProgressAtStart(lines: Script)
    ensures Progress([], lines, 0, true, [])
  {
    assert lines[..0] == [] && [] + RowStarts(lines, 0) == RowStarts(lines, 0);
  }

  lemma RenderSnoc(rows: seq<Row>, lines: Script, starts: seq<nat>, row: Row, i: nat)
    requires forall k :: 0 <= k < |starts| ==> starts[k] < |lines|
    requires i < |lines| && RowsRender(rows, lines, starts) && RowRenders(row, lines, i)
    ensures RowsRender(rows + [row], lines, starts + [i])
  {
    hide RowRenders;
  }

  lemma StartsSnoc(lines: Script, starts: seq<nat>, i: nat, next: nat)
    requires i < |lines| && next == (if PairAt(lines, i) then i + 2 else i + 1) && next <= |lines|
    ensures starts + RowStarts(lines, i) == (starts + [i]) + RowStarts(lines, next)
  {
    assert RowStarts(lines, i) == [i] + RowStarts(lines, next);
  }

  lemma ProgressStep(rows: seq<Row>, lines: Script, i: nat, complete: bool, starts: seq<nat>, row: Row, next: nat,
                     finished: bool)
    requires i < |lines| && Progress(rows, lines, i, complete, starts)
    requires next == (if PairAt(lines, i) then i + 2 else i + 1) && next <= |lines|
    requires RowRenders(row, lines, i) && InnerFinish(lines, i) == (finished && InnerFinish(lines, next))
    requires Shown(rows + [row], lines, next, complete && finished)
    ensures Progress(rows + [row], lines, next, complete && finished, starts + [i])
  {
    hide Shown, InnerFinish, RowRenders, RowStarts, PairAt, RowsRender;
    RenderSnoc(rows, lines, starts, row, i);
    StartsSnoc(lines, starts, i, next);
  }

  lemma ProgressShows(rows: seq<Row>, lines: Script, i: nat, complete: bool, starts: seq<nat>)
    requires Progress(rows, lines, i, complete, starts)
    ensures i <= |lines| && Shown(rows, lines, i, complete)
  {
  }

  lemma ProgressAtEnd(rows: seq<Row>, lines: Script, complete: bool, starts: seq<nat>)
    requires Progress(rows, lines, |lines|, complete, starts)
    ensures RowsRender(rows, lines, RowStarts(lines, 0)) && Shown(rows, lines, |lines|, InnerFinish(lines, 0))
  {
    assert RowStarts(lines, |lines|) == [] && starts + [] == starts;
    hide Shown, RowsRender;
  }

  class DiscourseDiff {
    const before: string
    const after: string
    var lineByLineDiff: Option<Script>

    /** The line diff, once computed, groups a shortest script over the lines of the escaped texts. */
    ghost predicate Valid()
      reads this
    {
      lineByLineDiff.Some? ==> LineDiff(lineByLineDiff.value)
    }

    ghost predicate LineDiff(lines: Script) {
      var (b, a) := (TokenizeLine(EscapeHtml(before)), TokenizeLine(EscapeHtml(after)));
      && AllStartInLine(lines)
      && (GivesUp(b, a) ==> lines == [])
      && (!GivesUp(b, a) ==> Text(lines, Add) == Join(b) && Text(lines, Delete) == Join(a))
      && (!GivesUp(b, a) ==> exists s: Script :: Shortest(s, b, a) && lines == Runs(s))
    }

    constructor (before: string, after: string)
      ensures this.before == before && this.after == after && Valid() && lineByLineDiff.None?
    {
      this.before, this.after := before, after;
      lineByLineDiff := None;
    }

    method LineByLineDiff() returns (lines: Script)
      requires Valid()
      modifies this`lineByLineDiff
      ensures Valid() && lineByLineDiff == Some(lines) && LineDiff(lines)
      ensures old(lineByLineDiff).Some? ==> lineByLineDiff == old(lineByLineDiff)
    {
      if lineByLineDiff.None? {
        var b := TokenizeLine(EscapeHtml(before));
        var a := TokenizeLine(EscapeHtml(after));
        LineTokensRejoin(EscapeHtml(before));
        LineTokensRejoin(EscapeHtml(after));
        lines := CompareTokens(b, a);
        if !GivesUp(b, a) {
          ghost var s: Script :| Shortest(s, b, a) && lines == Runs(s);
          forall i | 0 <= i < |s| ensures StartsInLine(s[i].text) {
            EntriesComeFromSides(s, i);
          }
          RunsStartInLine(s);
        }
        lineByLineDiff := Some(lines);
      }
      lines := lineByLineDiff.value;
    }

    /** The rows of the table. Their columns show both line sides completely exactly when no inner comparison
        gives up. */
    method SideBySideRows() returns (rows: seq<Row>)
      requires Valid()
      modifies this`lineByLineDiff
      ensures Valid() && lineByLineDiff.Some?
      ensures RowsRender(rows, lineByLineDiff.value, RowStarts(lineByLineDiff.value, 0))
      ensures AreRows(lineByLineDiff.value, 0, RowStarts(lineByLineDiff.value, 0))
      ensures Shown(rows, lineByLineDiff.value, |lineByLineDiff.value|, InnerFinish(lineByLineDiff.value, 0))
    {
      hide LineDiff, Shown, InnerFinish, RowsRender, RowRenders, RowStarts, PairAt, AllStartInLine, Progress,
        AreRows;
      var lines := LineByLineDiff();
      LinesStartInLine(lines);
      rows := [];
      var i := 0;
      ghost var complete := true;
      ghost var starts: seq<nat> := [];
      ProgressAtStart(lines);
      while i < |lines|
        invariant 0 <= i <= |lines| && AllStartInLine(lines) && Valid() && lineByLineDiff == Some(lines)
        invariant Progress(rows, lines, i, complete, starts)
      {
        ghost var (finished, start) := (true, i);
        var row;
        ProgressShows(rows, lines, i, complete, starts);
        row, i, finished := RowAt(lines, i, rows, complete);
        ProgressStep(rows, lines, start, complete, starts, row, i, finished);
        rows := rows + [row];
        complete := complete && finished;
        starts := starts + [start];
      }
      ProgressAtEnd(rows, lines, complete, starts);
      RowStartsAreRows(lines, 0);
    }

    lemma LinesStartInLine(lines: Script)
      requires LineDiff(lines)
      ensures AllStartInLine(lines)
    {
    }

    /** Two different single lines are shown completely exactly when their inner comparison finishes. */
    lemma SingleLinesFinishIff(lines: Script)
      requires LineDiff(lines) && OneLine(EscapeHtml(before)) && OneLine(EscapeHtml(after))
      requires EscapeHtml(before) != EscapeHtml(after)
      ensures InnerFinish(lines, 0) <==> !InnerGivesUp(EscapeHtml(before), EscapeHtml(after))
    {
      var (x, y) := (EscapeHtml(before), EscapeHtml(after));
      OneLineIsOneToken(x);
      OneLineIsOneToken(y);
      assert !GivesUp([x], [y]);
      var s: Script :| Shortest(s, [x], [y]) && lines == Runs(s);
      hide InnerGivesUp, InnerFinish, GivesUp, Shortest, OneLine, Runs;
      ShortestReplacement(s, x, y);
      ReplacementIsGrouped(s);
      ReplacementFinishes(s, x, y);
    }

    /** Ignoring marks, either column rejoins to its escaped text without leading line breaks
        exactly when neither the line comparison nor any inner comparison gives up. */
    method SideBySideMarkdown() returns (rows: seq<Row>)
      requires Valid()
      modifies this`lineByLineDiff
      ensures Valid() && lineByLineDiff.Some?
      ensures RowsRender(rows, lineByLineDiff.value, RowStarts(lineByLineDiff.value, 0))
      ensures AreRows(lineByLineDiff.value, 0, RowStarts(lineByLineDiff.value, 0))
      ensures var finished := !GivesUp(TokenizeLine(EscapeHtml(before)), TokenizeLine(EscapeHtml(after)))
                              && InnerFinish(lineByLineDiff.value, 0);
              && (LeftText(rows) == WithoutLeadingBreaks(EscapeHtml(before)) <==> finished)
              && (RightText(rows) == WithoutLeadingBreaks(EscapeHtml(after)) <==> finished)
    {
      rows := SideBySideRows();
      ghost var lines := lineByLineDiff.value;
      assert lines[..|lines|] == lines;
      LineTokensRejoin(EscapeHtml(before));
      LineTokensRejoin(EscapeHtml(after));
      ghost var (b, a) := (TokenizeLine(EscapeHtml(before)), TokenizeLine(EscapeHtml(after)));
      if GivesUp(b, a) {
        GivingUpTakesTokens(b, a);
        JoinOfTokens(b);
        JoinOfTokens(a);
      }
    }
  }

  // ---------------------------------------------------------------- single lines

  /** One line without line breaks. */
  predicate OneLine(text: string) {
    text != "" && forall k :: 0 <= k < |text| ==> !IsBreak(text[k])
  }

  lemma OneLineIsOneToken(text: string)
    requires OneLine(text)
    ensures TokenizeLine(text) == [text]
  {
    var e := While(text, 0, c => !IsBreak(c));
    assert While(text, 0, IsBreak) == 0 && e == |text| && While(text, e, IsBreak) == |text|;
    assert text[0..|text|] == text;
    NoLine(text, |text|);
  }

  lemma PairOfEntries(s: Script)
    requires |s| == 2
    ensures Before(s) == Before([s[0]]) + Before([s[1]]) && After(s) == After([s[0]]) + After([s[1]])
    ensures NonCommon(s) == NonCommon([s[0]]) + NonCommon([s[1]])
  {
    assert s == [s[0]] + [s[1]];
    ProjectConcat([s[0]], [s[1]], Add);
    ProjectConcat([s[0]], [s[1]], Delete);
    CountConcat([s[0]], [s[1]], Add);
    CountConcat([s[0]], [s[1]], Delete);
  }

  lemma SingleEntry(e: Entry<string>)
    ensures Before([e]) == if e.op == Add then [] else [e.text]
    ensures After([e]) == if e.op == Delete then [] else [e.text]
    ensures NonCommon([e]) == if e.op == Common then 0 else 1
  {
    EditTraces.ProjectOne(e, Add);
    EditTraces.ProjectOne(e, Delete);
  }

  lemma ReplacementCounts(s: Script, x: string, y: string)
    requires x != y && Shortest(s, [x], [y])
    ensures |s| == 2 == NonCommon(s) && Before(s) == [x] && After(s) == [y]
  {
    hide Project, Count;
    LcsGrid.LcsOfRewrite([x], [y], 1, 1);
    Lengths(s);
    Entries(s);
  }

  /** Two different lines are compared as a deletion and an addition, in one order or the other. */
  lemma ShortestReplacement(s: Script, x: string, y: string)
    requires x != y && Shortest(s, [x], [y])
    ensures s == [Entry(x, Delete), Entry(y, Add)] || s == [Entry(y, Add), Entry(x, Delete)]
  {
    hide Shortest, Before, After, NonCommon;
    ReplacementCounts(s, x, y);
    PairOfEntries(s);
    SingleEntry(s[0]);
    SingleEntry(s[1]);
    assert s == [s[0], s[1]];
    if s[0].op == Delete {
      assert Before(s)[0] == s[0].text && After(s)[0] == s[1].text;
    } else {
      assert After(s)[0] == s[0].text && Before(s)[0] == s[1].text;
    }
  }

  lemma ReplacementIsGrouped(s: Script)
    requires |s| == 2 && s[0].op != s[1].op
    ensures Runs(s) == s
  {
    assert s[..1] == [s[0]] && [s[0]][..0] == [];
    assert Runs([s[0]]) == [s[0]];
    assert s == [s[0]] + [s[1]];
  }

  /** The only row of two different lines is complete exactly when their inner comparison finishes. */
  lemma ReplacementFinishes(s: Script, x: string, y: string)
    requires s == [Entry(x, Delete), Entry(y, Add)] || s == [Entry(y, Add), Entry(x, Delete)]
    ensures InnerFinish(s, 0) <==> !InnerGivesUp(x, y)
  {
    assert PairAt(s, 0) && InnerFinish(s, 2);
    hide InnerGivesUp;
  }

  /** Escaping leaves other characters alone. */
  lemma {:induction false} EscapeKeeps(text: string)
    requires forall k :: 0 <= k < |text| ==> EscapeChar(text[k]) == [text[k]]
    ensures EscapeHtml(text) == text
  {
    if text != "" {
      EscapeKeeps(text[1..]);
      assert text == [text[0]] + text[1..];
    }
  }

  /** No character that would end a cell's text is left. */
  lemma {:induction false} EscapedIsPlain(text: string)
    ensures forall k :: 0 <= k < |EscapeHtml(text)| ==> EscapeHtml(text)[k] !in ['<', '>', '"', '\'']
  {
    if text != "" {
      EscapedIsPlain(text[1..]);
      var (first, rest) := (EscapeChar(text[0]), EscapeHtml(text[1..]));
      assert forall k :: 0 <= k < |first| ==> first[k] !in ['<', '>', '"', '\''];
      assert EscapeHtml(text) == first + rest;
    }
  }

  /** Different texts stay different. */
  lemma {:induction false} EscapeTellsApart(a: string, b: string)
    requires EscapeHtml(a) == EscapeHtml(b)
    ensures a == b
    decreases |a|
  {
    if a != "" && b != "" {
      var (s, t) := (EscapeHtml(a), EscapeHtml(b));
      EscapeHead(a);
      EscapeHead(b);
      SameHead(a[0], b[0], s);
      assert s[|EscapeChar(a[0])|..] == EscapeHtml(a[1..]) && t[|EscapeChar(b[0])|..] == EscapeHtml(b[1..]);
      EscapeTellsApart(a[1..], b[1..]);
      assert a == [a[0]] + a[1..] && b == [b[0]] + b[1..];
    } else {
      if a != "" { EscapeHead(a); }
      if b != "" { EscapeHead(b); }
    }
  }

  lemma EscapeHead(a: string)
    requires a != ""
    ensures EscapeChar(a[0]) != "" && EscapeChar(a[0]) <= EscapeHtml(a)
    ensures EscapeHtml(a) == EscapeChar(a[0]) + EscapeHtml(a[1..])
  {
  }

  lemma SameHead(c: char, d: char, s: string)
    requires EscapeChar(c) <= s && EscapeChar(d) <= s
    ensures c == d
  {
    var (e, f) := (EscapeChar(c), EscapeChar(d));
    assert forall k :: 0 <= k < |e| && k < |f| ==> e[k] == s[k] == f[k];
    assert e[0] == f[0];
    if |e| > 1 && |f| > 1 {
      assert e[1] == f[1];
      if |e| > 2 && |f| > 2 { assert e[2] == f[2]; }
    }
  }

  /** A line of a thousand exclamation marks edited into one of a thousand question marks: both texts are missing. */
  method MarksVanish() returns (rows: seq<Row>)
    ensures LeftText(rows) != WithoutLeadingBreaks(EscapeHtml(seq(MAX_ROUNDS, _ => '!')))
    ensures RightText(rows) != WithoutLeadingBreaks(EscapeHtml(seq(MAX_ROUNDS, _ => '?')))
  {
    var (before, after) := (seq(MAX_ROUNDS, _ => '!'), seq(MAX_ROUNDS, _ => '?'));
    EscapeKeeps(before);
    EscapeKeeps(after);
    SymbolsGiveUp();
    assert before[0] != after[0] && OneLine(before) && OneLine(after);
    var d := new DiscourseDiff(before, after);
    hide InnerGivesUp, InnerFinish, GivesUp, RowsRender, OneLine;
    rows := d.SideBySideMarkdown();
    d.SingleLinesFinishIff(d.lineByLineDiff.value);
  }

  /** A comparison gives up only on long inputs. */
  lemma GivingUpTakesTokens(before: seq<string>, after: seq<string>)
    requires GivesUp(before, after)
    ensures |before| >= MAX_ROUNDS && |after| >= MAX_ROUNDS
  {
  }

  lemma {:induction false} JoinOfTokens(tokens: seq<string>)
    requires forall k :: 0 <= k < |tokens| ==> StartsInLine(tokens[k])
    ensures |Join(tokens)| >= |tokens|
  {
    if tokens != [] {
      JoinOfTokens(tokens[..|tokens| - 1]);
    }
  }
}
