/** The O(NP) sequence comparison of Wu, Manber and Myers, as the class that computes
    edit scripts from a greedy sweep over diagonals. */
module OnpDiff {
  import opened Options
  import opened LcsGrid
  import opened EditScripts
  import opened EditTraces
  import opened Frontiers
  import opened ParagraphGroups
  import opened ParagraphPairing
  import opened InPlaceRuns
  import opened HeapTokens

  const MAX_ROUNDS := 1000

  /** Elements of the shorter text that are in no longest common subsequence. */
  function Excess(before: seq<string>, after: seq<string>): int {
    (if |before| < |after| then |before| else |after|) - Lcs(before, after)
  }

  /** The comparison gives up when this many elements of the shorter text are unmatched. */
  predicate GivesUp(before: seq<string>, after: seq<string>) {
    Excess(before, after) >= MAX_ROUNDS
  }

  /** A script that turns `before` into `after` with the fewest additions and deletions. */
  ghost predicate Shortest(s: Script, before: seq<string>, after: seq<string>) {
    && Before(s) == before && After(s) == after
    && NonCommon(s) == |before| + |after| - 2 * Lcs(before, after)
    && forall t: Script :: Before(t) == before && After(t) == after ==> NonCommon(s) <= NonCommon(t)
  }

  ghost predicate PathFor(a: seq<string>, b: seq<string>, points: seq<Point>) {
    if Deletions(a, b, |a|, |b|) >= MAX_ROUNDS then points == []
    else Trace(a, b, points) && points[0] == Point(|a|, |b|) && DeletionSteps(points) <= Deletions(a, b, |a|, |b|)
  }

  /** The two compared sequences, shorter one first. */
  ghost predicate Exchanged(a: seq<string>, b: seq<string>, reverse: bool, before: seq<string>, after: seq<string>) {
    && |a| <= |b| && (reverse <==> |before| > |after|)
    && if reverse then a == after && b == before else a == before && b == after
  }

  lemma EveryScriptIsLonger(before: seq<string>, after: seq<string>, t: Script)
    requires Before(t) == before && After(t) == after
    ensures NonCommon(t) >= |before| + |after| - 2 * Lcs(before, after)
  {
    EveryScriptAtLeast(t);
  }

  /** Texts without a common element give up exactly when both have a thousand elements. */
  lemma RewriteGivesUp(before: seq<string>, after: seq<string>)
    requires forall i, j :: 0 <= i < |before| && 0 <= j < |after| ==> before[i] != after[j]
    ensures GivesUp(before, after) <==> |before| >= 1000 && |after| >= 1000
  {
    LcsOfRewrite(before, after, |before|, |after|);
  }

  /** A thousand equal tokens against a thousand others give up. */
  lemma ThousandTokensGiveUp()
    ensures GivesUp(seq(1000, _ => "a"), seq(1000, _ => "b"))
  {
    RewriteGivesUp(seq(1000, _ => "a"), seq(1000, _ => "b"));
  }

  lemma PathGivesShortest(a: seq<string>, b: seq<string>, reverse: bool,
                          before: seq<string>, after: seq<string>, points: seq<Point>)
    requires Exchanged(a, b, reverse, before, after) && PathFor(a, b, points)
    ensures Staircase(a, b, points)
    ensures GivesUp(before, after) ==> EditScript(a, b, reverse, points) == []
    ensures !GivesUp(before, after) ==> Shortest(EditScript(a, b, reverse, points), before, after)
  {
    LcsSymmetric(a, b);
    if !GivesUp(before, after) {
      EditScriptSpells(a, b, reverse, points);
      var s := EditScript(a, b, reverse, points);
      assert a[..|a|] == a && b[..|b|] == b;
      Lengths(s);
      EveryScriptAtLeast(s);
      forall t: Script | Before(t) == before && After(t) == after ensures NonCommon(s) <= NonCommon(t) {
        EveryScriptIsLonger(before, after, t);
      }
    }
  }

  // ---------------------------------------------------------------- one round of the sweep

  ghost predicate Round(a: seq<string>, b: seq<string>, p: int, lo: int, hi: int, s: Sweep) {
    && |a| <= |b| && Unfinished(a, b, p)
    && Swept(a, b, p, lo, hi, s.fp)
    && VisitsOk(a, b, s.visits, s.dels)
    && HeadsOk(a, b, p, lo, hi, s)
  }

  /** What storing the snake of diagonal k does to the arrays and the backtracking list. */
  ghost predicate Stored(a: seq<string>, b: seq<string>, k: int, s: Sweep, s': Sweep, y: int)
    requires |s.fp| == |s.path| == Size(a, b) && Indexed(a, b, k - 1) && Indexed(a, b, k + 1)
  {
    var (below, above) := (At(a, b, s.fp, k - 1), At(a, b, s.fp, k + 1));
    && SnakeEnd(a, b, k, Max(below + 1, above), y)
    && s'.fp == s.fp[k + Offset(a) := y]
    && s'.path == s.path[k + Offset(a) := |s.visits|]
    && s'.visits == s.visits
         + [Visit(y - k, y, Choice(below, above, At(a, b, s.path, k - 1), At(a, b, s.path, k + 1)))]
  }

  lemma NeighbourHeads(a: seq<string>, b: seq<string>, p: int, lo: int, hi: int, k: int, s: Sweep)
    requires HeadsOk(a, b, p, lo, hi, s) && Turn(a, b, p, lo, hi, k)
    requires Indexed(a, b, k - 1) && Indexed(a, b, k + 1)
    ensures HeadAt(a, b, s, k - 1, Budget(a, b, p, k)) && HeadAt(a, b, s, k + 1, Budget(a, b, p, k) - 1)
  {
    assert HeadAt(a, b, s, k - 1, Budget(a, b, RoundAt(p, lo, hi, k - 1), k - 1));
    assert HeadAt(a, b, s, k + 1, Budget(a, b, RoundAt(p, lo, hi, k + 1), k + 1));
  }

  lemma TurnAtEnd(a: seq<string>, b: seq<string>, p: int, lo: int, hi: int, k: int)
    requires Turn(a, b, p, lo, hi, k)
    ensures lo == k || hi == k
  {
  }

  /** The stored visit continues its neighbour's, and heads its diagonal. */
  lemma VisitStep(a: seq<string>, b: seq<string>, p: int, lo: int, hi: int, k: int, s: Sweep, s': Sweep, y: int)
    returns (d: nat)
    requires VisitsOk(a, b, s.visits, s.dels) && HeadsOk(a, b, p, lo, hi, s) && Turn(a, b, p, lo, hi, k)
    requires Indexed(a, b, k - 1) && Indexed(a, b, k + 1) && Budget(a, b, p, k) >= 0
    requires Start(a, b, k, At(a, b, s.fp, k - 1), At(a, b, s.fp, k + 1))
    requires Stored(a, b, k, s, s', y)
    ensures VisitsOk(a, b, s'.visits, s.dels + [d])
    ensures HeadsOk(a, b, p, if lo == k then k + 1 else lo, if lo == k then hi else k - 1, s'.(dels := s.dels + [d]))
  {
    assert |s.visits| == |s.dels| && y >= 0;
    hide SnakeEnd, VisitsOk, OnGrid;
    var (below, above) := (At(a, b, s.fp, k - 1), At(a, b, s.fp, k + 1));
    NeighbourHeads(a, b, p, lo, hi, k, s);
    TurnAtEnd(a, b, p, lo, hi, k);
    hide HeadOk, HeadsOk, Turn, Start;
    var visit := s'.visits[|s.visits|];
    assert s'.visits == s.visits + [visit] && visit.y == y && visit.x == y - k;
    d := NewVisitOk(a, b, Budget(a, b, p, k), k, below, above, At(a, b, s.path, k - 1), At(a, b, s.path, k + 1),
                    s.visits, s.dels, y);
    HeadsAfterVisit(a, b, p, lo, hi, k, s, visit, d);
    assert WithVisit(a, b, s, k, visit, d) == s'.(dels := s.dels + [d]);
  }

  /** One diagonal of the sweep keeps the round's invariant and moves its bounds. */
  lemma RoundStep(a: seq<string>, b: seq<string>, p: int, lo: int, hi: int, k: int, s: Sweep, s': Sweep, y: int)
    returns (d: nat)
    requires p >= 0 && Round(a, b, p, lo, hi, s) && Turn(a, b, p, lo, hi, k)
    requires Indexed(a, b, k - 1) && Indexed(a, b, k + 1)
    requires Stored(a, b, k, s, s', y)
    ensures Round(a, b, p, if lo == k then k + 1 else lo, if lo == k then hi else k - 1, s'.(dels := s.dels + [d]))
  {
    hide SnakeEnd, Furthest, VisitsOk, Start, Swept, HeadsOk, Turn, Unfinished;
    StartOnGrid(a, b, p, lo, hi, k, s.fp);
    SweepDiagonal(a, b, p, lo, hi, k, s.fp, y);
    d := VisitStep(a, b, p, lo, hi, k, s, s', y);
  }

  /** An empty interval leaves no diagonal behind, whatever its bounds. */
  lemma RoundClosed(a: seq<string>, b: seq<string>, p: int, lo: int, hi: int, s: Sweep)
    requires Round(a, b, p, lo, hi, s) && lo > hi
    ensures Round(a, b, p, 1, 0, s)
  {
    forall k | Indexed(a, b, k)
      ensures Furthest(a, b, Budget(a, b, RoundAt(p, 1, 0, k), k), k, At(a, b, s.fp, k))
      ensures HeadAt(a, b, s, k, Budget(a, b, RoundAt(p, 1, 0, k), k))
    {
      assert RoundAt(p, 1, 0, k) == RoundAt(p, lo, hi, k);
    }
  }

  lemma FirstRound(a: seq<string>, b: seq<string>, fp: seq<int>, path: seq<int>)
    requires |a| <= |b| && |fp| == |path| == Size(a, b)
    requires forall i :: 0 <= i < |fp| ==> fp[i] == -1 && path[i] == -1
    ensures Round(a, b, -1, 1, 0, Sweep(fp, path, [], [])) && Unfinished(a, b, 0)
  {
    FirstFrontier(a, b, fp);
    DeletionsAtLeastDiagonal(a, b, |a|, |b|);
  }

  lemma NextRound(a: seq<string>, b: seq<string>, p: int, s: Sweep)
    requires p >= 0 && Round(a, b, p - 1, 1, 0, s) && Unfinished(a, b, p)
    ensures Round(a, b, p, -p, Delta(a, b) + p, s)
  {
    OpenRound(a, b, p, s.fp);
    HeadsOpenRound(a, b, p, s);
  }

  /** After a round: either the far corner needs a further round, or the trail of
      delta's last visit is a path there with as few deletions as possible. */
  lemma RoundExit(a: seq<string>, b: seq<string>, p: int, s: Sweep)
    requires 0 <= p < MAX_ROUNDS && Round(a, b, p, 1, 0, s)
    ensures Indexed(a, b, Delta(a, b)) && |s.fp| == |s.path| == Size(a, b)
    ensures At(a, b, s.fp, Delta(a, b)) == |b| <==> Deletions(a, b, |a|, |b|) < p + 1
    ensures var r := At(a, b, s.path, Delta(a, b));
            At(a, b, s.fp, Delta(a, b)) == |b| ==>
              0 <= r < |s.visits| && Descending(s.visits) && PathFor(a, b, Trail(s.visits, r))
  {
    ExitTest(a, b, p, s.fp);
    var (delta, r) := (Delta(a, b), At(a, b, s.path, Delta(a, b)));
    if At(a, b, s.fp, delta) == |b| {
      assert HeadAt(a, b, s, delta, Budget(a, b, RoundAt(p, 1, 0, delta), delta));
      TrailIsTrace(a, b, s.visits, s.dels, r);
    }
  }

  lemma RoundAtLeast(a: seq<string>, b: seq<string>, p: int, s: Sweep)
    requires Round(a, b, p, 1, 0, s)
    ensures Deletions(a, b, |a|, |b|) >= p
  {
  }

  lemma MatchedSlices(a: seq<string>, b: seq<string>, k: int, start: int, y: int)
    requires OnGrid(a, b, k, start) && OnGrid(a, b, k, y) && start <= y
    requires forall t :: start <= t < y ==> b[t] == a[t - k]
    ensures a[start - k..y - k] == b[start..y]
  {
    forall i | 0 <= i < y - start ensures a[start - k..y - k][i] == b[start..y][i] {
      assert b[start + i] == a[start + i - k];
    }
  }

  lemma ScriptObjects(a: seq<Token>, b: seq<Token>, reverse: bool, points: seq<Point>)
    requires Staircase(a, b, points)
    ensures forall t :: t in Objects(EditScript(a, b, reverse, points)) ==> t in a || t in b
  {
    if points != [] {
      assert Ascending(a, b, Source(points[1..]), points[0]);
      SegmentObjects(a, b, reverse, Source(points[1..]), points[0]);
    }
  }

  lemma SegmentObjects(a: seq<Token>, b: seq<Token>, reverse: bool, p: Point, q: Point)
    requires Ascending(a, b, p, q)
    ensures forall t :: t in Objects(Segment(a, b, reverse, p, q)) ==> t in a || t in b
    decreases q.x - p.x + q.y - p.y
  {
  }

  /** The comparison of two arrays of string objects. */
  class ONPDiff {
    ghost const before: seq<string>
    ghost const after: seq<string>
    ghost const aText: seq<string>
    ghost const bText: seq<string>
    const a: seq<Token>
    const b: seq<Token>
    const m: int
    const n: int
    const reverse: bool
    const offset: int
    const delta: int
    var backtrack: seq<Visit>
    var path: array<int>
    var shortestPath: Option<seq<Point>>
    var fullDiff: Option<TokenScript>
    var shortDiff: Option<TokenScript>
    var paragraphs: Option<TokenScript>

    /** No object has been appended to. */
    ghost predicate Original()
      reads a, b
    {
      Texts(a) == aText && Texts(b) == bText
    }

    /** The comparison still sees the original texts. */
    ghost predicate Ready()
      reads a, b
    {
      && Original() && m == |aText| && n == |bText|
      && offset == Offset(aText) && delta == Delta(aText, bText)
    }

    /** After the grouping the objects of the script hold what was appended to them; those that start no
        run are unchanged. */
    ghost predicate Grouped(points: seq<Point>)
      requires Staircase(a, b, points) && Staircase(aText, bText, points)
      reads a, b
    {
      ScriptObjects(a, b, reverse, points);
      && Shows(EditScript(a, b, reverse, points), Merged(EditScript(aText, bText, reverse, points)))
      && Untouched(a, b, aText, bText, Heads(EditScript(a, b, reverse, points)))
    }

    ghost predicate Valid()
      reads this, a, b
    {
      && Exchanged(aText, bText, reverse, before, after)
      && m == |a| == |aText| && n == |b| == |bText| && offset == Offset(aText) && delta == Delta(aText, bText)
      && (shortestPath.None? ==> backtrack == [] && fullDiff.None? && shortDiff.None?)
      && (shortestPath.Some? ==> var points := shortestPath.value;
            PathFor(aText, bText, points) && Staircase(aText, bText, points) && Staircase(a, b, points))
      && (shortDiff.None? ==> Original())
      && (fullDiff.Some? ==> fullDiff.value == EditScript(a, b, reverse, shortestPath.value))
      && (shortDiff.Some? ==> shortDiff.value == Heads(EditScript(a, b, reverse, shortestPath.value))
                              && Grouped(shortestPath.value))
      && (paragraphs.Some? ==> fullDiff.Some? && paragraphs.value == Paired(fullDiff.value))
    }

    /** The script of the original texts. */
    ghost function TextScript(): Script
      requires Valid() && shortestPath.Some?
      reads this, a, b
    {
      EditScript(aText, bText, reverse, shortestPath.value)
    }

    /** The texts that the objects of the script hold now: once grouped, the first of a run holds all of it. */
    ghost function Shown(): Script
      requires Valid() && shortestPath.Some?
      reads this, a, b
    {
      if shortDiff.None? then TextScript() else Merged(TextScript())
    }

    constructor (before: seq<Token>, after: seq<Token>)
      ensures Valid() && this.before == Texts(before) && this.after == Texts(after)
      ensures (a, b) == if |before| > |after| then (after, before) else (before, after)
      ensures shortestPath.None? && fresh(path)
    {
      hide PathFor, Grouped, EditScript, Paired, Heads, Shows, Staircase, Texts;
      this.before, this.after := Texts(before), Texts(after);
      var reverse := |before| > |after|;
      var a := if reverse then after else before;
      var b := if reverse then before else after;
      this.reverse := reverse;
      this.a, this.b := a, b;
      this.aText, this.bText := Texts(a), Texts(b);
      m, n := |a|, |b|;
      offset := |a| + 1;
      delta := |b| - |a|;
      backtrack := [];
      path := new int[0];
      shortestPath, fullDiff, shortDiff, paragraphs := None, None, None, None;
    }

    /** Follows matches along diagonal k from row `start` on. */
    method FollowMatches(k: int, start: int) returns (y: int)
      requires Ready() && OnGrid(aText, bText, k, start)
      ensures SnakeEnd(aText, bText, k, start, y)
    {
      y := start;
      var x := y - k;
      while x < m && y < n && a[x].s == b[y].s
        invariant x == y - k && start <= y && OnGrid(aText, bText, k, y)
        invariant forall t :: start <= t < y ==> bText[t] == aText[t - k]
      {
        x := x + 1;
        y := y + 1;
      }
      MatchedSlices(aText, bText, k, start, y);
    }

    /** Follows matches from the furthest of the two offered rows and records the end. */
    method Snake(k: int, p: int, pp: int) returns (y: int)
      requires Ready()
      requires OnGrid(aText, bText, k, Max(p, pp)) && path.Length == Size(aText, bText)
      requires Indexed(aText, bText, k - 1) && Indexed(aText, bText, k + 1)
      modifies this`backtrack, path
      ensures SnakeEnd(aText, bText, k, Max(p, pp), y)
      ensures path[..] == old(path[..])[k + offset := |old(backtrack)|]
      ensures backtrack == old(backtrack)
        + [Visit(y - k, y, if p > pp then old(path[k - 1 + offset]) else old(path[k + 1 + offset]))]
    {
      var r := if p > pp then path[k - 1 + offset] else path[k + 1 + offset];
      y := if p > pp then p else pp;
      y := FollowMatches(k, y);
      path[k + offset] := |backtrack|;
      backtrack := backtrack + [Visit(y - k, y, r)];
    }

    /** Collects the visits from r back to the first one. */
    method ReadPath(start: int) returns (points: seq<Point>)
      requires Descending(backtrack) && -1 <= start < |backtrack|
      ensures points == Trail(backtrack, start)
    {
      var r := start;
      points := [];
      while r != -1
        invariant -1 <= r < |backtrack|
        invariant points + Trail(backtrack, r) == Trail(backtrack, start)
        decreases r
      {
        points := points + [Point(backtrack[r].x, backtrack[r].y)];
        r := backtrack[r].prev;
      }
    }

    /** Runs the snake of diagonal k from its two neighbours and stores its end. */
    method StoreSnake(fp: array<int>, k: int, ghost s: Sweep) returns (y: int)
      requires Ready() && fp != path
      requires fp.Length == path.Length == Size(aText, bText)
      requires Indexed(aText, bText, k - 1) && Indexed(aText, bText, k + 1)
      requires OnGrid(aText, bText, k, Max(At(aText, bText, fp[..], k - 1) + 1, At(aText, bText, fp[..], k + 1)))
      requires s.fp == fp[..] && s.path == path[..] && s.visits == backtrack
      modifies this`backtrack, path, fp
      ensures Stored(aText, bText, k, s, Sweep(fp[..], path[..], backtrack, s.dels), y)
    {
      y := Snake(k, fp[k - 1 + offset] + 1, fp[k + 1 + offset]);
      fp[k + offset] := y;
    }

    /** Brings diagonal k to round p. */
    method SweepDiagonalOf(fp: array<int>, ghost p: int, ghost lo: int, ghost hi: int, k: int, ghost dels: seq<nat>)
      returns (ghost dels': seq<nat>)
      requires Ready() && fp != path && p >= 0
      requires Round(aText, bText, p, lo, hi, Sweep(fp[..], path[..], backtrack, dels))
      requires Turn(aText, bText, p, lo, hi, k)
      modifies this`backtrack, path, fp
      ensures Round(aText, bText, p, if lo == k then k + 1 else lo, if lo == k then hi else k - 1,
                    Sweep(fp[..], path[..], backtrack, dels'))
    {
      ghost var s := Sweep(fp[..], path[..], backtrack, dels);
      StartOnGrid(aText, bText, p, lo, hi, k, s.fp);
      assert |s.fp| == |s.path| == Size(aText, bText);
      hide Round, Swept, HeadsOk, VisitsOk, Turn, OnGrid, Stored;
      var y := StoreSnake(fp, k, s);
      ghost var d := RoundStep(aText, bText, p, lo, hi, k, s, Sweep(fp[..], path[..], backtrack, dels), y);
      dels' := dels + [d];
    }

    /** The diagonals below delta, upwards. */
    method SweepUp(fp: array<int>, p: int, ghost dels: seq<nat>) returns (ghost dels': seq<nat>)
      requires Ready() && fp != path && p >= 0
      requires Round(aText, bText, p, -p, delta + p, Sweep(fp[..], path[..], backtrack, dels))
      modifies this`backtrack, path, fp
      ensures Round(aText, bText, p, delta, delta + p, Sweep(fp[..], path[..], backtrack, dels'))
    {
      assert delta == Delta(aText, bText) >= 0;
      dels' := dels;
      var k := -p;
      while k <= delta - 1
        invariant -p <= k && k <= delta
        invariant Round(aText, bText, p, k, delta + p, Sweep(fp[..], path[..], backtrack, dels'))
      {
        dels' := SweepDiagonalOf(fp, p, k, delta + p, k, dels');
        k := k + 1;
      }
    }

    /** The diagonals above delta, downwards. */
    method SweepDown(fp: array<int>, p: int, ghost dels: seq<nat>) returns (ghost dels': seq<nat>)
      requires Ready() && fp != path && p >= 0
      requires Round(aText, bText, p, delta, delta + p, Sweep(fp[..], path[..], backtrack, dels))
      modifies this`backtrack, path, fp
      ensures Round(aText, bText, p, delta, delta, Sweep(fp[..], path[..], backtrack, dels'))
    {
      assert delta == Delta(aText, bText) >= 0;
      dels' := dels;
      var k := delta + p;
      while k >= delta + 1
        invariant delta <= k <= delta + p
        invariant Round(aText, bText, p, delta, k, Sweep(fp[..], path[..], backtrack, dels'))
      {
        dels' := SweepDiagonalOf(fp, p, delta, k, k, dels');
        k := k - 1;
      }
    }

    /** Round p: diagonals below delta upwards, diagonals above delta downwards, delta last. */
    method SweepRound(fp: array<int>, p: int, ghost dels: seq<nat>) returns (ghost dels': seq<nat>)
      requires Ready() && fp != path && p >= 0
      requires Round(aText, bText, p, -p, delta + p, Sweep(fp[..], path[..], backtrack, dels))
      modifies this`backtrack, path, fp
      ensures Round(aText, bText, p, 1, 0, Sweep(fp[..], path[..], backtrack, dels'))
    {
      assert delta == Delta(aText, bText);
      hide Round, Original, Texts, Ready;
      dels' := SweepUp(fp, p, dels);
      dels' := SweepDown(fp, p, dels');
      dels' := SweepDiagonalOf(fp, p, delta, delta, delta, dels');
      RoundClosed(aText, bText, p, delta + 1, delta, Sweep(fp[..], path[..], backtrack, dels'));
    }

    /** One more round, and whether it reaches the far corner. */
    method NextSweep(fp: array<int>, p: int, ghost dels: seq<nat>) returns (reached: bool, ghost dels': seq<nat>)
      requires Ready() && fp != path && 0 <= p < MAX_ROUNDS
      requires Round(aText, bText, p - 1, 1, 0, Sweep(fp[..], path[..], backtrack, dels)) && Unfinished(aText, bText, p)
      modifies this`backtrack, path, fp
      ensures Round(aText, bText, p, 1, 0, Sweep(fp[..], path[..], backtrack, dels'))
      ensures if reached then Reached(p) else Unfinished(aText, bText, p + 1)
    {
      NextRound(aText, bText, p, Sweep(fp[..], path[..], backtrack, dels));
      assert delta == Delta(aText, bText) && n == |bText| && offset == Offset(aText);
      hide Round, PathFor, PrefixLcs, Original, Texts, Deletions;
      dels' := SweepRound(fp, p, dels);
      RoundExit(aText, bText, p, Sweep(fp[..], path[..], backtrack, dels'));
      RoundAtLeast(aText, bText, p, Sweep(fp[..], path[..], backtrack, dels'));
      return fp[delta + offset] == n, dels';
    }

    /** After round p the last visit of diagonal delta heads a path with the fewest deletions. */
    ghost predicate Reached(p: int)
      reads this, path
    {
      && p == Deletions(aText, bText, |aText|, |bText|)
      && path.Length == Size(aText, bText) && 0 <= delta + offset < path.Length
      && 0 <= path[delta + offset] < |backtrack| && Descending(backtrack)
      && PathFor(aText, bText, Trail(backtrack, path[delta + offset]))
    }

    /** Round after round until the far corner is reached or the rounds run out. */
    method SweepOn(fp: array<int>) returns (found: bool, ghost rounds: int)
      requires Ready() && fp != path
      requires Round(aText, bText, -1, 1, 0, Sweep(fp[..], path[..], backtrack, [])) && Unfinished(aText, bText, 0)
      modifies this`backtrack, path, fp
      ensures found <==> Deletions(aText, bText, |aText|, |bText|) < MAX_ROUNDS
      ensures rounds == if found then Deletions(aText, bText, |aText|, |bText|) else MAX_ROUNDS
      ensures found ==> Reached(rounds)
    {
      hide Round, PathFor, PrefixLcs, Deletions, Original, Texts, Ready;
      var p := -1;
      ghost var dels: seq<nat> := [];
      while true
        invariant -1 <= p < MAX_ROUNDS
        invariant Round(aText, bText, p, 1, 0, Sweep(fp[..], path[..], backtrack, dels))
                  && Unfinished(aText, bText, p + 1)
        decreases MAX_ROUNDS - p
      {
        p := p + 1;
        if p >= MAX_ROUNDS {
          return false, p;
        }
        var reached;
        reached, dels := NextSweep(fp, p, dels);
        if reached {
          return true, p;
        }
      }
    }

    /** Fills the arrays with -1 and sweeps. */
    method SweepRounds() returns (found: bool, ghost rounds: int)
      requires Ready() && |aText| <= |bText| && backtrack == []
      modifies this`backtrack, this`path
      ensures found <==> Deletions(aText, bText, |aText|, |bText|) < MAX_ROUNDS
      ensures rounds == if found then Deletions(aText, bText, |aText|, |bText|) else MAX_ROUNDS
      ensures found ==> Reached(rounds)
    {
      assert m + n + 3 == Size(aText, bText);
      hide Round;
      var size := m + n + 3;
      var fp := new int[size](_ => -1);
      path := new int[size](_ => -1);
      FirstRound(aText, bText, fp[..], path[..]);
      found, rounds := SweepOn(fp);
    }

    /** Sweeps and reads the path back; the empty one when the comparison gives up. */
    method FindPath() returns (points: seq<Point>)
      requires Ready() && Exchanged(aText, bText, reverse, before, after)
      requires |a| == |aText| && |b| == |bText| && backtrack == []
      modifies this`backtrack, this`path
      ensures PathFor(aText, bText, points) && Staircase(aText, bText, points) && Staircase(a, b, points)
    {
      var found, _ := SweepRounds();
      if found {
        points := ReadPath(path[delta + offset]);
      } else {
        points := [];
      }
      PathGivesShortest(aText, bText, reverse, before, after, points);
      SameStaircase(points);
    }

    lemma SameStaircase(points: seq<Point>)
      requires |a| == |aText| && |b| == |bText| && Staircase(aText, bText, points)
      ensures Staircase(a, b, points)
    {
      forall i | 0 <= i < |points| - 1 ensures Ascending(a, b, points[i + 1], points[i]) {
        assert Ascending(aText, bText, points[i + 1], points[i]);
      }
    }

    /** The points of a shortest path, last one first; empty when the comparison gives up. Found once. */
    method Compose() returns (points: seq<Point>)
      requires Valid()
      modifies this`backtrack, this`path, this`shortestPath
      ensures Valid() && shortestPath == Some(points)
      ensures old(shortestPath).Some? ==> shortestPath == old(shortestPath)
    {
      hide Exchanged, PathFor, Staircase, Grouped, Heads, Paired, EditScript, Original;
      if shortestPath.Some? {
        return shortestPath.value;
      }
      points := FindPath();
      shortestPath := Some(points);
    }

    /** The inner loop of BuildEditScript: one entry per step on the way from (px, py) to q. */
    method WalkTo(written: TokenScript, px: int, py: int, q: Point) returns (ses: TokenScript)
      requires Ascending(a, b, Point(px, py), q)
      ensures ses == written + Segment(a, b, reverse, Point(px, py), q)
    {
      ses := written;
      var px, py := px, py;
      ghost var all := ses + Segment(a, b, reverse, Point(px, py), q);
      while px < q.x || py < q.y
        invariant Ascending(a, b, Point(px, py), q)
        invariant ses + Segment(a, b, reverse, Point(px, py), q) == all
        decreases q.x - px + q.y - py
      {
        SegmentStep(a, b, reverse, Point(px, py), q, ses);
        hide Segment;
        if q.y - q.x > py - px {
          var t := if reverse then Delete else Add;
          ses := ses + [Entry(b[py], t)];
          py := py + 1;
        } else if q.y - q.x < py - px {
          var t := if reverse then Add else Delete;
          ses := ses + [Entry(a[px], t)];
          px := px + 1;
        } else {
          ses := ses + [Entry(a[px], Common)];
          px := px + 1;
          py := py + 1;
        }
      }
    }

    /** Walks the points from the origin and writes one entry per step. */
    method BuildEditScript(points: seq<Point>) returns (ses: TokenScript)
      requires Staircase(a, b, points)
      ensures ses == EditScript(a, b, reverse, points)
    {
      ses := [];
      var px, py := 0, 0;
      var i := |points| - 1;
      while i >= 0
        invariant -1 <= i < |points| && Staircase(a, b, points[i + 1..])
        invariant Point(px, py) == Source(points[i + 1..]) && ses == EditScript(a, b, reverse, points[i + 1..])
      {
        StaircaseTail(a, b, points, i);
        hide Staircase, Segment, Ascending;
        ses := WalkTo(ses, px, py, points[i]);
        px, py := points[i].x, points[i].y;
        i := i - 1;
      }
      assert points[0..] == points;
    }

    /** One step towards q: takes an object of b or of a, or one of each. `full` and `done` list the objects
        taken so far and the texts they had. */
    method TakeStep(ses: TokenScript, ghost full: TokenScript, ghost done: Script, px: int, py: int, q: Point)
      returns (ses': TokenScript, px': int, py': int)
      requires |aText| == |a| && |bText| == |b| && Distinct(a, b)
      requires Ascending(a, b, Point(px, py), q) && Point(px, py) != q && Ascending(aText, bText, Point(px, py), q)
      requires Untouched(a, b, aText, bText, full) && Consumed(full, a, b, px, py)
      requires ses == Heads(full) && Shows(full, Merged(done))
      modifies a, b
      ensures Point(px', py') == StepPoint(Point(px, py), q)
      ensures var full' := full + [StepEntry(a, b, reverse, Point(px, py), q)];
              && ses' == Heads(full')
              && Shows(full', Merged(done + [StepEntry(aText, bText, reverse, Point(px, py), q)]))
              && Untouched(a, b, aText, bText, full') && Consumed(full', a, b, px', py')
    {
      hide Distinct, Heads, Shows, Merged, Untouched, Consumed;
      if q.y - q.x > py - px {
        ses' := Take(ses, full, done, a, b, aText, bText, px, py, px, py + 1,
                     b[py], bText[py], if reverse then Delete else Add);
        px', py' := px, py + 1;
      } else if q.y - q.x < py - px {
        ses' := Take(ses, full, done, a, b, aText, bText, px, py, px + 1, py,
                     a[px], aText[px], if reverse then Add else Delete);
        px', py' := px + 1, py;
      } else {
        ses' := Take(ses, full, done, a, b, aText, bText, px, py, px + 1, py + 1, a[px], aText[px], Common);
        px', py' := px + 1, py + 1;
      }
    }

    /** The inner loop of BuildShortEditScript: appends to the last entry's object while the mark stays the same. */
    method WalkToGrouped(written: TokenScript, ghost full: TokenScript, ghost single: Script, px: int, py: int,
                         q: Point)
      returns (ses: TokenScript, ghost full': TokenScript)
      requires |aText| == |a| && |bText| == |b| && Distinct(a, b)
      requires Ascending(a, b, Point(px, py), q) && Ascending(aText, bText, Point(px, py), q)
      requires Untouched(a, b, aText, bText, full) && Consumed(full, a, b, px, py)
      requires written == Heads(full) && Shows(full, Merged(single))
      modifies a, b
      ensures full' == full + Segment(a, b, reverse, Point(px, py), q)
      ensures Untouched(a, b, aText, bText, full') && Consumed(full', a, b, q.x, q.y)
      ensures ses == Heads(full') && Shows(full', Merged(single + Segment(aText, bText, reverse, Point(px, py), q)))
    {
      ses, full' := written, full;
      var px, py := px, py;
      ghost var done := single;
      ghost var all := full + Segment(a, b, reverse, Point(px, py), q);
      ghost var texts := done + Segment(aText, bText, reverse, Point(px, py), q);
      hide Distinct, Heads, Shows, Merged, Untouched, Consumed, StepEntry;
      while px < q.x || py < q.y
        invariant Ascending(a, b, Point(px, py), q) && Ascending(aText, bText, Point(px, py), q)
        invariant Untouched(a, b, aText, bText, full') && Consumed(full', a, b, px, py)
        invariant ses == Heads(full') && Shows(full', Merged(done))
        invariant full' + Segment(a, b, reverse, Point(px, py), q) == all
        invariant done + Segment(aText, bText, reverse, Point(px, py), q) == texts
        decreases q.x - px + q.y - py
      {
        ghost var p := Point(px, py);
        SegmentStep(a, b, reverse, p, q, full');
        SegmentStep(aText, bText, reverse, p, q, done);
        hide Segment;
        ses, px, py := TakeStep(ses, full', done, px, py, q);
        full' := full' + [StepEntry(a, b, reverse, p, q)];
        done := done + [StepEntry(aText, bText, reverse, p, q)];
      }
      assert full' == all && done == texts;
    }

    /** The objects on the way up to points[i] are taken, and their runs are grouped. */
    ghost predicate GroupedFrom(ses: TokenScript, full: TokenScript, points: seq<Point>, i: nat)
      reads a, b
    {
      && |aText| == |a| && |bText| == |b|
      && i <= |points| && Staircase(a, b, points[i..]) && Staircase(aText, bText, points[i..])
      && full == EditScript(a, b, reverse, points[i..]) && ses == Heads(full)
      && (ScriptObjects(a, b, reverse, points[i..]);
          Shows(full, Merged(EditScript(aText, bText, reverse, points[i..]))))
      && Untouched(a, b, aText, bText, full)
      && Consumed(full, a, b, Source(points[i..]).x, Source(points[i..]).y)
    }

    lemma StartGrouping(points: seq<Point>)
      requires Original() && Staircase(a, b, points) && Staircase(aText, bText, points)
      ensures Aligned(a, b, aText, bText, EditScript(a, b, reverse, points), EditScript(aText, bText, reverse, points))
      ensures GroupedFrom([], [], points, |points|)
    {
      ScriptShows(a, b, reverse, points);
      ShownTexts(a, b, EditScript(a, b, reverse, points), EditScript(aText, bText, reverse, points));
      NothingTaken(a, b);
      assert points[|points|..] == [];
    }

    lemma EndGrouping(ses: TokenScript, full: TokenScript, points: seq<Point>)
      requires GroupedFrom(ses, full, points, 0) && Staircase(a, b, points) && Staircase(aText, bText, points)
      requires Aligned(a, b, aText, bText, EditScript(a, b, reverse, points), EditScript(aText, bText, reverse, points))
      ensures ses == Heads(EditScript(a, b, reverse, points)) && Grouped(points)
    {
      assert points[0..] == points;
      OnlyHeadsChange(a, b, aText, bText, full, EditScript(aText, bText, reverse, points));
    }

    /** Takes the objects on the way to points[i]. */
    method GroupNext(ses: TokenScript, ghost full: TokenScript, ghost points: seq<Point>, ghost i: nat,
                     px: int, py: int, q: Point)
      returns (ses': TokenScript, ghost full': TokenScript)
      requires Staircase(a, b, points) && Staircase(aText, bText, points) && Distinct(a, b)
      requires i < |points| && q == points[i] && Point(px, py) == Source(points[i + 1..])
      requires GroupedFrom(ses, full, points, i + 1)
      modifies a, b
      ensures GroupedFrom(ses', full', points, i)
    {
      StaircaseTail(a, b, points, i);
      StaircaseTail(aText, bText, points, i);
      hide Staircase, Segment, Ascending, Heads, Shows, Merged, Untouched, Consumed, Distinct;
      ses', full' := WalkToGrouped(ses, full, EditScript(aText, bText, reverse, points[i + 1..]), px, py, q);
    }

    /** Like BuildEditScript, but every run ends up in the object of its first entry. */
    method BuildShortEditScript(points: seq<Point>) returns (ses: TokenScript)
      requires Distinct(a, b) && Original()
      requires Staircase(a, b, points) && Staircase(aText, bText, points)
      modifies a, b
      ensures ses == Heads(EditScript(a, b, reverse, points)) && Grouped(points)
    {
      StartGrouping(points);
      ses := [];
      ghost var full: TokenScript := [];
      var px, py := 0, 0;
      var i := |points| - 1;
      while i >= 0
        invariant -1 <= i < |points|
        invariant Point(px, py) == Source(points[i + 1..]) && GroupedFrom(ses, full, points, i + 1)
      {
        ses, full := GroupNext(ses, full, points, i, px, py, points[i]);
        px, py := points[i].x, points[i].y;
        i := i - 1;
      }
      EndGrouping(ses, full, points);
    }

    /** Alternates the num_pairs entries from i with the same number from i + num_pairs. */
    static method PairParagraphs<T>(ses: seq<Entry<T>>, i: nat, j: nat) returns (pairs: seq<Entry<T>>)
      requires i <= j && 2 * (j - i + 1) <= |ses| - i
      ensures pairs == Interleave(ses[i..j + 1], ses[j + 1..j + 1 + (j - i + 1)])
    {
      pairs := [];
      var numPairs := j - i + 1;
      for t := 0 to numPairs
        invariant pairs == Interleave(ses[i..i + t], ses[i + numPairs..i + numPairs + t])
      {
        var (u, v) := (ses[i..i + t + 1], ses[i + numPairs..i + numPairs + t + 1]);
        assert u[..t] == ses[i..i + t] && v[..t] == ses[i + numPairs..i + numPairs + t];
        pairs := pairs + [ses[i + t], ses[i + numPairs + t]];
      }
    }

    static method EndOfRun<T>(ses: seq<Entry<T>>, i: nat, op: Op) returns (j: nat)
      requires i <= |ses|
      ensures j == RunEnd(ses, i, op)
    {
      j := i;
      while j < |ses| && ses[j].op == op
        invariant i <= j <= |ses| && RunEnd(ses, i, op) == RunEnd(ses, j, op)
      {
        j := j + 1;
      }
    }

    /** One round of BuildParagraphEditScript: the entries to append for the group at i, and where to go on. */
    static method NextGroup<T>(ses: seq<Entry<T>>, i: nat) returns (group: seq<Entry<T>>, next: nat)
      requires i < |ses|
      ensures group == Group(ses, i) && next == GroupEnd(ses, i)
    {
      hide Group, GroupEnd, PairAround;
      if ses[i].op == Common {
        GroupCommon(ses, i);
        return [ses[i]], i + 1;
      }
      var opCode := if ses[i].op == Add then Add else Delete;
      var oppositeOpCode := if ses[i].op == Add then Delete else Add;
      var j := EndOfRun(ses, i + 1, opCode);
      assert j == RunEnd(ses, i, opCode);
      var k := EndOfRun(ses, j, oppositeOpCode);
      if k - j > 1 {
        GroupAroundJ(ses, i, j, k);
        GroupEndAroundJ(ses, i, j, k);
        group, next := PairRuns(ses, i, j - 1, k - 1);
      } else {
        GroupKept(ses, i, j, k);
        group, next := ses[i..k], k;
      }
    }

    /** Pairs the run i..j with the longer run j + 1..k: surplus first, then the pairs. */
    static method PairRuns<T>(ses: seq<Entry<T>>, start: nat, j: nat, last: nat)
      returns (group: seq<Entry<T>>, next: nat)
      requires start <= j < last < |ses|
      ensures var pairs := Min(j + 1 - start, last - j);
              group == PairAround(ses, start, j + 1, pairs) && next == j + 1 + pairs
    {
      hide Interleave;
      var i, k := start, last;
      var numBefore := j - i + 1;
      var numAfter := k - j;
      group := [];
      if numBefore > numAfter {
        var i2 := i + numBefore - numAfter;
        group := ses[i..i2];
        i := i2;
      } else if numAfter > numBefore {
        k := k - (numAfter - numBefore);
      }
      var pairs := PairParagraphs(ses, i, j);
      group := group + pairs;
      next := k + 1;
    }

    static method BuildParagraphEditScript<T>(ses: seq<Entry<T>>) returns (r: seq<Entry<T>>)
      ensures r == Paired(ses) && PairsUp(ses, r)
    {
      hide PairedFrom, Group, GroupEnd, PairsUp;
      PairedPairsUp(ses);
      r := [];
      var i := 0;
      NothingLeftToPair(ses);
      while i < |ses|
        invariant 0 <= i <= |ses|
        invariant r + PairedFrom(ses, i) == Paired(ses)
        decreases |ses| - i
      {
        PairedFromStep(ses, i, r);
        var group, next := NextGroup(ses, i);
        r := r + group;
        i := next;
      }
    }

    /** A shortest script between the two texts, or nothing when the comparison gives up. Its entries are the
        compared objects: asked for after `ShortDiff`, they hold the grouped texts, and the script still
        spells the two texts if and only if nothing but empty texts continues a run. */
    method Diff() returns (r: TokenScript)
      requires Valid()
      modifies this`backtrack, this`path, this`shortestPath, this`fullDiff
      ensures Valid() && fullDiff == Some(r) && shortestPath.Some?
      ensures old(shortestPath).Some? ==> shortestPath == old(shortestPath)
      ensures Shows(r, Shown())
      ensures GivesUp(before, after) ==> r == []
      ensures !GivesUp(before, after) ==> Shortest(TextScript(), before, after)
      ensures !GivesUp(before, after) ==>
                (Before(Shown()) == before && After(Shown()) == after <==> shortDiff.None? || QuietRuns(TextScript()))
    {
      hide Exchanged, PathFor, Original, Grouped, Shows, Heads, Merged, Paired, EditScript, Shortest, GivesUp,
        QuietRuns, Project;
      if fullDiff.None? {
        var points := Compose();
        r := BuildEditScript(points);
        fullDiff := Some(r);
      }
      r := fullDiff.value;
      ScriptIsShown();
      ScriptIsShortest();
      if !GivesUp(before, after) { ShownSpellsIff(); }
    }

    /** The same script with every run concatenated, in the object of its first entry. Nothing else changes,
        but a script that holds these objects, from an earlier or a later `Diff`, shows the run in them. */
    method ShortDiff() returns (r: TokenScript)
      requires Valid() && Distinct(a, b)
      modifies this`backtrack, this`path, this`shortestPath, this`shortDiff, a, b
      ensures Valid() && shortDiff == Some(r) && shortestPath.Some?
      ensures old(shortestPath).Some? ==> shortestPath == old(shortestPath)
      ensures Shows(r, Runs(TextScript())) && Untouched(a, b, aText, bText, r)
      ensures fullDiff.Some? ==> Shows(fullDiff.value, Merged(TextScript()))
      ensures GivesUp(before, after) ==> r == []
      ensures !GivesUp(before, after) ==> Shortest(TextScript(), before, after)
    {
      hide Exchanged, PathFor, Distinct, Shows, Heads, Merged, Paired, EditScript, Shortest, GivesUp, Runs,
        Untouched, Texts;
      if shortDiff.None? {
        var points := Compose();
        r := BuildShortEditScript(points);
        shortDiff := Some(r);
      }
      r := shortDiff.value;
      ScriptIsShown();
      ScriptIsShortest();
      HeadsShow(EditScript(a, b, reverse, shortestPath.value), Merged(TextScript()));
      HeadsOfMerged(TextScript());
      NoHeads<Token>();
    }

    /** The shortest script with neighbouring deletions and additions paired; the same objects as in `Diff`. */
    method ParagraphDiff() returns (r: TokenScript)
      requires Valid()
      modifies this`backtrack, this`path, this`shortestPath, this`fullDiff, this`paragraphs
      ensures Valid() && fullDiff.Some? && shortestPath.Some? && r == Paired(fullDiff.value)
      ensures PairsUp(fullDiff.value, r) && PairsUp(Shown(), Paired(Shown()))
      ensures Kept(r, Add) == Kept(fullDiff.value, Add) && Kept(r, Delete) == Kept(fullDiff.value, Delete)
      ensures multiset(r) == multiset(fullDiff.value)
      ensures Shows(r, Paired(Shown()))
      ensures GivesUp(before, after) ==> r == []
      ensures !GivesUp(before, after) ==>
                var s := Paired(Shown());
                Before(s) == before && After(s) == after <==> shortDiff.None? || QuietRuns(TextScript())
    {
      hide Exchanged, PathFor, Original, Grouped, Shows, Heads, Merged, Paired, EditScript, Shortest, GivesUp,
        QuietRuns, Kept, Project, PairsUp;
      if paragraphs.None? {
        var ses := Diff();
        r := BuildParagraphEditScript(ses);
        paragraphs := Some(r);
      }
      r := paragraphs.value;
      PairedKeepsSides(fullDiff.value);
      PairedPairsUp(fullDiff.value);
      PairedPairsUp(Shown());
      ScriptIsShown();
      ScriptIsShortest();
      PairedShows(fullDiff.value, Shown());
      PairedSpells(Shown());
      if !GivesUp(before, after) { ShownSpellsIff(); }
      NothingPaired<Token>();
    }

    lemma ScriptIsShown()
      requires Valid() && shortestPath.Some?
      ensures Shows(EditScript(a, b, reverse, shortestPath.value), Shown())
    {
      hide Exchanged, PathFor, Shows, Heads, Merged, Paired, EditScript, Staircase;
      if shortDiff.None? { ScriptShows(a, b, reverse, shortestPath.value); }
    }

    lemma ScriptIsShortest()
      requires Valid() && shortestPath.Some?
      ensures GivesUp(before, after) ==> EditScript(a, b, reverse, shortestPath.value) == []
      ensures !GivesUp(before, after) ==> Shortest(TextScript(), before, after)
    {
      hide Exchanged, PathFor, Heads, Merged, Paired, EditScript, Staircase, Shortest, GivesUp;
      PathGivesShortest(aText, bText, reverse, before, after, shortestPath.value);
      ScriptIsShown();
    }

    lemma ShownSpellsIff()
      requires Valid() && shortestPath.Some? && !GivesUp(before, after)
      ensures Before(Shown()) == before && After(Shown()) == after <==> shortDiff.None? || QuietRuns(TextScript())
    {
      hide Exchanged, PathFor, Heads, Merged, Paired, EditScript, Staircase, GivesUp, QuietRuns, Project, Shows;
      ScriptIsShortest();
      MergedSpellsIff(TextScript());
    }
  }

  /** `ONPDiff.new(before, after).short_diff` on freshly split texts, as texts. */
  method ShortDiffOf(before: seq<string>, after: seq<string>) returns (r: Script)
    ensures GivesUp(before, after) ==> r == []
    ensures !GivesUp(before, after) ==> exists s :: Shortest(s, before, after) && r == Runs(s)
  {
    hide Shortest, GivesUp, Runs, Shows, Texts;
    var b := NewTokens(before);
    var a := NewTokens(after);
    assert forall i, j :: 0 <= i < |b| && 0 <= j < |a| ==> b[i] != a[j];
    var d := new ONPDiff(b, a);
    r := ShortTexts(d);
  }

  method ShortTexts(d: ONPDiff) returns (r: Script)
    requires d.Valid() && Distinct(d.a, d.b)
    modifies d`backtrack, d`path, d`shortestPath, d`shortDiff, d.a, d.b
    ensures GivesUp(d.before, d.after) ==> r == []
    ensures !GivesUp(d.before, d.after) ==> exists s :: Shortest(s, d.before, d.after) && r == Runs(s)
  {
    hide Shortest, GivesUp, Runs, Texts, Merged, Distinct;
    var ses := d.ShortDiff();
    ghost var s := d.TextScript();
    assert Shows(ses, Runs(s));
    r := Spelled(ses);
    ShowsOnce(ses, r, Runs(s));
    if GivesUp(d.before, d.after) { ShowsNothing(ses, r); }
  }

  lemma ShowsNothing(u: TokenScript, s: Script)
    requires Shows(u, s) && u == []
    ensures s == []
  {
  }

  // ---------------------------------------------------------------- a diff after a short diff

  function CommonScript(texts: seq<string>): Script {
    seq(|texts|, i requires 0 <= i < |texts| => Entry(texts[i], Common))
  }

  /** Comparing a text with itself gives its elements as common entries. */
  lemma EqualTexts(s: Script, texts: seq<string>)
    requires Shortest(s, texts, texts)
    ensures s == CommonScript(texts)
  {
    LcsOfEqual(texts, |texts|);
    OnlyCommon(s);
  }

  lemma EqualTextsFinish(texts: seq<string>)
    ensures !GivesUp(texts, texts)
  {
    LcsOfEqual(texts, |texts|);
  }

  lemma {:induction false} CommonSides(s: Script)
    requires forall i :: 0 <= i < |s| ==> s[i].op == Common
    ensures Before(s) == After(s)
  {
    if s != [] { CommonSides(s[..|s| - 1]); }
  }

  /** Of a text compared with itself the grouped objects spell both sides, or neither. */
  lemma EqualTextsForgetIff(texts: seq<string>)
    ensures var r := Merged(CommonScript(texts));
            && Before(r) == After(r)
            && (Before(r) == texts <==> forall i :: 0 < i < |texts| ==> texts[i] == "")
  {
    var s := CommonScript(texts);
    assert forall i :: 0 <= i < |s| ==> s[i].op == Common;
    hide Merged, Project, QuietRuns, CommonScript;
    MergedSpellsIff(s);
    CommonSides(Merged(s));
    CommonSides(s);
    CommonSpells(texts);
    QuietTexts(texts);
  }

  lemma QuietTexts(texts: seq<string>)
    ensures QuietRuns(CommonScript(texts)) <==> forall i :: 0 < i < |texts| ==> texts[i] == ""
  {
    var s := CommonScript(texts);
    if QuietRuns(s) {
      forall i | 0 < i < |texts| ensures texts[i] == "" {
        assert s[i].op == s[i - 1].op && s[i].text == texts[i];
      }
    }
  }

  lemma {:induction false} CommonSpells(texts: seq<string>)
    ensures Before(CommonScript(texts)) == texts
  {
    if texts != [] {
      var init := texts[..|texts| - 1];
      CommonSpells(init);
      var s := CommonScript(texts);
      assert s[..|s| - 1] == CommonScript(init) && texts == init + [texts[|texts| - 1]];
    }
  }

  /** `short_diff` and then `diff` of an array and an equal one: unless all elements but the first are empty,
      the diff spells neither text. */
  method DiffAfterShortDiff(texts: seq<string>) returns (r: Script)
    ensures r == Merged(CommonScript(texts))
    ensures Before(r) == texts <==> forall i :: 0 < i < |texts| ==> texts[i] == ""
    ensures After(r) == texts <==> forall i :: 0 < i < |texts| ==> texts[i] == ""
  {
    hide Shortest, GivesUp, Merged, Texts, CommonScript;
    EqualTextsFinish(texts);
    EqualTextsForgetIff(texts);
    var b := NewTokens(texts);
    var a := NewTokens(texts);
    assert forall i, j :: 0 <= i < |b| && 0 <= j < |a| ==> b[i] != a[j];
    var d := new ONPDiff(b, a);
    r := GroupThenDiff(d);
    ghost var s: Script :| Shortest(s, texts, texts) && r == Merged(s);
    EqualTexts(s, texts);
  }

  method GroupThenDiff(d: ONPDiff) returns (r: Script)
    requires d.Valid() && Distinct(d.a, d.b) && !GivesUp(d.before, d.after)
    modifies d`backtrack, d`path, d`shortestPath, d`fullDiff, d`shortDiff, d.a, d.b
    ensures exists s: Script :: Shortest(s, d.before, d.after) && r == Merged(s)
  {
    hide Shortest, GivesUp, Merged, Runs, Distinct, Texts, Exchanged, PathFor, Staircase, Heads, Paired, EditScript,
      ONPDiff.Grouped, ONPDiff.Original;
    var short := d.ShortDiff();
    var ses := d.Diff();
    ghost var s := d.TextScript();
    assert Shows(ses, Merged(s));
    r := Spelled(ses);
    ShowsOnce(ses, r, Merged(s));
  }

  /** Two equal arrays of two strings: neither text is spelled. */
  method TwoEqualTokens() returns (r: Script)
    ensures r == [Entry("ab", Common), Entry("b", Common)]
    ensures Before(r) != ["a", "b"] && After(r) != ["a", "b"]
  {
    r := DiffAfterShortDiff(["a", "b"]);
    MergedForgets();
    assert CommonScript(["a", "b"]) == [Entry("a", Common), Entry("b", Common)];
    var texts := ["a", "b"];
    assert 0 < 1 < |texts| && texts[1] != "";
  }

  lemma NothingPaired<T>()
    ensures Paired<T>([]) == []
  {
  }
}
