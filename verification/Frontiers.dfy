/** The state of one greedy round: the furthest row of every diagonal, and the
    backtracking list that remembers how each was reached. Both arrays are indexed
    by diagonal plus the offset |a| + 1. */
module Frontiers {
  import opened LcsGrid
  import opened EditTraces

  /** One entry of the backtracking list: an end point and the entry before it, or -1. */
  datatype Visit = Visit(x: int, y: int, prev: int) {
    function Here(): Point { Point(x, y) }
  }

  function Offset(a: seq<string>): int { |a| + 1 }

  function Delta(a: seq<string>, b: seq<string>): int { |b| - |a| }

  function Size(a: seq<string>, b: seq<string>): nat { |a| + |b| + 3 }

  predicate Indexed(a: seq<string>, b: seq<string>, k: int) {
    0 <= k + Offset(a) < Size(a, b)
  }

  function At(a: seq<string>, b: seq<string>, s: seq<int>, k: int): int
    requires |s| == Size(a, b) && Indexed(a, b, k)
  {
    s[k + Offset(a)]
  }

  /** Deletions allowed on diagonal k in round p: beyond delta each diagonal costs one more. */
  function Budget(a: seq<string>, b: seq<string>, p: int, k: int): int {
    p - Max(0, k - Delta(a, b))
  }

  /** Diagonals from lo to hi still hold round p - 1, all others already hold round p. */
  function RoundAt(p: int, lo: int, hi: int, k: int): int {
    if lo <= k <= hi then p - 1 else p
  }

  ghost predicate Swept(a: seq<string>, b: seq<string>, p: int, lo: int, hi: int, fp: seq<int>) {
    && |fp| == Size(a, b)
    && forall k :: Indexed(a, b, k) ==> Furthest(a, b, Budget(a, b, RoundAt(p, lo, hi, k), k), k, At(a, b, fp, k))
  }

  /** All diagonals hold round p. */
  ghost predicate Frontier(a: seq<string>, b: seq<string>, p: int, fp: seq<int>) {
    Swept(a, b, p, 1, 0, fp)
  }

  /** The diagonal whose turn it is: up to delta from below, down to delta from above, then delta. */
  predicate Turn(a: seq<string>, b: seq<string>, p: int, lo: int, hi: int, k: int) {
    var delta := Delta(a, b);
    || (lo == k < delta && hi == delta + p && -p <= k)
    || (lo == delta < k == hi && k <= delta + p)
    || (lo == hi == k == delta)
  }

  /** Rounds below p have not reached the far corner. */
  ghost predicate Unfinished(a: seq<string>, b: seq<string>, p: int) {
    Deletions(a, b, |a|, |b|) >= p
  }

  lemma UnfinishedBound(a: seq<string>, b: seq<string>, p: int)
    requires |a| <= |b| && Unfinished(a, b, p)
    ensures p <= |a|
  {
    PrefixLcsBounds(a, b, |a|, |b|);
  }

  lemma VisitedRow(a: seq<string>, b: seq<string>, q: int, k: int, y: int)
    requires |a| <= |b| && 0 <= q <= |a| && -q <= k <= Delta(a, b) + q
    requires Furthest(a, b, Budget(a, b, q, k), k, y)
    ensures y >= 0
  {
    var z := Max(0, k);
    assert OnGrid(a, b, k, z);
    DeletionsTowards(a, b, 0, 0, z - k, z);
  }

  lemma UnvisitedRow(a: seq<string>, b: seq<string>, q: int, k: int, y: int)
    requires |a| <= |b| && (q < 0 || k < -q || k > Delta(a, b) + q)
    ensures Furthest(a, b, Budget(a, b, q, k), k, y) <==> y == -1
  {
    forall z | OnGrid(a, b, k, z) ensures Deletions(a, b, z - k, z) > Budget(a, b, q, k) {
      DeletionsAtLeastDiagonal(a, b, z - k, z);
    }
  }

  lemma FirstFrontier(a: seq<string>, b: seq<string>, fp: seq<int>)
    requires |a| <= |b| && |fp| == Size(a, b) && forall i :: 0 <= i < |fp| ==> fp[i] == -1
    ensures Frontier(a, b, -1, fp)
  {
    forall k | Indexed(a, b, k) ensures Furthest(a, b, Budget(a, b, -1, k), k, At(a, b, fp, k)) {
      UnvisitedRow(a, b, -1, k, -1);
    }
  }

  lemma OpenRound(a: seq<string>, b: seq<string>, p: int, fp: seq<int>)
    requires |a| <= |b| && p >= 0 && Frontier(a, b, p - 1, fp)
    ensures Swept(a, b, p, -p, Delta(a, b) + p, fp)
  {
    forall k | Indexed(a, b, k)
      ensures Furthest(a, b, Budget(a, b, RoundAt(p, -p, Delta(a, b) + p, k), k), k, At(a, b, fp, k))
    {
      if k < -p || k > Delta(a, b) + p {
        UnvisitedRow(a, b, p - 1, k, At(a, b, fp, k));
        UnvisitedRow(a, b, p, k, -1);
      }
    }
  }

  /** Before the last round no diagonal up to delta touches the last column
      and none from delta on touches the last row. */
  lemma InsideBeforeExit(a: seq<string>, b: seq<string>, p: int, k: int, y: int)
    requires |a| <= |b| && Unfinished(a, b, p)
    requires Furthest(a, b, Budget(a, b, p - 1, k), k, y) && y >= 0
    ensures k <= Delta(a, b) ==> y - k < |a|
    ensures k >= Delta(a, b) ==> y < |b|
  {
    assert OnGrid(a, b, k, y);
    DeletionsTowards(a, b, y - k, y, |a|, |b|);
  }

  ghost predicate Start(a: seq<string>, b: seq<string>, k: int, below: int, above: int) {
    && OnGrid(a, b, k, Max(below + 1, above))
    && (below == -1 ==> above >= 0 || (k == 0 && above == -1))
    && below >= -1 && above >= -1
  }

  /** A neighbouring diagonal holds the budget the greedy step needs: that of round p on the side already
      swept, one less on the other. */
  lemma NeighboursSwept(a: seq<string>, b: seq<string>, p: int, lo: int, hi: int, k: int, fp: seq<int>)
    requires |a| <= |b| && p >= 0 && Unfinished(a, b, p) && Swept(a, b, p, lo, hi, fp) && Turn(a, b, p, lo, hi, k)
    ensures Indexed(a, b, k - 1) && Indexed(a, b, k + 1)
    ensures Furthest(a, b, Budget(a, b, p, k), k - 1, At(a, b, fp, k - 1))
    ensures Furthest(a, b, Budget(a, b, p, k) - 1, k + 1, At(a, b, fp, k + 1))
    ensures p <= |a| && Budget(a, b, p, k) >= 0 && -p <= k <= Delta(a, b) + p
  {
    UnfinishedBound(a, b, p);
    hide Furthest;
    assert Indexed(a, b, k - 1) && Indexed(a, b, k + 1);
    assert Budget(a, b, RoundAt(p, lo, hi, k - 1), k - 1) == Budget(a, b, p, k);
    assert Budget(a, b, RoundAt(p, lo, hi, k + 1), k + 1) == Budget(a, b, p, k) - 1;
  }

  lemma StartBelowDelta(a: seq<string>, b: seq<string>, p: int, k: int, below: int, above: int)
    requires |a| <= |b| && 0 <= p <= |a| && Unfinished(a, b, p) && -p <= k < Delta(a, b)
    requires Furthest(a, b, p, k - 1, below) && Furthest(a, b, p - 1, k + 1, above)
    ensures Start(a, b, k, below, above)
  {
    if p > 0 { VisitedRow(a, b, p - 1, k + 1, above); } else { UnvisitedRow(a, b, p - 1, k + 1, above); }
    if k == -p { UnvisitedRow(a, b, p, k - 1, below); } else { VisitedRow(a, b, p, k - 1, below); }
    if above >= 0 { InsideBeforeExit(a, b, p, k + 1, above); }
  }

  lemma StartAboveDelta(a: seq<string>, b: seq<string>, p: int, k: int, below: int, above: int)
    requires |a| <= |b| && 0 <= p <= |a| && Unfinished(a, b, p) && Delta(a, b) < k <= Delta(a, b) + p
    requires Furthest(a, b, Budget(a, b, p, k), k - 1, below) && Furthest(a, b, Budget(a, b, p, k) - 1, k + 1, above)
    ensures Start(a, b, k, below, above)
  {
    VisitedRow(a, b, p - 1, k - 1, below);
    InsideBeforeExit(a, b, p, k - 1, below);
  }

  lemma StartAtDelta(a: seq<string>, b: seq<string>, p: int, below: int, above: int)
    requires |a| <= |b| && 0 <= p <= |a|
    requires Furthest(a, b, p, Delta(a, b) - 1, below) && Furthest(a, b, p - 1, Delta(a, b) + 1, above)
    ensures Start(a, b, Delta(a, b), below, above)
  {
    var k := Delta(a, b);
    if k - 1 < -p { UnvisitedRow(a, b, p, k - 1, below); } else { VisitedRow(a, b, p, k - 1, below); }
    if p == 0 { UnvisitedRow(a, b, p, k + 1, above); }
  }

  /** The start of every snake lies on the grid, and its neighbours hold the budgets the greedy step needs. */
  lemma StartOnGrid(a: seq<string>, b: seq<string>, p: int, lo: int, hi: int, k: int, fp: seq<int>)
    requires |a| <= |b| && p >= 0 && Unfinished(a, b, p) && Swept(a, b, p, lo, hi, fp) && Turn(a, b, p, lo, hi, k)
    ensures Indexed(a, b, k - 1) && Indexed(a, b, k + 1)
    ensures Furthest(a, b, Budget(a, b, p, k), k - 1, At(a, b, fp, k - 1))
    ensures Furthest(a, b, Budget(a, b, p, k) - 1, k + 1, At(a, b, fp, k + 1))
    ensures Start(a, b, k, At(a, b, fp, k - 1), At(a, b, fp, k + 1))
    ensures Budget(a, b, p, k) >= 0
  {
    NeighboursSwept(a, b, p, lo, hi, k, fp);
    hide Furthest, Start;
    var (below, above) := (At(a, b, fp, k - 1), At(a, b, fp, k + 1));
    if k < Delta(a, b) {
      StartBelowDelta(a, b, p, k, below, above);
    } else if k > Delta(a, b) {
      StartAboveDelta(a, b, p, k, below, above);
    } else {
      StartAtDelta(a, b, p, below, above);
    }
  }

  /** A snake of round p on diagonal k ends at row y. */
  ghost predicate SnakeEnd(a: seq<string>, b: seq<string>, k: int, start: int, y: int) {
    && OnGrid(a, b, k, start) && OnGrid(a, b, k, y) && start <= y
    && a[start - k..y - k] == b[start..y]
    && (y - k < |a| && y < |b| ==> a[y - k] != b[y])
  }

  /** Storing the end of the snake completes the diagonal for round p. */
  lemma SweepDiagonal(a: seq<string>, b: seq<string>, p: int, lo: int, hi: int, k: int, fp: seq<int>, y: int)
    requires |a| <= |b| && p >= 0 && Unfinished(a, b, p) && Swept(a, b, p, lo, hi, fp) && Turn(a, b, p, lo, hi, k)
    requires Indexed(a, b, k - 1) && Indexed(a, b, k + 1)
    requires SnakeEnd(a, b, k, Max(At(a, b, fp, k - 1) + 1, At(a, b, fp, k + 1)), y)
    ensures Swept(a, b, p, if lo == k then k + 1 else lo, if lo == k then hi else k - 1, fp[k + Offset(a) := y])
  {
    StartOnGrid(a, b, p, lo, hi, k, fp);
    var (below, above) := (At(a, b, fp, k - 1), At(a, b, fp, k + 1));
    FurthestFromNeighbours(a, b, Budget(a, b, p, k), k, below, above, y);
    var (fp', lo', hi') := (fp[k + Offset(a) := y], if lo == k then k + 1 else lo, if lo == k then hi else k - 1);
    forall j | Indexed(a, b, j)
      ensures Furthest(a, b, Budget(a, b, RoundAt(p, lo', hi', j), j), j, At(a, b, fp', j))
    {
      if j != k {
        assert At(a, b, fp', j) == At(a, b, fp, j);
        assert RoundAt(p, lo', hi', j) == RoundAt(p, lo, hi, j);
      }
    }
  }

  /** The round ends at the far corner exactly when p deletions suffice. */
  lemma ExitTest(a: seq<string>, b: seq<string>, p: int, fp: seq<int>)
    requires |a| <= |b| && p >= 0 && Frontier(a, b, p, fp)
    ensures Indexed(a, b, Delta(a, b))
    ensures At(a, b, fp, Delta(a, b)) == |b| <==> Deletions(a, b, |a|, |b|) <= p
  {
    var (k, y) := (Delta(a, b), At(a, b, fp, Delta(a, b)));
    assert OnGrid(a, b, k, |b|);
    assert Furthest(a, b, p, k, y);
  }

  // ---------------------------------------------------------------- backtracking

  ghost predicate VisitOk(a: seq<string>, b: seq<string>, visits: seq<Visit>, dels: seq<nat>, i: int)
    requires 0 <= i < |visits| == |dels|
  {
    var v := visits[i];
    if v.prev == -1 then Root(a, b, v.Here()) && dels[i] == 0
    else
      && 0 <= v.prev < i
      && var u := visits[v.prev];
      && Linked(a, b, u.Here(), v.Here())
      && dels[i] == dels[v.prev] + (if v.y - v.x < u.y - u.x then 1 else 0)
  }

  /** dels[i] counts the deletions on the way to entry i of the backtracking list. */
  ghost predicate VisitsOk(a: seq<string>, b: seq<string>, visits: seq<Visit>, dels: seq<nat>) {
    && |visits| == |dels|
    && forall i :: 0 <= i < |visits| ==> VisitOk(a, b, visits, dels, i)
  }

  ghost predicate HeadOk(visits: seq<Visit>, dels: seq<nat>, k: int, row: int, head: int, budget: int) {
    if row == -1 then head == -1
    else
      && 0 <= head < |visits| == |dels|
      && visits[head].Here() == Point(row - k, row)
      && dels[head] <= budget
  }

  /** What a sweep has stored: the furthest row of every diagonal, the visit that set it, the backtracking
      list, and the deletions on the way to each of its entries. */
  datatype Sweep = Sweep(fp: seq<int>, path: seq<int>, visits: seq<Visit>, dels: seq<nat>)

  /** The head of diagonal k, within a budget. */
  ghost predicate HeadAt(a: seq<string>, b: seq<string>, s: Sweep, k: int, budget: int)
    requires |s.fp| == |s.path| == Size(a, b) && Indexed(a, b, k)
  {
    HeadOk(s.visits, s.dels, k, At(a, b, s.fp, k), At(a, b, s.path, k), budget)
  }

  /** Every diagonal's head is the visit that set its furthest row, within budget. */
  ghost predicate HeadsOk(a: seq<string>, b: seq<string>, p: int, lo: int, hi: int, s: Sweep) {
    && |s.fp| == |s.path| == Size(a, b)
    && forall k :: Indexed(a, b, k) ==> HeadAt(a, b, s, k, Budget(a, b, RoundAt(p, lo, hi, k), k))
  }

  lemma HeadsOpenRound(a: seq<string>, b: seq<string>, p: int, s: Sweep)
    requires HeadsOk(a, b, p - 1, 1, 0, s)
    ensures HeadsOk(a, b, p, -p, Delta(a, b) + p, s)
  {
    forall k | Indexed(a, b, k) ensures HeadAt(a, b, s, k, Budget(a, b, RoundAt(p, -p, Delta(a, b) + p, k), k)) {
      assert HeadAt(a, b, s, k, Budget(a, b, RoundAt(p - 1, 1, 0, k), k));
    }
  }

  /** Which earlier visit a new one continues. */
  function Choice(below: int, above: int, headBelow: int, headAbove: int): int {
    if below + 1 > above then headBelow else headAbove
  }

  lemma LinkedFromBelow(a: seq<string>, b: seq<string>, k: int, below: int, y: int)
    requires below >= 0 && OnGrid(a, b, k - 1, below) && SnakeEnd(a, b, k, below + 1, y)
    ensures Linked(a, b, Point(below - (k - 1), below), Point(y - k, y))
  {
  }

  lemma LinkedFromAbove(a: seq<string>, b: seq<string>, k: int, above: int, y: int)
    requires above >= 0 && OnGrid(a, b, k + 1, above) && SnakeEnd(a, b, k, above, y)
    ensures Linked(a, b, Point(above - (k + 1), above), Point(y - k, y))
  {
  }

  lemma VisitOnGrid(a: seq<string>, b: seq<string>, visits: seq<Visit>, dels: seq<nat>, i: int)
    requires VisitsOk(a, b, visits, dels) && 0 <= i < |visits|
    ensures 0 <= visits[i].x <= |a| && 0 <= visits[i].y <= |b|
  {
    assert VisitOk(a, b, visits, dels, i);
  }

  lemma VisitsAppend(a: seq<string>, b: seq<string>, visits: seq<Visit>, dels: seq<nat>, v: Visit, d: nat)
    requires VisitsOk(a, b, visits, dels)
    requires VisitOk(a, b, visits + [v], dels + [d], |visits|)
    ensures VisitsOk(a, b, visits + [v], dels + [d])
  {
    var (visits', dels') := (visits + [v], dels + [d]);
    forall i | 0 <= i < |visits'| ensures VisitOk(a, b, visits', dels', i) {
      if i < |visits| {
        assert VisitOk(a, b, visits, dels, i);
        hide Root, Linked;
      }
    }
  }

  lemma ContinuesAbove(a: seq<string>, b: seq<string>, k: int, above: int, head: int, visits: seq<Visit>,
                       dels: seq<nat>, y: int)
    requires VisitsOk(a, b, visits, dels) && above >= 0 && SnakeEnd(a, b, k, above, y)
    requires 0 <= head < |visits| == |dels| && visits[head].Here() == Point(above - (k + 1), above)
    ensures VisitOk(a, b, visits + [Visit(y - k, y, head)], dels + [dels[head] + 1], |visits|)
  {
    VisitOnGrid(a, b, visits, dels, head);
    LinkedFromAbove(a, b, k, above, y);
    hide Linked, SnakeEnd, VisitsOk;
  }

  lemma ContinuesBelow(a: seq<string>, b: seq<string>, k: int, below: int, head: int, visits: seq<Visit>,
                       dels: seq<nat>, y: int)
    requires VisitsOk(a, b, visits, dels) && below >= 0 && SnakeEnd(a, b, k, below + 1, y)
    requires 0 <= head < |visits| == |dels| && visits[head].Here() == Point(below - (k - 1), below)
    ensures VisitOk(a, b, visits + [Visit(y - k, y, head)], dels + [dels[head]], |visits|)
  {
    VisitOnGrid(a, b, visits, dels, head);
    LinkedFromBelow(a, b, k, below, y);
    hide Linked, SnakeEnd, VisitsOk;
  }

  lemma StartsList(a: seq<string>, b: seq<string>, visits: seq<Visit>, dels: seq<nat>, y: int)
    requires |visits| == |dels| && SnakeEnd(a, b, 0, 0, y)
    ensures VisitOk(a, b, visits + [Visit(y, y, -1)], dels + [0], |visits|)
  {
    assert a[..y] == a[0..y] && b[..y] == b[0..y];
    assert Root(a, b, Visit(y, y, -1).Here());
  }

  /** The new visit continues a visit on the neighbouring diagonal, or starts the list. */
  lemma NewVisitOk(a: seq<string>, b: seq<string>, budget: int, k: int, below: int, above: int, headBelow: int,
                   headAbove: int, visits: seq<Visit>, dels: seq<nat>, y: int) returns (d: nat)
    requires VisitsOk(a, b, visits, dels) && budget >= 0
    requires Start(a, b, k, below, above) && SnakeEnd(a, b, k, Max(below + 1, above), y)
    requires HeadOk(visits, dels, k - 1, below, headBelow, budget)
    requires HeadOk(visits, dels, k + 1, above, headAbove, budget - 1)
    ensures var visit := Visit(y - k, y, Choice(below, above, headBelow, headAbove));
            VisitsOk(a, b, visits + [visit], dels + [d])
    ensures d <= budget
  {
    var r := Choice(below, above, headBelow, headAbove);
    assert |visits| == |dels|;
    hide SnakeEnd, VisitsOk, VisitOk;
    if below + 1 <= above {
      d := dels[r] + 1;
      ContinuesAbove(a, b, k, above, r, visits, dels, y);
    } else if below == -1 {
      d := 0;
      StartsList(a, b, visits, dels, y);
    } else {
      d := dels[r];
      ContinuesBelow(a, b, k, below, r, visits, dels, y);
    }
    VisitsAppend(a, b, visits, dels, Visit(y - k, y, r), d);
  }

  /** The sweep with one more visit, which becomes the head of diagonal k. */
  function WithVisit(a: seq<string>, b: seq<string>, s: Sweep, k: int, visit: Visit, d: nat): Sweep
    requires |s.fp| == |s.path| == Size(a, b) && Indexed(a, b, k)
  {
    Sweep(s.fp[k + Offset(a) := visit.y], s.path[k + Offset(a) := |s.visits|], s.visits + [visit], s.dels + [d])
  }

  lemma HeadsAfterVisit(a: seq<string>, b: seq<string>, p: int, lo: int, hi: int, k: int, s: Sweep, visit: Visit,
                        d: nat)
    requires HeadsOk(a, b, p, lo, hi, s) && |s.visits| == |s.dels| && Indexed(a, b, k)
    requires lo == k || hi == k
    requires visit.y >= 0 && visit.x == visit.y - k && d <= Budget(a, b, p, k)
    ensures HeadsOk(a, b, p, if lo == k then k + 1 else lo, if lo == k then hi else k - 1,
                    WithVisit(a, b, s, k, visit, d))
  {
    var s' := WithVisit(a, b, s, k, visit, d);
    var (lo', hi') := (if lo == k then k + 1 else lo, if lo == k then hi else k - 1);
    forall j | Indexed(a, b, j) ensures HeadAt(a, b, s', j, Budget(a, b, RoundAt(p, lo', hi', j), j)) {
      if j != k {
        assert HeadAt(a, b, s, j, Budget(a, b, RoundAt(p, lo, hi, j), j));
      }
    }
  }

  // ---------------------------------------------------------------- reading the path back

  ghost predicate Descending(visits: seq<Visit>) {
    forall i :: 0 <= i < |visits| ==> -1 <= visits[i].prev < i
  }

  /** The points from entry r back to the start of the list. */
  function Trail(visits: seq<Visit>, r: int): seq<Point>
    requires Descending(visits) && -1 <= r < |visits|
    decreases r
  {
    if r < 0 then [] else [visits[r].Here()] + Trail(visits, visits[r].prev)
  }

  lemma VisitsDescend(a: seq<string>, b: seq<string>, visits: seq<Visit>, dels: seq<nat>)
    requires VisitsOk(a, b, visits, dels)
    ensures Descending(visits)
  {
    forall i | 0 <= i < |visits| ensures -1 <= visits[i].prev < i {
      assert VisitOk(a, b, visits, dels, i);
    }
  }

  lemma TraceCons(a: seq<string>, b: seq<string>, q: Point, rest: seq<Point>)
    requires Trace(a, b, rest) && Linked(a, b, rest[0], q)
    ensures Trace(a, b, [q] + rest)
    ensures DeletionSteps([q] + rest) == DeletionSteps(rest) + (if q.y - q.x < rest[0].y - rest[0].x then 1 else 0)
  {
    var t := [q] + rest;
    assert t[1..] == rest;
    forall i | 0 <= i < |t| - 1 ensures Linked(a, b, t[i + 1], t[i]) {
      if i > 0 { assert Linked(a, b, rest[i - 1 + 1], rest[i - 1]); }
    }
  }

  lemma {:induction false} TrailIsTrace(a: seq<string>, b: seq<string>, visits: seq<Visit>, dels: seq<nat>, r: int)
    requires VisitsOk(a, b, visits, dels) && 0 <= r < |visits|
    ensures Descending(visits)
    ensures Trace(a, b, Trail(visits, r)) && DeletionSteps(Trail(visits, r)) == dels[r]
    ensures Trail(visits, r)[0] == visits[r].Here()
    decreases r
  {
    VisitsDescend(a, b, visits, dels);
    assert VisitOk(a, b, visits, dels, r);
    var prev := visits[r].prev;
    if prev == -1 {
      assert Trail(visits, r) == [visits[r].Here()];
    } else {
      TrailIsTrace(a, b, visits, dels, prev);
      TraceCons(a, b, visits[r].Here(), Trail(visits, prev));
      hide Trace, Linked, DeletionSteps;
    }
  }
}
