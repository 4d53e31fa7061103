/** Traces: the corner points of an edit path, last point first, and the script they stand for. */
module EditTraces {
  import opened LcsGrid
  import opened EditScripts

  datatype Point = Point(x: int, y: int)

  /** `q` lies on the diagonal next to `p`, one deletion below or one addition above,
      followed by matching elements only. */
  ghost predicate Linked(a: seq<string>, b: seq<string>, p: Point, q: Point) {
    && 0 <= p.x <= q.x <= |a| && 0 <= p.y <= q.y <= |b|
    && ((q.y - q.x == p.y - p.x + 1 && a[p.x..q.x] == b[p.y + 1..q.y])
        || (q.y - q.x == p.y - p.x - 1 && a[p.x + 1..q.x] == b[p.y..q.y]))
  }

  ghost predicate Root(a: seq<string>, b: seq<string>, q: Point) {
    0 <= q.x == q.y <= |a| && q.y <= |b| && a[..q.x] == b[..q.y]
  }

  ghost predicate Trace(a: seq<string>, b: seq<string>, points: seq<Point>) {
    && points != []
    && Root(a, b, points[|points| - 1])
    && forall i :: 0 <= i < |points| - 1 ==> Linked(a, b, points[i + 1], points[i])
  }

  /** The number of steps of a trace that go down one diagonal. */
  ghost function DeletionSteps(points: seq<Point>): nat {
    if |points| < 2 then 0
    else DeletionSteps(points[1..])
         + (if points[0].y - points[0].x < points[1].y - points[1].x then 1 else 0)
  }

  /** Inputs may have been exchanged: then additions and deletions change places. */
  function Orient(reverse: bool, op: Op): Op {
    if !reverse || op == Common then op else if op == Add then Delete else Add
  }

  predicate Ascending<T>(a: seq<T>, b: seq<T>, p: Point, q: Point) {
    0 <= p.x <= q.x <= |a| && 0 <= p.y <= q.y <= |b|
  }

  /** The entry for one step from p towards q's diagonal, or along it. */
  function StepEntry<T>(a: seq<T>, b: seq<T>, reverse: bool, p: Point, q: Point): Entry<T>
    requires Ascending(a, b, p, q) && p != q
  {
    if q.y - q.x > p.y - p.x then Entry(b[p.y], Orient(reverse, Add))
    else if q.y - q.x < p.y - p.x then Entry(a[p.x], Orient(reverse, Delete))
    else Entry(a[p.x], Common)
  }

  function StepPoint(p: Point, q: Point): Point {
    if q.y - q.x > p.y - p.x then Point(p.x, p.y + 1)
    else if q.y - q.x < p.y - p.x then Point(p.x + 1, p.y)
    else Point(p.x + 1, p.y + 1)
  }

  /** Entries on the way from p to q: step towards q's diagonal, then along it. */
  function Segment<T>(a: seq<T>, b: seq<T>, reverse: bool, p: Point, q: Point): seq<Entry<T>>
    requires Ascending(a, b, p, q)
    decreases q.x - p.x + q.y - p.y
  {
    if p == q then [] else [StepEntry(a, b, reverse, p, q)] + Segment(a, b, reverse, StepPoint(p, q), q)
  }

  /** What is written and what is still to come stay the same together. */
  lemma SegmentStep<T>(a: seq<T>, b: seq<T>, reverse: bool, p: Point, q: Point, written: seq<Entry<T>>)
    requires Ascending(a, b, p, q) && p != q
    ensures Ascending(a, b, StepPoint(p, q), q)
    ensures written + Segment(a, b, reverse, p, q)
         == (written + [StepEntry(a, b, reverse, p, q)]) + Segment(a, b, reverse, StepPoint(p, q), q)
  {
  }

  ghost predicate Staircase<T>(a: seq<T>, b: seq<T>, points: seq<Point>) {
    && (forall i :: 0 <= i < |points| - 1 ==> Ascending(a, b, points[i + 1], points[i]))
    && (points != [] ==> Ascending(a, b, Point(0, 0), points[|points| - 1]))
  }

  function Source(points: seq<Point>): Point {
    if points == [] then Point(0, 0) else points[0]
  }

  function EditScript<T>(a: seq<T>, b: seq<T>, reverse: bool, points: seq<Point>): seq<Entry<T>>
    requires Staircase(a, b, points)
  {
    if points == [] then []
    else
      assert Ascending(a, b, Source(points[1..]), points[0]);
      EditScript(a, b, reverse, points[1..]) + Segment(a, b, reverse, Source(points[1..]), points[0])
  }

  lemma StaircaseTail<T>(a: seq<T>, b: seq<T>, points: seq<Point>, i: nat)
    requires Staircase(a, b, points) && i <= |points|
    ensures Staircase(a, b, points[i..])
    ensures i < |points| ==> Ascending(a, b, Source(points[i + 1..]), points[i])
    ensures i < |points| ==> points[i..][1..] == points[i + 1..]
  {
    var rest := points[i..];
    forall j | 0 <= j < |rest| - 1 ensures Ascending(a, b, rest[j + 1], rest[j]) {
      assert Ascending(a, b, points[i + j + 1], points[i + j]);
    }
    if i + 1 < |points| { assert Ascending(a, b, points[i + 1], points[i]); }
  }

  lemma TraceIsStaircase(a: seq<string>, b: seq<string>, points: seq<Point>)
    requires Trace(a, b, points)
    ensures Staircase(a, b, points)
  {
    forall i | 0 <= i < |points| - 1 ensures Ascending(a, b, points[i + 1], points[i]) {
      assert Linked(a, b, points[i + 1], points[i]);
    }
  }

  lemma {:induction false} SegmentMatch(a: seq<string>, b: seq<string>, reverse: bool, p: Point, q: Point)
    requires Ascending(a, b, p, q) && q.y - q.x == p.y - p.x && a[p.x..q.x] == b[p.y..q.y]
    ensures var s := Segment(a, b, reverse, p, q);
            && Project(s, Orient(reverse, Add)) == a[p.x..q.x]
            && Project(s, Orient(reverse, Delete)) == b[p.y..q.y]
            && Count(s, Orient(reverse, Delete)) == 0
    decreases q.x - p.x
  {
    if p != q {
      var p' := Point(p.x + 1, p.y + 1);
      var e := Entry(a[p.x], Common);
      assert Segment(a, b, reverse, p, q) == [e] + Segment(a, b, reverse, p', q);
      SliceHead(a, p.x, q.x);
      SliceHead(b, p.y, q.y);
      assert a[p.x] == a[p.x..q.x][0] == b[p.y..q.y][0] == b[p.y];
      assert a[p'.x..q.x] == a[p.x..q.x][1..] == b[p.y..q.y][1..] == b[p'.y..q.y];
      SegmentMatch(a, b, reverse, p', q);
      ProjectOne(e, Orient(reverse, Add));
      ProjectOne(e, Orient(reverse, Delete));
      var rest := Segment(a, b, reverse, p', q);
      ProjectConcat([e], rest, Orient(reverse, Add));
      ProjectConcat([e], rest, Orient(reverse, Delete));
      CountConcat([e], rest, Orient(reverse, Delete));
      hide Project, Count, Segment, StepEntry, StepPoint;
    }
  }

  /** One entry in front of a diagonal segment. */
  lemma SegmentHead(a: seq<string>, b: seq<string>, reverse: bool, e: Entry<string>, p: Point, q: Point)
    requires Ascending(a, b, p, q) && q.y - q.x == p.y - p.x && a[p.x..q.x] == b[p.y..q.y]
    ensures var s := [e] + Segment(a, b, reverse, p, q);
            && Project(s, Orient(reverse, Add)) == Project([e], Orient(reverse, Add)) + a[p.x..q.x]
            && Project(s, Orient(reverse, Delete)) == Project([e], Orient(reverse, Delete)) + b[p.y..q.y]
            && Count(s, Orient(reverse, Delete)) == Count([e], Orient(reverse, Delete))
  {
    var t := Segment(a, b, reverse, p, q);
    SegmentMatch(a, b, reverse, p, q);
    ProjectConcat([e], t, Orient(reverse, Add));
    ProjectConcat([e], t, Orient(reverse, Delete));
    CountConcat([e], t, Orient(reverse, Delete));
  }

  lemma SliceHead(s: seq<string>, i: nat, j: nat)
    requires i < j <= |s|
    ensures s[i..j] == [s[i]] + s[i + 1..j]
  {
  }

  lemma ProjectOne(e: Entry<string>, dropped: Op)
    ensures Project([e], dropped) == if e.op == dropped then [] else [e.text]
    ensures Count([e], dropped) == if e.op == dropped then 1 else 0
  {
    assert [e][..0] == [];
  }

  /** A link starts with one step off the diagonal. */
  lemma SegmentOfLink(a: seq<string>, b: seq<string>, reverse: bool, p: Point, q: Point)
    returns (e: Entry<string>, p': Point)
    requires Linked(a, b, p, q)
    ensures if q.y - q.x < p.y - p.x
            then p' == Point(p.x + 1, p.y) && p.x < q.x && e == Entry(a[p.x], Orient(reverse, Delete))
            else p' == Point(p.x, p.y + 1) && p.y < q.y && e == Entry(b[p.y], Orient(reverse, Add))
    ensures Ascending(a, b, p', q) && q.y - q.x == p'.y - p'.x && a[p'.x..q.x] == b[p'.y..q.y]
    ensures Segment(a, b, reverse, p, q) == [e] + Segment(a, b, reverse, p', q)
  {
    var down := q.y - q.x < p.y - p.x;
    p' := if down then Point(p.x + 1, p.y) else Point(p.x, p.y + 1);
    e := if down then Entry(a[p.x], Orient(reverse, Delete)) else Entry(b[p.y], Orient(reverse, Add));
  }

  lemma SegmentLinked(a: seq<string>, b: seq<string>, reverse: bool, p: Point, q: Point)
    requires Linked(a, b, p, q)
    ensures Ascending(a, b, p, q)
    ensures var s := Segment(a, b, reverse, p, q);
            && Project(s, Orient(reverse, Add)) == a[p.x..q.x]
            && Project(s, Orient(reverse, Delete)) == b[p.y..q.y]
            && Count(s, Orient(reverse, Delete)) == (if q.y - q.x < p.y - p.x then 1 else 0)
  {
    hide Project, Count, Segment;
    assert Ascending(a, b, p, q);
    var e, p' := SegmentOfLink(a, b, reverse, p, q);
    hide Linked;
    SegmentHead(a, b, reverse, e, p', q);
    ProjectOne(e, Orient(reverse, Add));
    ProjectOne(e, Orient(reverse, Delete));
    if p'.x > p.x { SliceHead(a, p.x, q.x); } else { SliceHead(b, p.y, q.y); }
  }

  /** What a script must be to lead from the origin to q with d deletions. */
  ghost predicate Spells(a: seq<string>, b: seq<string>, reverse: bool, s: Script, q: Point, d: nat) {
    && 0 <= q.x <= |a| && 0 <= q.y <= |b|
    && Project(s, Orient(reverse, Add)) == a[..q.x]
    && Project(s, Orient(reverse, Delete)) == b[..q.y]
    && Count(s, Orient(reverse, Delete)) == d
  }

  lemma SpellsAppend(a: seq<string>, b: seq<string>, reverse: bool, s: Script, t: Script, p: Point, q: Point,
                     d: nat, e: nat)
    requires Spells(a, b, reverse, s, p, d) && Ascending(a, b, p, q)
    requires Project(t, Orient(reverse, Add)) == a[p.x..q.x]
    requires Project(t, Orient(reverse, Delete)) == b[p.y..q.y]
    requires Count(t, Orient(reverse, Delete)) == e
    ensures Spells(a, b, reverse, s + t, q, d + e)
  {
    ProjectConcat(s, t, Orient(reverse, Add));
    ProjectConcat(s, t, Orient(reverse, Delete));
    CountConcat(s, t, Orient(reverse, Delete));
    assert a[..q.x] == a[..p.x] + a[p.x..q.x];
    assert b[..q.y] == b[..p.y] + b[p.y..q.y];
  }

  lemma TraceTail(a: seq<string>, b: seq<string>, points: seq<Point>)
    requires Trace(a, b, points) && |points| > 1
    ensures Trace(a, b, points[1..]) && Linked(a, b, points[1], points[0])
  {
    var rest := points[1..];
    forall i | 0 <= i < |rest| - 1 ensures Linked(a, b, rest[i + 1], rest[i]) {
      assert Linked(a, b, points[(i + 1) + 1], points[i + 1]);
    }
    assert Linked(a, b, points[0 + 1], points[0]);
  }

  /** The script of a trace spells both prefixes at its end point, with one
      deletion for each step down a diagonal. */
  lemma {:induction false} EditScriptSpells(a: seq<string>, b: seq<string>, reverse: bool, points: seq<Point>)
    requires Trace(a, b, points)
    ensures Staircase(a, b, points)
    ensures Spells(a, b, reverse, EditScript(a, b, reverse, points), points[0], DeletionSteps(points))
    decreases |points|
  {
    TraceIsStaircase(a, b, points);
    var q := points[0];
    if |points| == 1 {
      assert a[0..q.x] == a[..q.x] && b[0..q.y] == b[..q.y];
      SegmentMatch(a, b, reverse, Point(0, 0), q);
      assert points[1..] == [];
      assert EditScript(a, b, reverse, points)
          == [] + Segment(a, b, reverse, Point(0, 0), q)
          == Segment(a, b, reverse, Point(0, 0), q);
    } else {
      TraceTail(a, b, points);
      EditScriptSpells(a, b, reverse, points[1..]);
      var p := points[1];
      SegmentLinked(a, b, reverse, p, q);
      SpellsAppend(a, b, reverse, EditScript(a, b, reverse, points[1..]), Segment(a, b, reverse, p, q), p, q,
                   DeletionSteps(points[1..]), if q.y - q.x < p.y - p.x then 1 else 0);
    }
  }
}
