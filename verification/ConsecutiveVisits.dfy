/** The consecutive-visits query: users who visited on n days in a row, found by
    grouping dates by their distance to their rank. Dates are day numbers. */
module ConsecutiveVisits {
  import opened Collections

  /** One row per user and day. */
  type Visits = set<(int, int)>

  function Days(visits: Visits, user: int): set<int> {
    set v | v in visits && v.0 == user :: v.1
  }

  /** DENSE_RANK() of a value among distinct values: how many are not greater. */
  function DenseRank(values: set<int>, v: int): nat {
    |set w | w in values && w <= v|
  }

  /** visited_at minus its rank: constant along a run of days. */
  function Shift(days: set<int>, d: int): int {
    d - DenseRank(days, d)
  }

  function Group(days: set<int>, s: int): set<int> {
    set d | d in days && Shift(days, d) == s
  }

  /** The shifts of the groups that HAVING lets through. */
  function LargeShifts(days: set<int>, n: int): set<int> {
    set d | d in days && |Group(days, Shift(days, d))| >= n :: Shift(days, d)
  }

  /** d is the first day of the first large group. */
  predicate RankedFirst(days: set<int>, d: int, n: int) {
    && d in days
    && (forall e :: e in Group(days, Shift(days, d)) ==> d <= e)
    && |Group(days, Shift(days, d))| >= n
    && DenseRank(LargeShifts(days, n), Shift(days, d)) == 1
  }

  /** The rows of the query: user and the date the badge is granted at. */
  function Granted(visits: Visits, n: int): set<(int, int)> {
    set v | v in visits && RankedFirst(Days(visits, v.0), v.1, n) :: (v.0, v.1 + n)
  }

  // ---------------------------------------------------------------- what is meant

  /** Visits on n days in a row from d on. */
  predicate RunFrom(days: set<int>, d: int, n: int) {
    d in days && forall x :: d <= x < d + n ==> x in days
  }

  /** The earliest such run. */
  ghost predicate FirstRun(days: set<int>, d: int, n: int) {
    RunFrom(days, d, n) && forall e :: RunFrom(days, e, n) ==> d <= e
  }

  // ---------------------------------------------------------------- shifts

  function Between(days: set<int>, d: int, e: int): set<int> {
    set x | x in days && d < x <= e
  }

  ghost predicate Full(days: set<int>, d: int, e: int) {
    forall x :: d < x <= e ==> x in days
  }

  lemma {:induction false} BetweenSize(days: set<int>, d: int, e: int)
    requires d <= e
    ensures |Between(days, d, e)| <= e - d
    ensures |Between(days, d, e)| == e - d <==> Full(days, d, e)
    decreases e - d
  {
    if d == e {
      assert Between(days, d, e) == {};
    } else {
      BetweenSize(days, d, e - 1);
      assert Between(days, d, e) == if e in days then Between(days, d, e - 1) + {e} else Between(days, d, e - 1);
    }
  }

  /** The shift never falls, and stays the same exactly along days without a gap. */
  lemma ShiftGrows(days: set<int>, d: int, e: int)
    requires d <= e
    ensures Shift(days, d) <= Shift(days, e)
    ensures Shift(days, d) == Shift(days, e) <==> Full(days, d, e)
  {
    var (low, high) := ((set w | w in days && w <= d), (set w | w in days && w <= e));
    assert high == low + Between(days, d, e);
    BetweenSize(days, d, e);
  }

  lemma {:induction false} IntervalSize(s: set<int>, lo: int, hi: int)
    requires lo <= hi && forall x :: x in s ==> lo <= x < hi
    ensures |s| <= hi - lo
    decreases hi - lo
  {
    if lo == hi {
      assert s == {};
    } else {
      IntervalSize(s - {hi - 1}, lo, hi - 1);
    }
  }

  lemma {:induction false} IntervalInside(s: set<int>, d: int, n: nat)
    requires forall x :: d <= x < d + n ==> x in s
    ensures |s| >= n
    decreases n
  {
    if n > 0 {
      var rest := s - {d + n - 1};
      IntervalInside(rest, d, n - 1);
    }
  }

  /** The first day of a group of at least n days starts a run of n days. */
  lemma GroupStartsRun(days: set<int>, d: int, n: int)
    requires d in days && (forall e :: e in Group(days, Shift(days, d)) ==> d <= e)
    requires |Group(days, Shift(days, d))| >= n
    ensures RunFrom(days, d, n)
  {
    var g := Group(days, Shift(days, d));
    forall x | d <= x < d + n ensures x in days {
      if x !in days {
        forall e | e in g ensures d <= e < x {
          ShiftGrows(days, d, e);
        }
        IntervalSize(g, d, x);
      }
    }
  }

  /** A run of n days lies in one group, which is therefore large. */
  lemma RunIsLarge(days: set<int>, d: int, n: int)
    requires RunFrom(days, d, n)
    ensures Shift(days, d) in LargeShifts(days, n)
  {
    var g := Group(days, Shift(days, d));
    assert d in g;
    forall x | d <= x < d + n ensures x in g {
      ShiftGrows(days, d, x);
    }
    if n > 0 { IntervalInside(g, d, n); }
  }

  /** Rank 1 is the least value. */
  lemma RankOneIsLeast(values: set<int>, v: int)
    requires v in values
    ensures DenseRank(values, v) == 1 <==> forall w :: w in values ==> v <= w
  {
    var low := set w | w in values && w <= v;
    assert v in low;
    if w :| w in values && w < v {
      assert w in low - {v};
      assert |low| == |low - {v}| + 1 && |low - {v}| == |low - {v} - {w}| + 1;
    } else {
      assert low == {v};
    }
  }

  /** The ranked query row is the start of the earliest run. */
  lemma RankedFirstIsFirstRun(days: set<int>, d: int, n: int)
    ensures RankedFirst(days, d, n) <==> FirstRun(days, d, n)
  {
    if RankedFirst(days, d, n) {
      GroupStartsRun(days, d, n);
      assert Shift(days, d) in LargeShifts(days, n);
      RankOneIsLeast(LargeShifts(days, n), Shift(days, d));
      forall e | RunFrom(days, e, n) ensures d <= e {
        RunIsLarge(days, e, n);
        if e < d { ShiftGrows(days, e, d); }
        assert e in Group(days, Shift(days, d)) || d <= e;
      }
    }
    if FirstRun(days, d, n) {
      FirstRunIsRanked(days, d, n);
    }
  }

  lemma FirstRunIsRanked(days: set<int>, d: int, n: int)
    requires FirstRun(days, d, n)
    ensures RankedFirst(days, d, n)
  {
    RunIsLarge(days, d, n);
    var g := Group(days, Shift(days, d));
    forall e | e in g ensures d <= e {
      if e < d {
        ShiftGrows(days, e, d);
        forall x | e <= x < e + n ensures x in days {
        }
        assert RunFrom(days, e, n);
      }
    }
    var _ := LargeGroup(days, Shift(days, d), n);
    forall s | s in LargeShifts(days, n) ensures Shift(days, d) <= s {
      var e := LargeGroup(days, s, n);
      var first := Least(Group(days, s), x => x, e);
      GroupStartsRun(days, first, n);
      ShiftGrows(days, d, first);
    }
    RankOneIsLeast(LargeShifts(days, n), Shift(days, d));
  }

  /** A large shift belongs to a day of a large group. */
  lemma LargeGroup(days: set<int>, s: int, n: int) returns (e: int)
    requires s in LargeShifts(days, n)
    ensures e in Group(days, s) && |Group(days, s)| >= n
  {
    e :| e in days && |Group(days, Shift(days, e))| >= n && Shift(days, e) == s;
  }

  /** The query grants the badge to a user exactly when there are n visits in a row, dated n days
      after the start of the earliest such run. */
  lemma GrantedExactly(visits: Visits, n: int, user: int, start: int)
    ensures (user, start + n) in Granted(visits, n) <==> FirstRun(Days(visits, user), start, n)
  {
    var days := Days(visits, user);
    RankedFirstIsFirstRun(days, start, n);
    assert RankedFirst(days, start, n) ==> (user, start) in visits;
    hide RankedFirst, FirstRun, Days, Granted;
    GrantedRow(visits, n, user, start);
  }

  /** A row of the result stands for one visit that ranks first. */
  lemma GrantedRow(visits: Visits, n: int, user: int, start: int)
    ensures (user, start + n) in Granted(visits, n) <==>
              (user, start) in visits && RankedFirst(Days(visits, user), start, n)
  {
    hide RankedFirst, Days;
    if (user, start) in visits && RankedFirst(Days(visits, user), start, n) {
      var v := (user, start);
      assert v in visits && RankedFirst(Days(visits, v.0), v.1, n) && (v.0, v.1 + n) == (user, start + n);
    }
    if (user, start + n) in Granted(visits, n) {
      var v :| v in visits && RankedFirst(Days(visits, v.0), v.1, n) && (v.0, v.1 + n) == (user, start + n);
      assert v.1 == start;
    }
  }

  lemma FirstRunExists(days: set<int>, d: int, n: int) returns (start: int)
    requires RunFrom(days, d, n)
    ensures start <= d && FirstRun(days, start, n)
  {
    var runs := set e | e in days && RunFrom(days, e, n);
    start := Least(runs, e => e, d);
    assert forall e :: RunFrom(days, e, n) ==> e in runs;
  }

  lemma FirstRunIsUnique(days: set<int>, d: int, e: int, n: int)
    requires FirstRun(days, d, n) && FirstRun(days, e, n)
    ensures d == e
  {
  }

  /** Whoever has a run of n days gets exactly one row. */
  lemma EveryRunIsGrantedOnce(visits: Visits, n: int, user: int, d: int) returns (start: int)
    requires RunFrom(Days(visits, user), d, n)
    ensures start <= d && (user, start + n) in Granted(visits, n)
    ensures forall g :: (user, g) in Granted(visits, n) ==> g == start + n
  {
    hide Granted, FirstRun, RunFrom, Days;
    start := FirstRunExists(Days(visits, user), d, n);
    GrantedExactly(visits, n, user, start);
    forall g | (user, g) in Granted(visits, n) ensures g == start + n {
      assert (user, (g - n) + n) == (user, g);
      GrantedExactly(visits, n, user, g - n);
      FirstRunIsUnique(Days(visits, user), start, g - n, n);
    }
  }
}
