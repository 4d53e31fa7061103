/** Longest common subsequences of prefixes, and the grid of deletions they induce.
    A grid point (x, y) stands for the prefixes a[..x] and b[..y]; its diagonal is y - x. */
module LcsGrid {

  function Max(i: int, j: int): int { if i < j then j else i }

  /** Length of the longest common subsequence of a[..x] and b[..y]. */
  function PrefixLcs<T(==)>(a: seq<T>, b: seq<T>, x: nat, y: nat): nat
    requires x <= |a| && y <= |b|
  {
    if x == 0 || y == 0 then 0
    else if a[x - 1] == b[y - 1] then PrefixLcs(a, b, x - 1, y - 1) + 1
    else Max(PrefixLcs(a, b, x - 1, y), PrefixLcs(a, b, x, y - 1))
  }

  function Lcs<T(==)>(a: seq<T>, b: seq<T>): nat {
    PrefixLcs(a, b, |a|, |b|)
  }

  /** Dropping one element on either side loses at most one from the common subsequence. */
  lemma {:induction false} PrefixLcsStep<T>(a: seq<T>, b: seq<T>, x: nat, y: nat)
    requires x <= |a| && y <= |b|
    ensures x > 0 ==> PrefixLcs(a, b, x - 1, y) <= PrefixLcs(a, b, x, y) <= PrefixLcs(a, b, x - 1, y) + 1
    ensures y > 0 ==> PrefixLcs(a, b, x, y - 1) <= PrefixLcs(a, b, x, y) <= PrefixLcs(a, b, x, y - 1) + 1
    decreases x + y
  {
    if x > 0 && y > 0 {
      PrefixLcsStep(a, b, x - 1, y);
      PrefixLcsStep(a, b, x, y - 1);
      if a[x - 1] == b[y - 1] {
        PrefixLcsStep(a, b, x - 1, y - 1);
      }
    }
  }

  lemma {:induction false} PrefixLcsBounds<T>(a: seq<T>, b: seq<T>, x: nat, y: nat)
    requires x <= |a| && y <= |b|
    ensures PrefixLcs(a, b, x, y) <= x && PrefixLcs(a, b, x, y) <= y
    decreases x + y
  {
    if x > 0 && y > 0 {
      if a[x - 1] == b[y - 1] {
        PrefixLcsBounds(a, b, x - 1, y - 1);
      } else {
        PrefixLcsStep(a, b, x, y);
        PrefixLcsBounds(a, b, x - 1, y);
        PrefixLcsBounds(a, b, x, y - 1);
      }
    }
  }

  /** Texts without a common element have no common subsequence. */
  lemma {:induction false} LcsOfRewrite<T>(a: seq<T>, b: seq<T>, x: nat, y: nat)
    requires x <= |a| && y <= |b| && forall i, j :: 0 <= i < |a| && 0 <= j < |b| ==> a[i] != b[j]
    ensures PrefixLcs(a, b, x, y) == 0
    decreases x + y
  {
    if x > 0 && y > 0 {
      LcsOfRewrite(a, b, x - 1, y);
      LcsOfRewrite(a, b, x, y - 1);
    }
  }

  /** A text shares all of itself with itself. */
  lemma {:induction false} LcsOfEqual<T>(a: seq<T>, x: nat)
    requires x <= |a|
    ensures PrefixLcs(a, a, x, x) == x
  {
    if x > 0 { LcsOfEqual(a, x - 1); }
  }

  /** Only the two prefixes matter. */
  lemma {:induction false} PrefixLcsOfPrefixes<T>(a: seq<T>, b: seq<T>, a': seq<T>, b': seq<T>, x: nat, y: nat)
    requires x <= |a| && y <= |b| && x <= |a'| && y <= |b'|
    requires a[..x] == a'[..x] && b[..y] == b'[..y]
    ensures PrefixLcs(a, b, x, y) == PrefixLcs(a', b', x, y)
    decreases x + y
  {
    if x > 0 && y > 0 {
      assert a[x - 1] == a[..x][x - 1] == a'[x - 1];
      assert b[y - 1] == b[..y][y - 1] == b'[y - 1];
      assert a[..x - 1] == a[..x][..x - 1] == a'[..x - 1];
      assert b[..y - 1] == b[..y][..y - 1] == b'[..y - 1];
      PrefixLcsOfPrefixes(a, b, a', b', x - 1, y - 1);
      PrefixLcsOfPrefixes(a, b, a', b', x - 1, y);
      PrefixLcsOfPrefixes(a, b, a', b', x, y - 1);
    }
  }

  lemma {:induction false} PrefixLcsSymmetric<T>(a: seq<T>, b: seq<T>, x: nat, y: nat)
    requires x <= |a| && y <= |b|
    ensures PrefixLcs(a, b, x, y) == PrefixLcs(b, a, y, x)
    decreases x + y
  {
    if x > 0 && y > 0 {
      PrefixLcsSymmetric(a, b, x - 1, y - 1);
      PrefixLcsSymmetric(a, b, x - 1, y);
      PrefixLcsSymmetric(a, b, x, y - 1);
    }
  }

  lemma LcsSymmetric<T>(a: seq<T>, b: seq<T>)
    ensures Lcs(a, b) == Lcs(b, a)
  {
    PrefixLcsSymmetric(a, b, |a|, |b|);
  }

  // ---------------------------------------------------------------- deletions

  /** Fewest deletions that lead from the origin to the point (x, y). */
  function Deletions<T(==)>(a: seq<T>, b: seq<T>, x: nat, y: nat): int
    requires x <= |a| && y <= |b|
  {
    x - PrefixLcs(a, b, x, y)
  }

  predicate OnGrid<T>(a: seq<T>, b: seq<T>, k: int, y: int) {
    0 <= y - k <= |a| && 0 <= y <= |b|
  }

  /** y is the furthest row on diagonal k that v deletions reach, or -1 when they reach none. */
  ghost predicate Furthest<T>(a: seq<T>, b: seq<T>, v: int, k: int, y: int) {
    && (y == -1 || (OnGrid(a, b, k, y) && Deletions(a, b, y - k, y) <= v))
    && forall z :: z > y && OnGrid(a, b, k, z) ==> Deletions(a, b, z - k, z) > v
  }

  lemma DeletionsStep<T>(a: seq<T>, b: seq<T>, x: nat, y: nat)
    requires x <= |a| && y <= |b|
    ensures y < |b| ==> Deletions(a, b, x, y + 1) <= Deletions(a, b, x, y)
    ensures x < |a| ==> Deletions(a, b, x, y) <= Deletions(a, b, x + 1, y) <= Deletions(a, b, x, y) + 1
    ensures x < |a| && y < |b| ==> Deletions(a, b, x, y) <= Deletions(a, b, x + 1, y + 1)
    ensures x < |a| && y < |b| && a[x] == b[y] ==> Deletions(a, b, x, y) == Deletions(a, b, x + 1, y + 1)
    ensures x < |a| && y < |b| && a[x] != b[y] ==>
              Deletions(a, b, x + 1, y + 1) == Deletions(a, b, x + 1, y)
              || Deletions(a, b, x + 1, y + 1) == Deletions(a, b, x, y + 1) + 1
  {
    if y < |b| { PrefixLcsStep(a, b, x, y + 1); }
    if x < |a| { PrefixLcsStep(a, b, x + 1, y); }
    if x < |a| && y < |b| { PrefixLcsStep(a, b, x + 1, y + 1); }
  }

  lemma {:induction false} DeletionsGrowOnDiagonal<T>(a: seq<T>, b: seq<T>, x: nat, y: nat, d: nat)
    requires x + d <= |a| && y + d <= |b|
    ensures Deletions(a, b, x, y) <= Deletions(a, b, x + d, y + d)
    decreases d
  {
    if d > 0 {
      DeletionsStep(a, b, x, y);
      DeletionsGrowOnDiagonal(a, b, x + 1, y + 1, d - 1);
    }
  }

  lemma {:induction false} DeletionsAlongMatch<T>(a: seq<T>, b: seq<T>, x: nat, y: nat, d: nat)
    requires x + d <= |a| && y + d <= |b|
    requires a[x..x + d] == b[y..y + d]
    ensures Deletions(a, b, x, y) == Deletions(a, b, x + d, y + d)
    decreases d
  {
    if d > 0 {
      assert a[x] == a[x..x + d][0] == b[y..y + d][0] == b[y];
      assert a[x + 1..x + d] == a[x..x + d][1..] == b[y + 1..y + d];
      DeletionsStep(a, b, x, y);
      DeletionsAlongMatch(a, b, x + 1, y + 1, d - 1);
    }
  }

  /** Additions are free and every deletion costs one. */
  lemma {:induction false} DeletionsTowards<T>(a: seq<T>, b: seq<T>, x: nat, y: nat, x': nat, y': nat)
    requires x <= x' <= |a| && y <= y' <= |b|
    ensures Deletions(a, b, x', y') <= Deletions(a, b, x, y) + x' - x
    decreases x' - x + y' - y
  {
    DeletionsStep(a, b, x, y);
    if x < x' {
      DeletionsTowards(a, b, x + 1, y, x', y');
    } else if y < y' {
      DeletionsTowards(a, b, x, y + 1, x', y');
    }
  }

  lemma DeletionsAtLeastDiagonal<T>(a: seq<T>, b: seq<T>, x: nat, y: nat)
    requires x <= |a| && y <= |b|
    ensures Deletions(a, b, x, y) >= x - y && Deletions(a, b, x, y) >= 0
  {
    PrefixLcsBounds(a, b, x, y);
  }

  /** Rows past a maximal run of matches that starts no earlier than both neighbours need more deletions. */
  lemma NothingFurther<T>(a: seq<T>, b: seq<T>, v: int, k: int, below: int, above: int, y: int, z: int)
    requires Furthest(a, b, v, k - 1, below) && Furthest(a, b, v - 1, k + 1, above)
    requires OnGrid(a, b, k, y) && OnGrid(a, b, k, z) && y < z
    requires below < y && above <= y
    requires a[y - k] != b[y]
    ensures Deletions(a, b, z - k, z) > v
  {
    var x := y - k;
    DeletionsGrowOnDiagonal(a, b, x + 1, y + 1, z - y - 1);
    DeletionsStep(a, b, x, y);
    assert OnGrid(a, b, k - 1, y) && OnGrid(a, b, k + 1, y + 1);
  }

  lemma StartIsReached<T>(a: seq<T>, b: seq<T>, v: int, k: int, below: int, above: int)
    requires Furthest(a, b, v, k - 1, below) && Furthest(a, b, v - 1, k + 1, above)
    requires below == -1 ==> above >= 0 || (k == 0 && v >= 0)
    requires OnGrid(a, b, k, Max(below + 1, above))
    ensures Deletions(a, b, Max(below + 1, above) - k, Max(below + 1, above)) <= v
  {
    if below + 1 <= above {
      DeletionsStep(a, b, above - k - 1, above);
    } else if below == -1 {
      DeletionsAtLeastDiagonal(a, b, 0, 0);
    } else {
      DeletionsStep(a, b, below - (k - 1), below);
    }
  }

  /** The greedy step: from the furthest rows on the two neighbouring diagonals, one
      addition or deletion and a maximal run of matches give the furthest row on k. */
  lemma FurthestFromNeighbours<T>(a: seq<T>, b: seq<T>, v: int, k: int, below: int, above: int, y: int)
    requires Furthest(a, b, v, k - 1, below) && Furthest(a, b, v - 1, k + 1, above)
    requires below == -1 ==> above >= 0 || (k == 0 && v >= 0)
    requires var start := Max(below + 1, above);
             && OnGrid(a, b, k, start) && OnGrid(a, b, k, y) && start <= y
             && a[start - k..y - k] == b[start..y]
    requires y - k < |a| && y < |b| ==> a[y - k] != b[y]
    ensures Furthest(a, b, v, k, y)
  {
    var start := Max(below + 1, above);
    StartIsReached(a, b, v, k, below, above);
    DeletionsAlongMatch(a, b, start - k, start, y - start);
    forall z | z > y && OnGrid(a, b, k, z) ensures Deletions(a, b, z - k, z) > v {
      NothingFurther(a, b, v, k, below, above, y, z);
    }
  }
}
