/**
 The disk coverage built at start-up: rings of cells around a centre cell are
 added one by one until their summed area reaches the target area.
 */
module Coverage {
  import opened Grid

  /** The summed area of a listing of cells. */
  function SumAreas(geo: Geometry, cells: seq<Cell>): nat
  {
    if cells == [] then 0 else geo.area(cells[0]) + SumAreas(geo, cells[1..])
  }

  /** The area of the ring at distance k around c. */
  function RingArea(geo: Geometry, c: Cell, k: nat): nat
  {
    SumAreas(geo, geo.ring(c, k))
  }

  /** The summed area of rings 0 .. n-1 around c. */
  function AreaUpTo(geo: Geometry, c: Cell, n: nat): nat
  {
    if n == 0 then 0 else AreaUpTo(geo, c, n - 1) + RingArea(geo, c, n - 1)
  }

  /** The set of the cells of a listing. */
  function CellSet(cells: seq<Cell>): set<Cell>
  {
    set x | x in cells
  }

  /** The cells of rings 0 .. n-1 around c. */
  function RingsUnion(geo: Geometry, c: Cell, n: nat): set<Cell>
  {
    if n == 0 then {} else RingsUnion(geo, c, n - 1) + CellSet(geo.ring(c, n - 1))
  }

  /** Some finite number of rings around c reaches the target: exactly the runs in which the ring loop ends. */
  ghost predicate Reaches(geo: Geometry, c: Cell, target: int)
  {
    exists n: nat :: target <= AreaUpTo(geo, c, n)
  }

  /** Every ring around c adds positive area. */
  ghost predicate EveryRingAdds(geo: Geometry, c: Cell)
  {
    forall k: nat :: RingArea(geo, c, k) > 0
  }

  /**
   n rings reach the target, and the total before the last of them did not:
   the exit condition of the ring loop.
   */
  predicate MinimalRings(geo: Geometry, c: Cell, target: int, n: nat)
  {
    target <= AreaUpTo(geo, c, n) && (n == 0 || AreaUpTo(geo, c, n - 1) < target)
  }

  /** cells is the union of the minimal number of rings that reach the target. */
  ghost predicate IsCoverage(geo: Geometry, c: Cell, target: int, cells: set<Cell>)
  {
    exists n: nat :: MinimalRings(geo, c, target, n) && cells == RingsUnion(geo, c, n)
  }

  /**
   The ring loop of create_hexes. It ends exactly when some number of rings
   reaches the target, so that is all it requires. The centre is in the
   coverage when ring 0 is the centre itself, as it is in h3.
   */
  method CoverDisk(geo: Geometry, center: Cell, target: int) returns (cells: set<Cell>, rings: nat, area: int)
    requires Reaches(geo, center, target)
    ensures MinimalRings(geo, center, target, rings)
    ensures area == AreaUpTo(geo, center, rings) && target <= area
    ensures cells == RingsUnion(geo, center, rings)
    ensures cells == {} <==> target <= 0
    ensures geo.ring(center, 0) == [center] ==> (center in cells <==> 0 < target)
  {
    ghost var bound: nat :| target <= AreaUpTo(geo, center, bound);
    rings, area, cells := 0, 0, {};
    while area < target
      invariant rings <= bound
      invariant area == AreaUpTo(geo, center, rings)
      invariant cells == RingsUnion(geo, center, rings)
      invariant rings == 0 || AreaUpTo(geo, center, rings - 1) < target
      invariant rings == 0 ==> cells == {}
      invariant cells == {} ==> area == 0
      invariant rings > 0 && geo.ring(center, 0) == [center] ==> center in cells
      decreases bound - rings
    {
      var ringCells := geo.ring(center, rings);
      if ringCells != [] {
        assert ringCells[0] in CellSet(ringCells);
      }
      area := area + SumAreas(geo, ringCells);
      cells := cells + CellSet(ringCells);
      rings := rings + 1;
    }
  }

  lemma {:induction false} AreaUpToMonotone(geo: Geometry, c: Cell, m: nat, n: nat)
    requires m <= n
    ensures AreaUpTo(geo, c, m) <= AreaUpTo(geo, c, n)
  {
    if m < n {
      AreaUpToMonotone(geo, c, m, n - 1);
    }
  }

  lemma {:induction false} RingsUnionMonotone(geo: Geometry, c: Cell, m: nat, n: nat)
    requires m <= n
    ensures RingsUnion(geo, c, m) <= RingsUnion(geo, c, n)
  {
    if m < n {
      RingsUnionMonotone(geo, c, m, n - 1);
    }
  }

  /** The coverage of n rings holds exactly the cells listed by rings 0 .. n-1. */
  lemma {:induction false} RingsUnionMembers(geo: Geometry, c: Cell, n: nat, x: Cell)
    ensures x in RingsUnion(geo, c, n) <==> exists k :: 0 <= k < n && x in geo.ring(c, k)
  {
    if n > 0 {
      RingsUnionMembers(geo, c, n - 1, x);
    }
  }

  /** Under the minimal ring count, every shorter prefix of rings stays below the target. */
  lemma MinimalRingsLeast(geo: Geometry, c: Cell, target: int, n: nat, m: nat)
    requires MinimalRings(geo, c, target, n)
    requires m < n
    ensures AreaUpTo(geo, c, m) < target
  {
    AreaUpToMonotone(geo, c, m, n - 1);
  }

  /** The exit condition fixes the number of rings. */
  lemma MinimalRingsUnique(geo: Geometry, c: Cell, target: int, n1: nat, n2: nat)
    requires MinimalRings(geo, c, target, n1) && MinimalRings(geo, c, target, n2)
    ensures n1 == n2
  {
    if n1 < n2 {
      MinimalRingsLeast(geo, c, target, n2, n1);
    } else if n2 < n1 {
      MinimalRingsLeast(geo, c, target, n1, n2);
    }
  }

  /** The coverage of a target is a single set of cells, whatever order the loop ran in. */
  lemma CoverageUnique(geo: Geometry, c: Cell, target: int, a: set<Cell>, b: set<Cell>)
    requires IsCoverage(geo, c, target, a) && IsCoverage(geo, c, target, b)
    ensures a == b
  {
    var n1: nat :| MinimalRings(geo, c, target, n1) && a == RingsUnion(geo, c, n1);
    var n2: nat :| MinimalRings(geo, c, target, n2) && b == RingsUnion(geo, c, n2);
    MinimalRingsUnique(geo, c, target, n1, n2);
  }

  /** A larger target (a larger radius) needs at least as many rings and covers a superset. */
  lemma CoverageMonotone(geo: Geometry, c: Cell, t1: int, t2: int, n1: nat, n2: nat)
    requires t1 <= t2
    requires MinimalRings(geo, c, t1, n1) && MinimalRings(geo, c, t2, n2)
    ensures n1 <= n2
    ensures RingsUnion(geo, c, n1) <= RingsUnion(geo, c, n2)
  {
    if n2 < n1 {
      MinimalRingsLeast(geo, c, t1, n1, n2);
    }
    RingsUnionMonotone(geo, c, n1, n2);
  }

  /** When every ring adds area, k rings add at least k. */
  lemma {:induction false} AreaUpToGrows(geo: Geometry, c: Cell, k: nat)
    requires EveryRingAdds(geo, c)
    ensures k <= AreaUpTo(geo, c, k)
  {
    if k > 0 {
      AreaUpToGrows(geo, c, k - 1);
      assert RingArea(geo, c, k - 1) > 0;
    }
  }

  /** The loop adds at most as many rings as the target area (in cell-area units). */
  lemma MinimalRingsBound(geo: Geometry, c: Cell, target: int, n: nat)
    requires EveryRingAdds(geo, c)
    requires MinimalRings(geo, c, target, n)
    ensures n == 0 || n <= target
  {
    if n > 0 {
      AreaUpToGrows(geo, c, n - 1);
    }
  }

  /** When every ring adds area, the loop ends for every target. */
  lemma EveryRingAddsReaches(geo: Geometry, c: Cell, target: int)
    requires EveryRingAdds(geo, c)
    ensures Reaches(geo, c, target)
  {
    var n: nat := if target < 0 then 0 else target;
    AreaUpToGrows(geo, c, n);
  }
}
