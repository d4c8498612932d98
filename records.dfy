/**
 The records of the index, the cell-to-record lookup (as_dict) and the
 listing filter shared by the hex and bbox queries.
 */
module Records {
  import opened Grid

  /** One element of `hexes`: [h3_index, level, cell_id]. */
  datatype Record = Record(cell: Cell, level: int, cellId: int)

  /** The configuration the index is built with; both ranges are inclusive. */
  datatype Config = Config(baseResolution: int, levelLow: int, levelHigh: int, cellIdFrom: int, cellIdTo: int)

  predicate RangesNonEmpty(config: Config)
  {
    config.levelLow <= config.levelHigh && config.cellIdFrom <= config.cellIdTo
  }

  predicate InRange(config: Config, h: Record)
  {
    config.levelLow <= h.level <= config.levelHigh && config.cellIdFrom <= h.cellId <= config.cellIdTo
  }

  function CellsOf(hs: seq<Record>): set<Cell>
  {
    set h | h in hs :: h.cell
  }

  /** No two records share a cell. */
  predicate DistinctCells(hs: seq<Record>)
  {
    forall i, j :: 0 <= i < j < |hs| ==> hs[i].cell != hs[j].cell
  }

  lemma DistinctSnoc(hs: seq<Record>, h: Record)
    requires DistinctCells(hs) && h.cell !in CellsOf(hs)
    ensures DistinctCells(hs + [h])
  {
    forall i, j | 0 <= i < j < |hs| + 1
      ensures (hs + [h])[i].cell != (hs + [h])[j].cell
    {
      if j == |hs| {
        assert hs[i] in hs;
      }
    }
  }

  /**
   The records hs drawn so far for the cells of cells that are not left in rest:
   one record per drawn cell, each within the configured ranges.
   */
  ghost predicate Drawn(cells: set<Cell>, rest: set<Cell>, hs: seq<Record>, config: Config)
  {
    && rest <= cells
    && CellsOf(hs) + rest == cells && CellsOf(hs) !! rest
    && |hs| + |rest| == |cells|
    && DistinctCells(hs)
    && (forall h :: h in hs ==> InRange(config, h))
  }

  /** Drawing a record for one more cell keeps the drawn records in step with the cells left. */
  lemma DrawnStep(cells: set<Cell>, rest: set<Cell>, hs: seq<Record>, config: Config, h: Record)
    requires Drawn(cells, rest, hs, config)
    requires h.cell in rest && InRange(config, h)
    ensures Drawn(cells, rest - {h.cell}, hs + [h], config)
  {
    CellsOfSnoc(hs, h);
    DistinctSnoc(hs, h);
    assert forall x :: x in hs + [h] <==> x in hs || x == h;
  }

  /**
   as_dict: the map from each record's cell to its record. As in a dict built
   by a comprehension, a later record overwrites an earlier one with the same cell.
   */
  function Index(hs: seq<Record>): (m: map<Cell, Record>)
    ensures m.Keys == CellsOf(hs)
    ensures forall c :: c in m ==> m[c].cell == c && m[c] in hs
  {
    if hs == [] then map[]
    else
      var init, last := hs[..|hs| - 1], hs[|hs| - 1];
      CellsOfSnoc(init, last);
      assert hs == init + [last];
      Index(init)[last.cell := last]
  }

  lemma CellsOfSnoc(hs: seq<Record>, h: Record)
    ensures CellsOf(hs + [h]) == CellsOf(hs) + {h.cell}
  {
    assert forall x :: x in hs + [h] <==> x in hs || x == h;
  }

  /** A record that no later record shares a cell with is what the lookup gives for its cell. */
  lemma {:induction false} IndexLastWins(hs: seq<Record>, i: int)
    requires 0 <= i < |hs|
    requires forall j :: i < j < |hs| ==> hs[j].cell != hs[i].cell
    ensures hs[i].cell in Index(hs) && Index(hs)[hs[i].cell] == hs[i]
  {
    if i < |hs| - 1 {
      var init := hs[..|hs| - 1];
      assert init[i] == hs[i];
      IndexLastWins(init, i);
    }
  }

  /** With one record per cell, every record is what the lookup gives for its cell. */
  lemma IndexOfDistinct(hs: seq<Record>, i: int)
    requires DistinctCells(hs) && 0 <= i < |hs|
    ensures hs[i].cell in Index(hs) && Index(hs)[hs[i].cell] == hs[i]
  {
    IndexLastWins(hs, i);
  }

  /**
   The records that the lookup m gives for the cells of a listing that it holds,
   in the order of the listing.
   */
  function Select(cells: seq<Cell>, m: map<Cell, Record>): (r: seq<Record>)
    ensures |r| <= |cells|
  {
    if cells == [] then []
    else (if cells[0] in m then [m[cells[0]]] else []) + Select(cells[1..], m)
  }

  /** The positions of a listing whose cells the lookup m holds, in increasing order. */
  function Positions(cells: seq<Cell>, m: map<Cell, Record>): (p: seq<nat>)
    ensures |p| == |Select(cells, m)|
  {
    if cells == [] then []
    else
      var rest := Positions(cells[1..], m);
      (if cells[0] in m then [0] else []) + seq(|rest|, j requires 0 <= j < |rest| => rest[j] + 1)
  }

  /** The j-th record Select returns is the lookup of the cell at the j-th held position. */
  lemma {:induction false} PositionsSelect(cells: seq<Cell>, m: map<Cell, Record>, j: int)
    requires 0 <= j < |Positions(cells, m)|
    ensures Positions(cells, m)[j] < |cells|
    ensures cells[Positions(cells, m)[j]] in m
    ensures Select(cells, m)[j] == m[cells[Positions(cells, m)[j]]]
  {
    var head := if cells[0] in m then 1 else 0;
    if j >= head {
      PositionsSelect(cells[1..], m, j - head);
    }
  }

  lemma {:induction false} PositionsIncreasing(cells: seq<Cell>, m: map<Cell, Record>, j: int, j': int)
    requires 0 <= j < j' < |Positions(cells, m)|
    ensures Positions(cells, m)[j] < Positions(cells, m)[j']
  {
    var head := if cells[0] in m then 1 else 0;
    if j >= head {
      PositionsIncreasing(cells[1..], m, j - head, j' - head);
    }
  }

  lemma {:induction false} PositionsComplete(cells: seq<Cell>, m: map<Cell, Record>, i: int)
    requires 0 <= i < |cells| && cells[i] in m
    ensures i in Positions(cells, m)
  {
    if i > 0 {
      var tail := cells[1..];
      assert tail[i - 1] == cells[i];
      PositionsComplete(tail, m, i - 1);
      var rest := Positions(tail, m);
      var j :| 0 <= j < |rest| && rest[j] == i - 1;
      var head := if cells[0] in m then 1 else 0;
      assert Positions(cells, m)[head + j] == i;
    }
  }

  /**
   Select keeps exactly the listed cells the lookup holds, in listing order:
   its elements come from strictly increasing positions of the listing, and
   every position whose cell is held is among them.
   */
  lemma SelectOrder(cells: seq<Cell>, m: map<Cell, Record>) returns (idx: seq<nat>)
    ensures |idx| == |Select(cells, m)|
    ensures forall j :: 0 <= j < |idx| ==> idx[j] < |cells| && cells[idx[j]] in m && Select(cells, m)[j] == m[cells[idx[j]]]
    ensures forall j, j' :: 0 <= j < j' < |idx| ==> idx[j] < idx[j']
    ensures forall i :: 0 <= i < |cells| && cells[i] in m ==> i in idx
  {
    idx := Positions(cells, m);
    forall j | 0 <= j < |idx|
      ensures idx[j] < |cells| && cells[idx[j]] in m && Select(cells, m)[j] == m[cells[idx[j]]]
    {
      PositionsSelect(cells, m, j);
    }
    forall j, j' | 0 <= j < j' < |idx|
      ensures idx[j] < idx[j']
    {
      PositionsIncreasing(cells, m, j, j');
    }
    forall i | 0 <= i < |cells| && cells[i] in m
      ensures i in idx
    {
      PositionsComplete(cells, m, i);
    }
  }

  /**
   The query filter over the records' own lookup: a record is returned exactly
   when its cell is listed, and nothing is returned exactly when no listed cell is covered.
   */
  lemma {:induction false} SelectFromIndex(cells: seq<Cell>, hs: seq<Record>)
    requires DistinctCells(hs)
    ensures forall x :: x in Select(cells, Index(hs)) <==> x in hs && x.cell in cells
    ensures Select(cells, Index(hs)) == [] <==> forall h :: h in hs ==> h.cell !in cells
  {
    var m, r := Index(hs), Select(cells, Index(hs));
    var idx := SelectOrder(cells, m);
    forall x | x in r
      ensures x in hs && x.cell in cells
    {
      var j :| 0 <= j < |r| && r[j] == x;
      assert cells[idx[j]] in m;
    }
    forall x | x in hs && x.cell in cells
      ensures x in r
    {
      var i :| 0 <= i < |hs| && hs[i] == x;
      IndexOfDistinct(hs, i);
      var k :| 0 <= k < |cells| && cells[k] == x.cell;
      assert k in idx;
      var j :| 0 <= j < |idx| && idx[j] == k;
      assert r[j] == x;
    }
    if r != [] {
      assert r[0] in r;
    }
  }
}
