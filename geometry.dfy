/** Grid geometry: cells, the eight unit directions, straight runs of cells
    and the resolution of a drag from an anchor cell to a current cell into
    such a run (getLineCells). */
module Geometry {
  import opened Seqs

  /** A grid coordinate, [row, col] in the source. */
  datatype Cell = Cell(row: int, col: int)

  /** A step between neighbouring cells, [dRow, dCol] in the source. */
  datatype Dir = Dir(dr: int, dc: int)

  /** The placement directions, in the order placeWords lists them. */
  const Directions: seq<Dir> := [
    Dir(0, 1), Dir(1, 0), Dir(1, 1), Dir(-1, 1),
    Dir(0, -1), Dir(-1, 0), Dir(-1, -1), Dir(1, -1)
  ]

  /** One of the eight steps to a neighbouring cell. */
  predicate IsUnit(d: Dir) {
    -1 <= d.dr <= 1 && -1 <= d.dc <= 1 && d != Dir(0, 0)
  }

  /** The direction table holds exactly the eight unit steps. */
  lemma DirectionsAreUnitSteps(d: Dir)
    ensures d in Directions <==> IsUnit(d)
    ensures |Directions| == 8
  {
  }

  /** Every entry of the direction table is a unit step. */
  lemma DirectionIsUnit(k: nat)
    requires k < |Directions|
    ensures IsUnit(Directions[k])
  {
  }

  function Neg(d: Dir): Dir { Dir(-d.dr, -d.dc) }

  /** The cell i steps of d away from s. */
  function Offset(s: Cell, d: Dir, i: int): Cell {
    Cell(s.row + i * d.dr, s.col + i * d.dc)
  }

  /** The n cells s, s + d, s + 2d, ... */
  function Ray(s: Cell, d: Dir, n: nat): seq<Cell> {
    seq(n, i => Offset(s, d, i))
  }

  predicate InGrid(c: Cell, size: int) {
    0 <= c.row < size && 0 <= c.col < size
  }

  /** The step from cell i - 1 to cell i. */
  function StepInto(cells: seq<Cell>, i: int): Dir
    requires 0 < i < |cells|
  {
    Dir(cells[i].row - cells[i - 1].row, cells[i].col - cells[i - 1].col)
  }

  function StepOf(cells: seq<Cell>): Dir
    requires |cells| >= 2
  {
    StepInto(cells, 1)
  }

  /** A straight run: a single cell, or cells each one unit step on from the
      previous, always by the same step. */
  predicate IsRun(cells: seq<Cell>) {
    |cells| <= 1 ||
    (IsUnit(StepOf(cells)) &&
     forall i :: 0 < i < |cells| ==> StepInto(cells, i) == StepOf(cells))
  }

  /** A ray along a unit step is a run. */
  lemma RayIsRun(s: Cell, d: Dir, n: nat)
    requires IsUnit(d)
    ensures IsRun(Ray(s, d, n))
    ensures n >= 2 ==> StepOf(Ray(s, d, n)) == d
  {
    var r := Ray(s, d, n);
    if n >= 2 {
      assert r[1] == Cell(s.row + d.dr, s.col + d.dc);
      forall i | 0 < i < n ensures StepInto(r, i) == d {
        assert i * d.dr == (i - 1) * d.dr + d.dr;
        assert i * d.dc == (i - 1) * d.dc + d.dc;
      }
    }
  }

  /** Every run of two or more cells is the ray from its first cell along
      its step. */
  lemma {:induction false} RunIsRay(cells: seq<Cell>)
    requires IsRun(cells) && |cells| >= 2
    ensures cells == Ray(cells[0], StepOf(cells), |cells|)
  {
    var d := StepOf(cells);
    var r := Ray(cells[0], d, |cells|);
    forall i | 0 <= i < |cells| ensures cells[i] == r[i] {
      RunCellAt(cells, i);
    }
  }

  lemma {:induction false} RunCellAt(cells: seq<Cell>, i: nat)
    requires IsRun(cells) && |cells| >= 2 && i < |cells|
    ensures cells[i] == Offset(cells[0], StepOf(cells), i)
  {
    var d := StepOf(cells);
    if i > 0 {
      RunCellAt(cells, i - 1);
      assert StepInto(cells, i) == d;
      assert i * d.dr == (i - 1) * d.dr + d.dr;
      assert i * d.dc == (i - 1) * d.dc + d.dc;
    }
  }

  /** Read backwards, a run is still a run, along the opposite step. */
  lemma ReverseRun(cells: seq<Cell>)
    requires IsRun(cells)
    ensures IsRun(Reverse(cells))
  {
    var r := Reverse(cells);
    var n := |cells|;
    if n >= 2 {
      var d := StepOf(cells);
      assert StepInto(cells, n - 1) == d;
      assert StepOf(r) == Neg(d);
      forall i | 0 < i < n ensures StepInto(r, i) == Neg(d) {
        assert StepInto(cells, n - i) == d;
      }
    }
  }

  function Abs(x: int): nat { if x < 0 then -x else x }

  /** The sign step the source picks for a non-zero difference. */
  function Toward(x: int): int { if x > 0 then 1 else -1 }

  /** The current cell lies on a row, column or 45-degree diagonal through
      the anchor (the anchor itself included). */
  predicate Aligned(s: Cell, e: Cell) {
    var dr := e.row - s.row;
    var dc := e.col - s.col;
    dr == 0 || dc == 0 || Abs(dr) == Abs(dc)
  }

  /** The number of steps between two aligned cells. */
  function Distance(s: Cell, e: Cell): nat {
    var dr := Abs(e.row - s.row);
    var dc := Abs(e.col - s.col);
    if dr >= dc then dr else dc
  }

  /** getLineCells: the horizontal, vertical or diagonal run from the anchor
      to the current cell, or the anchor alone when the two are not on one
      line. */
  function LineCells(s: Cell, e: Cell): (r: seq<Cell>)
    ensures |r| >= 1 && r[0] == s
    ensures IsRun(r)
    ensures r[|r| - 1] == e <==> Aligned(s, e)
    ensures Aligned(s, e) ==> |r| == Distance(s, e) + 1
    ensures !Aligned(s, e) ==> r == [s]
  {
    var dr := e.row - s.row;
    var dc := e.col - s.col;
    if dr == 0 && dc != 0 then
      LineEnds(s, e, Dir(0, Toward(dc)));
      assert Abs(dc) == Distance(s, e);
      Ray(s, Dir(0, Toward(dc)), Abs(dc) + 1)
    else if dc == 0 && dr != 0 then
      LineEnds(s, e, Dir(Toward(dr), 0));
      assert Abs(dr) == Distance(s, e);
      Ray(s, Dir(Toward(dr), 0), Abs(dr) + 1)
    else if Abs(dr) == Abs(dc) && dr != 0 then
      LineEnds(s, e, Dir(Toward(dr), Toward(dc)));
      assert Abs(dr) == Distance(s, e);
      Ray(s, Dir(Toward(dr), Toward(dc)), Abs(dr) + 1)
    else
      [s]
  }

  /** The ray that LineCells builds for aligned, distinct cells is a run and
      ends at the current cell. */
  lemma LineEnds(s: Cell, e: Cell, d: Dir)
    requires s != e && Aligned(s, e)
    requires d.dr == (if e.row == s.row then 0 else Toward(e.row - s.row))
    requires d.dc == (if e.col == s.col then 0 else Toward(e.col - s.col))
    ensures IsUnit(d)
    ensures var r := Ray(s, d, Distance(s, e) + 1);
            IsRun(r) && r[0] == s && r[|r| - 1] == e
  {
    RayIsRun(s, d, Distance(s, e) + 1);
    var k := Distance(s, e);
    assert k * d.dr == e.row - s.row by {
      if d.dr == 1 { } else if d.dr == -1 { } else { }
    }
    assert k * d.dc == e.col - s.col by {
      if d.dc == 1 { } else if d.dc == -1 { } else { }
    }
  }

  /** If the anchor and the current cell are both in the grid, so is every
      cell of the resolved selection. */
  lemma LineCellsInGrid(s: Cell, e: Cell, size: int)
    requires InGrid(s, size) && InGrid(e, size)
    ensures forall c :: c in LineCells(s, e) ==> InGrid(c, size)
  {
    var r := LineCells(s, e);
    if |r| >= 2 {
      RunIsRay(r);
      var d := StepOf(r);
      var k := |r| - 1;
      forall i | 0 <= i < |r| ensures InGrid(r[i], size) {
        BetweenEnds(s.row, d.dr, i, k, e.row);
        BetweenEnds(s.col, d.dc, i, k, e.col);
      }
    }
  }

  /** A point i steps along a line of k steps lies between its two ends. */
  lemma BetweenEnds(a: int, step: int, i: nat, k: nat, b: int)
    requires -1 <= step <= 1 && i <= k && a + k * step == b
    ensures (a <= a + i * step <= b) || (b <= a + i * step <= a)
  {
    if step == 1 { } else if step == -1 { } else { }
  }

  /** Dragging from the first to the last cell of a run selects exactly
      that run. */
  lemma {:induction false} LineCellsOfRun(cells: seq<Cell>)
    requires IsRun(cells) && |cells| >= 1
    ensures LineCells(cells[0], cells[|cells| - 1]) == cells
  {
    var n := |cells|;
    if n >= 2 {
      RunIsRay(cells);
      var d := StepOf(cells);
      var s := cells[0];
      var e := cells[n - 1];
      var k := n - 1;
      assert e == Offset(s, d, k);
      assert Aligned(s, e) && Distance(s, e) == k by {
        if d.dr == 0 { } else if d.dc == 0 { } else { }
      }
      var r := LineCells(s, e);
      assert |r| == n;
      assert r[|r| - 1] == e;
      RunIsRay(r);
      assert StepOf(r) == d by {
        if d.dr == 1 { } else if d.dr == -1 { } else { }
        if d.dc == 1 { } else if d.dc == -1 { } else { }
      }
    }
  }

  /** Dragging from the last cell of a run back to the first selects the run
      in reverse order. */
  lemma LineCellsOfRunBackwards(cells: seq<Cell>)
    requires IsRun(cells) && |cells| >= 1
    ensures LineCells(cells[|cells| - 1], cells[0]) == Reverse(cells)
  {
    ReverseRun(cells);
    LineCellsOfRun(Reverse(cells));
  }

  /** A horizontal drag: (2,2) to (2,5) selects four cells left to right. */
  lemma HorizontalDragExample()
    ensures LineCells(Cell(2, 2), Cell(2, 5)) == [Cell(2, 2), Cell(2, 3), Cell(2, 4), Cell(2, 5)]
  {
    assert LineCells(Cell(2, 2), Cell(2, 5)) == Ray(Cell(2, 2), Dir(0, 1), 4);
  }

  /** A diagonal drag up and to the left: (5,5) to (3,3). */
  lemma DiagonalDragExample()
    ensures LineCells(Cell(5, 5), Cell(3, 3)) == [Cell(5, 5), Cell(4, 4), Cell(3, 3)]
  {
    var s, e := Cell(5, 5), Cell(3, 3);
    assert Abs(e.row - s.row) == 2 && Toward(e.row - s.row) == -1;
    assert LineCells(s, e) == Ray(s, Dir(-1, -1), 3);
  }

  /** A drag that is off every line, (0,0) to (1,2), keeps only the anchor. */
  lemma CrookedDragExample()
    ensures LineCells(Cell(0, 0), Cell(1, 2)) == [Cell(0, 0)]
  {
  }
}
