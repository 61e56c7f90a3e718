/** Coordinates on a rows x cols grid, the row-major numbering of cells that
    the mine layout is drawn from, and the number of mines around a cell. */
module Grid {

  /** A cell, as (row, column). */
  type Cell = (int, int)

  /** A grid dimension: at least one row or column. */
  type Pos = n: int | n > 0 witness 1

  predicate InBounds(rows: int, cols: int, p: Cell)
  {
    0 <= p.0 < rows && 0 <= p.1 < cols
  }

  /** Every cell of a rows x cols grid. */
  function AllCells(rows: nat, cols: nat): (s: set<Cell>)
    ensures forall p :: p in s <==> InBounds(rows, cols, p)
  {
    set i, j | 0 <= i < rows && 0 <= j < cols :: (i, j)
  }

  lemma InAllCells(rows: nat, cols: nat, p: Cell)
    ensures p in AllCells(rows, cols) <==> InBounds(rows, cols, p)
  {
    var (i, j) := p;
    assert p == (i, j);
  }

  /** p and q are different cells that touch, sideways or diagonally. */
  predicate Adjacent(p: Cell, q: Cell)
  {
    p != q && -1 <= p.0 - q.0 <= 1 && -1 <= p.1 - q.1 <= 1
  }

  /** The row-major number of a cell. */
  function Index(p: Cell, cols: int): int
  {
    p.0 * cols + p.1
  }

  /** The cell numbered m in row-major order: (m // cols, m % cols). */
  function CellOf(m: int, cols: int): (p: Cell)
    requires cols > 0
    ensures 0 <= p.1 < cols
    ensures Index(p, cols) == m
  {
    (m / cols, m % cols)
  }

  /** A mine layout: distinct cell numbers, each in [0, rows*cols). */
  predicate IsLayout(mines: seq<int>, rows: int, cols: int)
  {
    (forall k :: 0 <= k < |mines| ==> 0 <= mines[k] < rows * cols) &&
    (forall i, j :: 0 <= i < j < |mines| ==> mines[i] != mines[j])
  }

  /** The cells that hold a mine. */
  function MineCells(mines: seq<int>, cols: int): set<Cell>
    requires cols > 0
  {
    set m | m in mines :: CellOf(m, cols)
  }

  /** One more entry of the mine list marks one more cell. */
  lemma MineCellsSnoc(mines: seq<int>, m: int, cols: int)
    requires cols > 0
    ensures MineCells(mines + [m], cols) == MineCells(mines, cols) + {CellOf(m, cols)}
  {
    var a, b := MineCells(mines + [m], cols), MineCells(mines, cols) + {CellOf(m, cols)};
    forall p | p in b ensures p in a {
      if p != CellOf(m, cols) {
        var x :| x in mines && CellOf(x, cols) == p;
        assert x in mines + [m];
      } else {
        assert m in mines + [m];
      }
    }
  }

  function Ind(b: bool): nat
  {
    if b then 1 else 0
  }

  /** The in-bounds cells of s around p. */
  function Near(s: set<Cell>, rows: int, cols: int, p: Cell): set<Cell>
  {
    set q | q in s && InBounds(rows, cols, q) && Adjacent(p, q)
  }

  /** The number of cells of s among the in-bounds 8 neighbours of p. */
  function NeighbourCount(s: set<Cell>, rows: int, cols: int, p: Cell): nat
  {
    |Near(s, rows, cols, p)|
  }

  /** The count that the construction loop accumulates for p: one per
      entry of the mine list whose cell is adjacent to p. */
  function MinesAround(mines: seq<int>, cols: int, p: Cell): nat
    requires cols > 0
  {
    if mines == [] then 0
    else MinesAround(mines[..|mines| - 1], cols, p) + Ind(Adjacent(CellOf(mines[|mines| - 1], cols), p))
  }

  // ---------------------------------------------------------------------
  // Row-major numbering

  lemma CellOfInBounds(m: int, rows: int, cols: int)
    requires cols > 0 && 0 <= m < rows * cols
    ensures InBounds(rows, cols, CellOf(m, cols))
  {
    var p := CellOf(m, cols);
    if p.0 >= rows {
      assert p.0 * cols >= rows * cols by { MulMono(rows, p.0, cols); }
      assert false;
    }
  }

  lemma MulMono(a: int, b: int, c: int)
    requires a <= b && c >= 0
    ensures a * c <= b * c
  {
  }

  /** Numbering an in-bounds cell and decoding the number gives the cell back. */
  lemma {:induction false} CellOfIndex(p: Cell, rows: int, cols: int)
    requires cols > 0 && InBounds(rows, cols, p)
    ensures CellOf(Index(p, cols), cols) == p
  {
    var m := Index(p, cols);
    var q := CellOf(m, cols);
    // q.0 * cols + q.1 == p.0 * cols + p.1 with both columns in [0, cols)
    if q.0 < p.0 {
      MulMono(q.0 + 1, p.0, cols);
      assert false;
    } else if q.0 > p.0 {
      MulMono(p.0 + 1, q.0, cols);
      assert false;
    }
  }

  lemma CellOfInjective(a: int, b: int, cols: int)
    requires cols > 0 && CellOf(a, cols) == CellOf(b, cols)
    ensures a == b
  {
  }

  /** The row-major number of an in-bounds cell lies in 0 .. rows*cols-1
      (CellOfInBounds gives the other direction). */
  lemma {:induction false} IndexInRange(p: Cell, rows: int, cols: int)
    requires cols > 0 && InBounds(rows, cols, p)
    ensures 0 <= Index(p, cols) < rows * cols
  {
    MulMono(0, p.0, cols);
    MulMono(p.0 + 1, rows, cols);
  }

  // ---------------------------------------------------------------------
  // Sizes

  function RowCells(i: int, n: nat): (s: set<Cell>)
    ensures forall p :: p in s <==> p.0 == i && 0 <= p.1 < n
  {
    set j | 0 <= j < n :: (i, j)
  }

  lemma {:induction false} RowCellsSize(i: int, n: nat)
    ensures |RowCells(i, n)| == n
  {
    if n > 0 {
      RowCellsSize(i, n - 1);
      assert RowCells(i, n) == RowCells(i, n - 1) + {(i, n - 1)};
    }
  }

  /** A rows x cols grid has rows*cols cells. */
  lemma {:induction false} AllCellsSize(rows: nat, cols: nat)
    ensures |AllCells(rows, cols)| == rows * cols
  {
    if rows > 0 {
      AllCellsSize(rows - 1, cols);
      RowCellsSize(rows - 1, cols);
      AllCellsSplit(rows, cols);
      MulSucc(rows, cols);
    }
  }

  /** The grid is the grid one row shorter plus its last row. */
  lemma AllCellsSplit(rows: nat, cols: nat)
    requires rows > 0
    ensures AllCells(rows, cols) == AllCells(rows - 1, cols) + RowCells(rows - 1, cols)
    ensures AllCells(rows - 1, cols) * RowCells(rows - 1, cols) == {}
  {
    var top, last := AllCells(rows - 1, cols), RowCells(rows - 1, cols);
    forall p | p in AllCells(rows, cols) ensures p in top + last {
      assert InBounds(rows, cols, p);
    }
    forall p | p in last ensures p !in top {
      assert p.0 == rows - 1;
    }
  }

  lemma MulSucc(a: int, b: int)
    ensures (a - 1) * b + b == a * b
  {
  }

  /** A layout's mines lie on distinct in-bounds cells: exactly |mines| cells hold a mine. */
  lemma {:induction false} MineCellsSize(mines: seq<int>, rows: int, cols: int)
    requires cols > 0 && IsLayout(mines, rows, cols)
    ensures |MineCells(mines, cols)| == |mines|
    ensures forall p :: p in MineCells(mines, cols) ==> InBounds(rows, cols, p)
  {
    if mines != [] {
      var init, last := mines[..|mines| - 1], mines[|mines| - 1];
      assert mines == init + [last];
      MineCellsSize(init, rows, cols);
      MineCellsSnoc(init, last, cols);
      LastMineIsNew(mines, rows, cols);
      CellOfInBounds(last, rows, cols);
    }
  }

  /** The last mine of a layout lies on a cell none of the others marks. */
  lemma LastMineIsNew(mines: seq<int>, rows: int, cols: int)
    requires cols > 0 && IsLayout(mines, rows, cols) && mines != []
    ensures CellOf(mines[|mines| - 1], cols) !in MineCells(mines[..|mines| - 1], cols)
  {
    var init, last := mines[..|mines| - 1], mines[|mines| - 1];
    forall m | m in init ensures CellOf(m, cols) != CellOf(last, cols) {
      var k :| 0 <= k < |init| && init[k] == m;
      assert mines[k] != mines[|mines| - 1];
      if CellOf(m, cols) == CellOf(last, cols) {
        CellOfInjective(m, last, cols);
      }
    }
  }

  /** A layout of n mines exists exactly when n <= rows*cols; beyond that
      the construction has to fail. */
  lemma LayoutExists(n: nat, rows: nat, cols: nat)
    requires cols > 0
    ensures (exists mines :: |mines| == n && IsLayout(mines, rows, cols)) <==> n <= rows * cols
  {
    if n <= rows * cols {
      var first := seq(n, k => k);
      assert |first| == n && IsLayout(first, rows, cols);
    }
    if mines :| |mines| == n && IsLayout(mines, rows, cols) {
      LayoutFits(mines, rows, cols);
    }
  }

  /** A layout never holds more mines than the grid has cells. */
  lemma LayoutFits(mines: seq<int>, rows: nat, cols: nat)
    requires cols > 0 && IsLayout(mines, rows, cols)
    ensures |mines| <= rows * cols
  {
    MineCellsSize(mines, rows, cols);
    AllCellsSize(rows, cols);
    SubsetSize(MineCells(mines, cols), AllCells(rows, cols));
  }

  lemma {:induction false} SubsetSize(a: set<Cell>, b: set<Cell>)
    requires forall p :: p in a ==> p in b
    ensures |a| <= |b|
  {
    assert b == a + (b - a);
  }

  // ---------------------------------------------------------------------
  // Neighbour counts

  /** Adding a new in-bounds cell q to s raises p's count by one exactly when q is adjacent to p. */
  lemma NeighbourCountAdd(s: set<Cell>, rows: int, cols: int, p: Cell, q: Cell)
    requires q !in s && InBounds(rows, cols, q)
    ensures NeighbourCount(s + {q}, rows, cols, p) == NeighbourCount(s, rows, cols, p) + Ind(Adjacent(q, p))
  {
    var near := Near(s, rows, cols, p);
    if Adjacent(p, q) {
      assert Near(s + {q}, rows, cols, p) == near + {q};
    } else {
      assert Near(s + {q}, rows, cols, p) == near;
    }
  }

  /** No cell has more than eight neighbours. */
  lemma NeighbourCountAtMost8(s: set<Cell>, rows: int, cols: int, p: Cell)
    ensures NeighbourCount(s, rows, cols, p) <= 8
  {
    var (i, j) := p;
    var around := {(i - 1, j - 1), (i, j - 1), (i + 1, j - 1), (i - 1, j), (i + 1, j),
                   (i - 1, j + 1), (i, j + 1), (i + 1, j + 1)};
    forall q | q in Near(s, rows, cols, p) ensures q in around {
      var (a, b) := q;
      assert q == (a, b);
    }
    SubsetSize(Near(s, rows, cols, p), around);
  }

  /** The count the construction loop accumulates is the number of mine
      cells among p's in-bounds neighbours. */
  lemma {:induction false} MinesAroundIsNeighbourCount(mines: seq<int>, rows: int, cols: int, p: Cell)
    requires cols > 0 && IsLayout(mines, rows, cols)
    ensures MinesAround(mines, cols, p) == NeighbourCount(MineCells(mines, cols), rows, cols, p)
  {
    if mines == [] {
      assert MineCells(mines, cols) == {};
    } else {
      var init, last := mines[..|mines| - 1], mines[|mines| - 1];
      assert mines == init + [last];
      MinesAroundIsNeighbourCount(init, rows, cols, p);
      MineCellsSnoc(init, last, cols);
      LastMineIsNew(mines, rows, cols);
      CellOfInBounds(last, rows, cols);
      NeighbourCountAdd(MineCells(init, cols), rows, cols, p, CellOf(last, cols));
    }
  }

  /** A count of zero means that no in-bounds neighbour is in s, and conversely. */
  lemma ZeroCount(s: set<Cell>, rows: int, cols: int, p: Cell)
    ensures NeighbourCount(s, rows, cols, p) == 0 <==>
            forall q :: q in s && InBounds(rows, cols, q) ==> !Adjacent(q, p)
  {
    if NeighbourCount(s, rows, cols, p) == 0 {
      forall q | q in s && InBounds(rows, cols, q)
        ensures !Adjacent(q, p)
      {
        assert q !in Near(s, rows, cols, p);
      }
    } else {
      var q :| q in Near(s, rows, cols, p);
      assert q in s && InBounds(rows, cols, q) && Adjacent(q, p);
    }
  }
}
