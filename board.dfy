/** The player's board as a value: the tile every cell shows. */
module Boards {
  import opened Grid

  /** What the player sees in a cell: " " hidden, "0".."8" revealed with
      its mine count, "P" flagged, "#" exploded. */
  datatype Tile = Hidden | Revealed(count: int) | Flagged | Exploded

  /** The tile of every cell of the grid. */
  type Board = map<Cell, Tile>

  /** A fresh board: every cell hidden. */
  function Blank(rows: nat, cols: nat): Board
  {
    map p | p in AllCells(rows, cols) :: Hidden
  }

  /** The cells showing tile t. */
  function Cells(b: Board, t: Tile): set<Cell>
  {
    set p | p in b && b[p] == t
  }

  /** The number of cells showing tile t. */
  function Count(b: Board, t: Tile): nat
  {
    |Cells(b, t)|
  }

  /** Changing one tile moves that cell from one count to another. */
  lemma CountAfterSet(b: Board, p: Cell, u: Tile, t: Tile)
    requires p in b
    ensures Count(b[p := u], t) == Count(b, t) - Ind(b[p] == t) + Ind(u == t)
  {
    var rest := Cells(b, t) - {p};
    CellsAt(b, p, t);
    CellsAt(b[p := u], p, t);
    forall x | x in rest ensures x in Cells(b[p := u], t) - {p} {
      assert x in b && b[x] == t;
    }
    forall x | x in Cells(b[p := u], t) - {p} ensures x in rest {
      assert x in b && b[x] == t;
    }
    assert Cells(b[p := u], t) - {p} == rest;
  }

  /** The cells showing t are those other than p, and p when it shows t. */
  lemma CellsAt(b: Board, p: Cell, t: Tile)
    requires p in b
    ensures Count(b, t) == |Cells(b, t) - {p}| + Ind(b[p] == t)
  {
    if b[p] == t {
      assert Cells(b, t) == (Cells(b, t) - {p}) + {p};
    } else {
      assert Cells(b, t) == Cells(b, t) - {p};
    }
  }

  /** A count of zero means that no cell shows the tile. */
  lemma NoneLeft(b: Board, t: Tile)
    requires Count(b, t) == 0
    ensures forall p :: p in b ==> b[p] != t
  {
    assert Cells(b, t) == {};
    forall p | p in b
      ensures b[p] != t
    {
      assert p !in Cells(b, t);
    }
  }

  lemma BlankCounts(rows: nat, cols: nat)
    ensures Count(Blank(rows, cols), Hidden) == rows * cols
    ensures Count(Blank(rows, cols), Flagged) == 0
  {
    assert Cells(Blank(rows, cols), Hidden) == AllCells(rows, cols);
    assert Cells(Blank(rows, cols), Flagged) == {};
    AllCellsSize(rows, cols);
  }

  /** p is settled in b: when p shows 0, none of its neighbours is hidden. */
  predicate Settled(b: Board, p: Cell)
  {
    p in b && b[p] == Revealed(0) ==> forall q :: q in b && Adjacent(p, q) ==> b[q] != Hidden
  }

  /** Going from b0 to b1 unsettles no cell. */
  predicate NoNewUnsettled(b0: Board, b1: Board)
  {
    forall p :: p in b0 && Settled(b0, p) ==> Settled(b1, p)
  }
}
