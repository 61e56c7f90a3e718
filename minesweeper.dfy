/** The Minesweeper class itself: the mine map, the mine-count table and the
    player's board as arrays updated in place, each method proved to move the
    state exactly as the value model in Rules prescribes. */
module Engine {
  import opened Grid
  import opened Boards
  import opened Rules
  import Properties

  class Minesweeper {
    const rows: Pos
    const cols: Pos
    const nMine: nat
    /** The cell numbers of the mines, in the order they were drawn. */
    const mines: seq<int>
    /** __map: true where a mine lies. */
    const mineMap: array2<bool>
    /** __mine_count: the number of mines among the 8 cells around. */
    const mineCount: array2<int>
    /** board: what the player sees. */
    const board: array2<Tile>
    var nRemaining: int
    var nUnvisited: int
    var status: Status

    /** The size and the mine list, as a value. */
    ghost const field: Minefield
    /** The board, as a value. */
    ghost var tiles: Board

    ghost function State(): Game
      reads this
    {
      Game(tiles, nRemaining, nUnvisited, status)
    }

    /** The arrays have the size of the grid and the mine map and the
        mine-count table agree with the mine list. */
    ghost predicate Tables()
      reads mineMap, mineCount
    {
      field == Minefield(rows, cols, mines) && nMine == |mines| && WellFormed(field) &&
      mineMap.Length0 == rows && mineMap.Length1 == cols &&
      mineCount.Length0 == rows && mineCount.Length1 == cols &&
      board.Length0 == rows && board.Length1 == cols &&
      (forall i, j {:trigger mineMap[i, j]} :: 0 <= i < rows && 0 <= j < cols ==>
        (mineMap[i, j] <==> (i, j) in Mines(field))) &&
      (forall i, j {:trigger mineCount[i, j]} :: 0 <= i < rows && 0 <= j < cols ==>
        mineCount[i, j] == CountAt(field, (i, j)))
    }

    /** The board array shows the tiles of b, which cover the grid. */
    ghost predicate Shows(b: Board)
      reads board
    {
      b.Keys == AllCells(rows, cols) &&
      board.Length0 == rows && board.Length1 == cols &&
      forall i, j :: 0 <= i < rows && 0 <= j < cols ==> board[i, j] == b[(i, j)]
    }

    ghost predicate Shape()
      reads this, mineMap, mineCount, board
    {
      Tables() && Shows(tiles)
    }

    /** What holds between player actions. */
    ghost predicate Valid()
      reads this, mineMap, mineCount, board
    {
      Shape() && Inv(field, State())
    }

    /** __init__ for a size and a mine count that fit, with the cells the
        random draw picked. */
    constructor (rows: Pos, cols: Pos, nMine: nat, draw: seq<int>)
      requires |draw| == nMine && IsLayout(draw, rows, cols)
      ensures Valid() && fresh(mineMap) && fresh(mineCount) && fresh(board)
      ensures this.rows == rows && this.cols == cols && this.nMine == nMine && mines == draw
      ensures State() == Start(field)
    {
      var map0 := MineMap(rows, cols, draw);
      var count0 := MineCount(rows, cols, draw);
      this.rows, this.cols, this.nMine := rows, cols, nMine;
      mines := draw;
      field := Minefield(rows, cols, draw);
      nRemaining := nMine;
      status := Ongoing;
      nUnvisited := rows * cols;
      mineMap, mineCount := map0, count0;
      board := new Tile[rows, cols]((i, j) => Hidden);
      tiles := Blank(rows, cols);
      new;
      Properties.StartIsValid(field);
    }

    /** __init__ with the size and mine count as given: no game when the
        mines do not fit, otherwise a fresh game on the drawn cells (the
        draw is only consulted when the mines fit). */
    static method Create(rows: Pos, cols: Pos, nMine: nat, draw: seq<int>) returns (g: Minesweeper?)
      requires nMine <= rows * cols ==> |draw| == nMine && IsLayout(draw, rows, cols)
      ensures g == null <==> nMine > rows * cols
      ensures g != null ==> fresh(g) && g.Valid() && g.mines == draw && g.State() == Start(g.field)
      ensures g != null ==> g.rows == rows && g.cols == cols && g.nMine == nMine
    {
      if nMine > rows * cols {
        return null;
      }
      g := new Minesweeper(rows, cols, nMine, draw);
    }

    /** The mine-map loop of __init__: set the cell of every mine. */
    static method MineMap(rows: Pos, cols: Pos, mines: seq<int>) returns (m: array2<bool>)
      requires IsLayout(mines, rows, cols)
      ensures fresh(m) && m.Length0 == rows && m.Length1 == cols
      ensures forall i, j {:trigger m[i, j]} :: 0 <= i < rows && 0 <= j < cols ==>
        (m[i, j] <==> (i, j) in Mines(Minefield(rows, cols, mines)))
    {
      m := new bool[rows, cols]((i, j) => false);
      for k := 0 to |mines|
        invariant forall i, j :: 0 <= i < rows && 0 <= j < cols ==>
          (m[i, j] <==> (i, j) in MineCells(mines[..k], cols))
      {
        var mine := mines[k];
        CellOfInBounds(mine, rows, cols);
        m[mine / cols, mine % cols] := true;
        MineCellsSnoc(mines[..k], mine, cols);
        assert mines[..k + 1] == mines[..k] + [mine];
      }
      assert mines[..|mines|] == mines;
    }

    /** The mine-count loop of __init__: add one around every mine. */
    static method MineCount(rows: Pos, cols: Pos, mines: seq<int>) returns (m: array2<int>)
      requires IsLayout(mines, rows, cols)
      ensures fresh(m) && m.Length0 == rows && m.Length1 == cols
      ensures forall i, j {:trigger m[i, j]} :: 0 <= i < rows && 0 <= j < cols ==>
        m[i, j] == CountAt(Minefield(rows, cols, mines), (i, j))
    {
      m := new int[rows, cols]((i, j) => 0);
      for k := 0 to |mines|
        invariant forall i, j :: 0 <= i < rows && 0 <= j < cols ==> m[i, j] == MinesAround(mines[..k], cols, (i, j))
      {
        var mine := mines[k];
        CellOfInBounds(mine, rows, cols);
        AddAround(m, mine / cols, mine % cols);
        assert mines[..k + 1][..k] == mines[..k];
      }
      assert mines[..|mines|] == mines;
      forall i, j | 0 <= i < rows && 0 <= j < cols
        ensures m[i, j] == CountAt(Minefield(rows, cols, mines), (i, j))
      {
        MinesAroundIsNeighbourCount(mines, rows, cols, (i, j));
      }
    }

    /** The eight guarded increments of the mine-count loop: one more for
        every in-bounds cell adjacent to (i, j), no change elsewhere. */
    static method AddAround(m: array2<int>, i: int, j: int)
      requires 0 <= i < m.Length0 && 0 <= j < m.Length1
      modifies m
      ensures forall x, y :: 0 <= x < m.Length0 && 0 <= y < m.Length1 ==>
        m[x, y] == old(m[x, y]) + Ind(Adjacent((i, j), (x, y)))
    {
      var rows, cols := m.Length0, m.Length1;
      if i > 0 && j > 0 {
        m[i - 1, j - 1] := m[i - 1, j - 1] + 1;
      }
      if j > 0 {
        m[i, j - 1] := m[i, j - 1] + 1;
      }
      if i < rows - 1 && j > 0 {
        m[i + 1, j - 1] := m[i + 1, j - 1] + 1;
      }
      if i > 0 {
        m[i - 1, j] := m[i - 1, j] + 1;
      }
      if i < rows - 1 {
        m[i + 1, j] := m[i + 1, j] + 1;
      }
      if i > 0 && j < cols - 1 {
        m[i - 1, j + 1] := m[i - 1, j + 1] + 1;
      }
      if j < cols - 1 {
        m[i, j + 1] := m[i, j + 1] + 1;
      }
      if i < rows - 1 && j < cols - 1 {
        m[i + 1, j + 1] := m[i + 1, j + 1] + 1;
      }
    }

    /** __check_board: the first mine of the list that is not flagged
        explodes and the game is lost; with every mine flagged it is won. */
    method CheckBoard()
      requires Shape()
      modifies this, board
      ensures Shape()
      ensures State() == Rules.CheckBoard(field, old(State()))
    {
      for k := 0 to |mines|
        invariant Shape() && State() == old(State())
        invariant forall t :: 0 <= t < k ==> tiles[MineAt(field, t)] == Flagged
      {
        var i, j := mines[k] / cols, mines[k] % cols;
        assert (i, j) == MineAt(field, k);
        if board[i, j] != Flagged {
          Properties.CheckBoardStopsAt(field, State(), k);
          SetTile(i, j, Exploded);
          status := Lost;
          return;
        }
      }
      Properties.CheckBoardStopsAt(field, State(), |mines|);
      status := Won;
    }

    /** Set one tile of the board. */
    method SetTile(i: int, j: int, t: Tile)
      requires Shape() && 0 <= i < rows && 0 <= j < cols
      modifies this, board
      ensures Shape()
      ensures State() == old(State()).(tiles := old(tiles)[(i, j) := t])
    {
      InAllCells(rows, cols, (i, j));
      board[i, j] := t;
      tiles := tiles[(i, j) := t];
    }

    /** __visit_cell. */
    method VisitCell(i: int, j: int)
      requires Shape()
      modifies this, board
      ensures Shape()
      ensures State() == Rules.VisitCell(field, old(State()), (i, j))
      decreases Count(tiles, Hidden), 0
    {
      if !(0 <= i < rows && 0 <= j < cols) {
        return;
      }
      InAllCells(rows, cols, (i, j));
      if mineMap[i, j] {
        SetTile(i, j, Exploded);
        status := Lost;
        return;
      }
      if board[i, j] != Hidden {
        return;
      }
      ghost var g := State();
      var n := mineCount[i, j];
      SetTile(i, j, Revealed(n));
      nUnvisited := nUnvisited - 1;
      if nUnvisited == 0 {
        CheckBoard();
      }
      assert State() == Uncover(field, g, (i, j));
      if n == 0 {
        VisitAround(i, j);
      }
    }

    /** The recursion of __visit_cell around a cell with no mine next to
        it: visit its in-bounds neighbours in the fixed order. */
    method VisitAround(i: int, j: int)
      requires Shape() && 0 <= i < rows && 0 <= j < cols
      modifies this, board
      ensures Shape()
      ensures State() == VisitAll(field, old(State()), Around(rows, cols, (i, j)))
      decreases Count(tiles, Hidden), 2
    {
      ghost var g := State();
      ghost var done: seq<Cell> := [];
      VisitNext(i > 0 && j > 0, i - 1, j - 1, g, done);
      done := done + When(i > 0 && j > 0, (i - 1, j - 1));
      VisitNext(j > 0, i, j - 1, g, done);
      done := done + When(j > 0, (i, j - 1));
      VisitNext(i < rows - 1 && j > 0, i + 1, j - 1, g, done);
      done := done + When(i < rows - 1 && j > 0, (i + 1, j - 1));
      VisitNext(i > 0, i - 1, j, g, done);
      done := done + When(i > 0, (i - 1, j));
      VisitNext(i < rows - 1, i + 1, j, g, done);
      done := done + When(i < rows - 1, (i + 1, j));
      VisitNext(i > 0 && j < cols - 1, i - 1, j + 1, g, done);
      done := done + When(i > 0 && j < cols - 1, (i - 1, j + 1));
      VisitNext(j < cols - 1, i, j + 1, g, done);
      done := done + When(j < cols - 1, (i, j + 1));
      VisitNext(i < rows - 1 && j < cols - 1, i + 1, j + 1, g, done);
      done := done + When(i < rows - 1 && j < cols - 1, (i + 1, j + 1));
      AroundAt(rows, cols, i, j);
    }

    /** One guarded neighbour visit of VisitAround: with the neighbours in
        done visited from g, visit (x, y) next when c holds. */
    method VisitNext(c: bool, x: int, y: int, ghost g: Game, ghost done: seq<Cell>)
      requires Shape() && Covers(field, g) && State() == VisitAll(field, g, done)
      modifies this, board
      ensures Shape()
      ensures State() == VisitAll(field, g, done + When(c, (x, y)))
      decreases Count(g.tiles, Hidden), 1
    {
      if c {
        VisitCell(x, y);
        Properties.VisitAllSnoc(field, g, done, (x, y));
      } else {
        assert done + When(c, (x, y)) == done;
      }
    }

    /** __flag_cell. */
    method FlagCell(i: int, j: int)
      requires Shape()
      modifies this, board
      ensures Shape()
      ensures State() == Rules.FlagCell(field, old(State()), (i, j))
    {
      if !(0 <= i < rows && 0 <= j < cols) {
        return;
      }
      if nRemaining == 0 {
        return;
      }
      InAllCells(rows, cols, (i, j));
      if board[i, j] == Hidden {
        SetTile(i, j, Flagged);
        nRemaining := nRemaining - 1;
        nUnvisited := nUnvisited - 1;
      } else if board[i, j] == Flagged {
        SetTile(i, j, Hidden);
        nRemaining := nRemaining + 1;
        nUnvisited := nUnvisited + 1;
      }
      if nUnvisited == 0 {
        CheckBoard();
      }
    }

    /** visit: the player opens cell (i, j). */
    method Visit(i: int, j: int)
      requires Valid()
      modifies this, board
      ensures Valid()
      ensures State() == Rules.Visit(field, old(State()), (i, j))
    {
      if status != Ongoing {
        return;
      }
      VisitCell(i, j);
      Properties.VisitInv(field, old(State()), (i, j));
    }

    /** flag: the player toggles a flag on cell (i, j). */
    method Flag(i: int, j: int)
      requires Valid()
      modifies this, board
      ensures Valid()
      ensures State() == Rules.Flag(field, old(State()), (i, j))
    {
      if status != Ongoing {
        return;
      }
      FlagCell(i, j);
      Properties.FlagInv(field, old(State()), (i, j));
    }
  }
}
