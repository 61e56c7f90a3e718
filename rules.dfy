/** The game engine as a value: each operation of the Minesweeper class
    as a function from the old state to the new one, branch for branch. */
module Rules {
  import opened Grid
  import opened Boards

  /** game_status: 0 ongoing, 1 won, 2 lost. */
  datatype Status = Ongoing | Won | Lost

  /** What is fixed at construction: the size and the list of mine cell
      numbers, in the order the random draw produced them. */
  datatype Minefield = Minefield(rows: Pos, cols: Pos, mines: seq<int>)

  predicate WellFormed(f: Minefield)
  {
    IsLayout(f.mines, f.rows, f.cols)
  }

  /** The cells the mine map marks with 1. */
  function Mines(f: Minefield): set<Cell>
  {
    MineCells(f.mines, f.cols)
  }

  /** The entry of the mine-count table for p. */
  function CountAt(f: Minefield, p: Cell): nat
  {
    NeighbourCount(Mines(f), f.rows, f.cols, p)
  }

  /** The cell of the k-th mine of the list. */
  function MineAt(f: Minefield, k: nat): (p: Cell)
    requires WellFormed(f) && k < |f.mines|
    ensures InBounds(f.rows, f.cols, p) && p in Mines(f)
    ensures Index(p, f.cols) == f.mines[k]
  {
    CellOfInBounds(f.mines[k], f.rows, f.cols);
    CellOf(f.mines[k], f.cols)
  }

  /** The state the player actions change: the board, n_remaining,
      __n_unvisited and game_status. */
  datatype Game = Game(tiles: Board, nRemaining: int, nUnvisited: int, status: Status)

  /** The board has a tile for exactly the cells of the grid. */
  predicate Covers(f: Minefield, g: Game)
  {
    g.tiles.Keys == AllCells(f.rows, f.cols)
  }

  /** The state right after construction. */
  function Start(f: Minefield): (g: Game)
    ensures Covers(f, g) && g.status == Ongoing
    ensures g.nUnvisited == Count(g.tiles, Hidden) && g.nRemaining + Count(g.tiles, Flagged) == |f.mines|
  {
    BlankCounts(f.rows, f.cols);
    Game(Blank(f.rows, f.cols), |f.mines|, f.rows * f.cols, Ongoing)
  }

  /** The first position in the mine list, from `from` on, whose cell
      is not flagged; |mines| when there is none. */
  function FirstUnflagged(f: Minefield, b: Board, from: nat): (k: nat)
    requires WellFormed(f) && b.Keys == AllCells(f.rows, f.cols) && from <= |f.mines|
    ensures from <= k <= |f.mines|
    ensures forall i :: from <= i < k ==> b[MineAt(f, i)] == Flagged
    ensures k < |f.mines| ==> b[MineAt(f, k)] != Flagged
    decreases |f.mines| - from
  {
    if from == |f.mines| then from
    else
      InAllCells(f.rows, f.cols, MineAt(f, from));
      if b[MineAt(f, from)] != Flagged then from
      else FirstUnflagged(f, b, from + 1)
  }

  /** Mark p as exploded and lose. */
  function Detonate(g: Game, p: Cell): Game
  {
    g.(tiles := g.tiles[p := Exploded], status := Lost)
  }

  /** __check_board: the first mine of the list that is not flagged
      explodes and the game is lost; with every mine flagged it is won. */
  function CheckBoard(f: Minefield, g: Game): (g': Game)
    requires WellFormed(f) && Covers(f, g)
    ensures Covers(f, g')
    ensures Count(g'.tiles, Hidden) <= Count(g.tiles, Hidden)
    ensures g'.nRemaining == g.nRemaining && Count(g'.tiles, Flagged) == Count(g.tiles, Flagged)
  {
    var k := FirstUnflagged(f, g.tiles, 0);
    if k < |f.mines| then
      var p := MineAt(f, k);
      InAllCells(f.rows, f.cols, p);
      CountAfterSet(g.tiles, p, Exploded, Hidden);
      CountAfterSet(g.tiles, p, Exploded, Flagged);
      Detonate(g, p)
    else
      g.(status := Won)
  }

  /** [q] when c holds, nothing otherwise. */
  function When(c: bool, q: Cell): seq<Cell>
  {
    if c then [q] else []
  }

  /** The in-bounds neighbours of p, in the order __visit_cell visits them. */
  function Around(rows: int, cols: int, p: Cell): (qs: seq<Cell>)
    ensures |qs| <= 8
  {
    var (i, j) := p;
    [] +
    When(i > 0 && j > 0, (i - 1, j - 1)) +
    When(j > 0, (i, j - 1)) +
    When(i < rows - 1 && j > 0, (i + 1, j - 1)) +
    When(i > 0, (i - 1, j)) +
    When(i < rows - 1, (i + 1, j)) +
    When(i > 0 && j < cols - 1, (i - 1, j + 1)) +
    When(j < cols - 1, (i, j + 1)) +
    When(i < rows - 1 && j < cols - 1, (i + 1, j + 1))
  }

  lemma InWhen(c: bool, x: Cell, q: Cell)
    ensures q in When(c, x) <==> c && q == x
  {
  }

  /** The cells of Around, one disjunct per guarded visit. */
  lemma InAround(rows: int, cols: int, p: Cell, q: Cell)
    ensures q in Around(rows, cols, p) <==>
      (p.0 > 0 && p.1 > 0 && q == (p.0 - 1, p.1 - 1)) ||
      (p.1 > 0 && q == (p.0, p.1 - 1)) ||
      (p.0 < rows - 1 && p.1 > 0 && q == (p.0 + 1, p.1 - 1)) ||
      (p.0 > 0 && q == (p.0 - 1, p.1)) ||
      (p.0 < rows - 1 && q == (p.0 + 1, p.1)) ||
      (p.0 > 0 && p.1 < cols - 1 && q == (p.0 - 1, p.1 + 1)) ||
      (p.1 < cols - 1 && q == (p.0, p.1 + 1)) ||
      (p.0 < rows - 1 && p.1 < cols - 1 && q == (p.0 + 1, p.1 + 1))
  {
    var (i, j) := p;
    AroundAt(rows, cols, i, j);
    InWhen(i > 0 && j > 0, (i - 1, j - 1), q);
    InWhen(j > 0, (i, j - 1), q);
    InWhen(i < rows - 1 && j > 0, (i + 1, j - 1), q);
    InWhen(i > 0, (i - 1, j), q);
    InWhen(i < rows - 1, (i + 1, j), q);
    InWhen(i > 0 && j < cols - 1, (i - 1, j + 1), q);
    InWhen(j < cols - 1, (i, j + 1), q);
    InWhen(i < rows - 1 && j < cols - 1, (i + 1, j + 1), q);
  }

  /** Around spelled out for the cell (i, j). */
  lemma AroundAt(rows: int, cols: int, i: int, j: int)
    ensures Around(rows, cols, (i, j)) ==
      [] +
      When(i > 0 && j > 0, (i - 1, j - 1)) +
      When(j > 0, (i, j - 1)) +
      When(i < rows - 1 && j > 0, (i + 1, j - 1)) +
      When(i > 0, (i - 1, j)) +
      When(i < rows - 1, (i + 1, j)) +
      When(i > 0 && j < cols - 1, (i - 1, j + 1)) +
      When(j < cols - 1, (i, j + 1)) +
      When(i < rows - 1 && j < cols - 1, (i + 1, j + 1))
  {
  }

  /** A cell is in Around exactly when it is an in-bounds neighbour. */
  lemma AroundIsNeighbours(rows: int, cols: int, p: Cell)
    requires InBounds(rows, cols, p)
    ensures forall q :: q in Around(rows, cols, p) <==> InBounds(rows, cols, q) && Adjacent(p, q)
  {
    forall q
      ensures q in Around(rows, cols, p) <==> InBounds(rows, cols, q) && Adjacent(p, q)
    {
      InAround(rows, cols, p, q);
      var (a, b) := q;
      assert q == (a, b);
    }
  }

  /** Reveal the hidden safe cell p with its count, and check the board
      once no hidden cell is left. */
  function Uncover(f: Minefield, g: Game, p: Cell): (g': Game)
    requires WellFormed(f) && Covers(f, g) && p in g.tiles && g.tiles[p] == Hidden
    ensures Covers(f, g')
    ensures Count(g'.tiles, Hidden) < Count(g.tiles, Hidden)
  {
    var g1 := g.(tiles := g.tiles[p := Revealed(CountAt(f, p))], nUnvisited := g.nUnvisited - 1);
    CountAfterSet(g.tiles, p, Revealed(CountAt(f, p)), Hidden);
    if g1.nUnvisited == 0 then CheckBoard(f, g1) else g1
  }

  /** __visit_cell. */
  function VisitCell(f: Minefield, g: Game, p: Cell): (g': Game)
    requires WellFormed(f) && Covers(f, g)
    ensures Covers(f, g')
    ensures Count(g'.tiles, Hidden) <= Count(g.tiles, Hidden)
    decreases Count(g.tiles, Hidden), 0, 0
  {
    if !InBounds(f.rows, f.cols, p) then g
    else
      InAllCells(f.rows, f.cols, p);
      if p in Mines(f) then
        CountAfterSet(g.tiles, p, Exploded, Hidden);
        Detonate(g, p)
      else if g.tiles[p] != Hidden then g
      else
        var g2 := Uncover(f, g, p);
        if CountAt(f, p) == 0 then VisitAll(f, g2, Around(f.rows, f.cols, p)) else g2
  }

  /** __visit_cell applied to each cell of qs in turn. */
  function VisitAll(f: Minefield, g: Game, qs: seq<Cell>): (g': Game)
    requires WellFormed(f) && Covers(f, g)
    ensures Covers(f, g')
    ensures Count(g'.tiles, Hidden) <= Count(g.tiles, Hidden)
    decreases Count(g.tiles, Hidden), 1, |qs|
  {
    if qs == [] then g else VisitAll(f, VisitCell(f, g, qs[0]), qs[1..])
  }

  /** __flag_cell. */
  function FlagCell(f: Minefield, g: Game, p: Cell): (g': Game)
    requires WellFormed(f) && Covers(f, g)
    ensures Covers(f, g')
    ensures g'.nRemaining + Count(g'.tiles, Flagged) == g.nRemaining + Count(g.tiles, Flagged)
  {
    if !InBounds(f.rows, f.cols, p) then g
    else if g.nRemaining == 0 then g
    else
      InAllCells(f.rows, f.cols, p);
      CountAfterSet(g.tiles, p, Flagged, Flagged);
      CountAfterSet(g.tiles, p, Hidden, Flagged);
      var g1 :=
        if g.tiles[p] == Hidden then
          g.(tiles := g.tiles[p := Flagged], nRemaining := g.nRemaining - 1, nUnvisited := g.nUnvisited - 1)
        else if g.tiles[p] == Flagged then
          g.(tiles := g.tiles[p := Hidden], nRemaining := g.nRemaining + 1, nUnvisited := g.nUnvisited + 1)
        else g;
      if g1.nUnvisited == 0 then CheckBoard(f, g1) else g1
  }

  /** visit: a no-op once the game is over. */
  function Visit(f: Minefield, g: Game, p: Cell): (g': Game)
    requires WellFormed(f) && Covers(f, g)
    ensures Covers(f, g')
    ensures Count(g'.tiles, Hidden) <= Count(g.tiles, Hidden)
  {
    if g.status != Ongoing then g else VisitCell(f, g, p)
  }

  /** flag: a no-op once the game is over. */
  function Flag(f: Minefield, g: Game, p: Cell): (g': Game)
    requires WellFormed(f) && Covers(f, g)
    ensures Covers(f, g')
    ensures g'.nRemaining + Count(g'.tiles, Flagged) == g.nRemaining + Count(g.tiles, Flagged)
  {
    if g.status != Ongoing then g else FlagCell(f, g, p)
  }

  // ---------------------------------------------------------------------
  // Invariants

  /** Revealed tiles are safe cells and show their count. */
  predicate Consistent(f: Minefield, b: Board)
  {
    forall p :: p in b && b[p].Revealed? ==> p !in Mines(f) && b[p].count == CountAt(f, p)
  }

  /** The invariant minus the link between the status and __n_unvisited:
      it also holds between the last reveal and the board check. */
  predicate Core(f: Minefield, g: Game)
  {
    WellFormed(f) && Covers(f, g) && Consistent(f, g.tiles) &&
    (g.status != Lost ==>
      g.nUnvisited == Count(g.tiles, Hidden) &&
      0 <= g.nRemaining && g.nRemaining + Count(g.tiles, Flagged) == |f.mines| &&
      forall p :: p in g.tiles ==> g.tiles[p] != Exploded)
  }

  /** What holds of every state the player can observe. */
  predicate Inv(f: Minefield, g: Game)
  {
    Core(f, g) &&
    (g.status == Ongoing ==> g.nUnvisited > 0) &&
    (g.status == Won ==> g.nUnvisited == 0)
  }

  /** The cells of the revealed region that visiting path[0] would flood:
      hidden cells of b, each adjacent to the next, every one but the
      last with count 0. */
  predicate ZeroPath(f: Minefield, b: Board, path: seq<Cell>)
  {
    |path| > 0 &&
    (forall k :: 0 <= k < |path| ==> path[k] in b && b[path[k]] == Hidden) &&
    (forall k :: 0 <= k < |path| - 1 ==> CountAt(f, path[k]) == 0 && Adjacent(path[k], path[k + 1]))
  }

  /** q can be reached from p along a zero path of b. */
  ghost predicate Reached(f: Minefield, b: Board, p: Cell, q: Cell)
  {
    exists path :: ZeroPath(f, b, path) && path[0] == p && path[|path| - 1] == q
  }

  /** b1 differs from b0 only where a hidden safe cell of b0 is revealed
      with its count. */
  predicate RevealsOnly(f: Minefield, b0: Board, b1: Board)
  {
    b1.Keys == b0.Keys &&
    forall p :: p in b0 ==>
      b1[p] == b0[p] || (b0[p] == Hidden && p !in Mines(f) && b1[p] == Revealed(CountAt(f, p)))
  }
}
