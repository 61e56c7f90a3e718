/** What the engine's operations guarantee, proved about the value model. */
module Properties {
  import opened Grid
  import opened Boards
  import opened Rules

  // ---------------------------------------------------------------------
  // Construction

  /** A new game: every cell hidden, n_remaining == n_mine,
      __n_unvisited == rows*cols, ongoing, exactly n_mine mine cells. */
  lemma StartIsValid(f: Minefield)
    requires WellFormed(f)
    ensures Inv(f, Start(f))
    ensures forall p :: p in Start(f).tiles ==> Start(f).tiles[p] == Hidden
    ensures Count(Start(f).tiles, Hidden) == f.rows * f.cols
    ensures |Mines(f)| == |f.mines|
  {
    BlankCounts(f.rows, f.cols);
    MineCellsSize(f.mines, f.rows, f.cols);
    MulMono(1, f.rows, f.cols);
  }

  // ---------------------------------------------------------------------
  // The board check

  /** Once no cell is hidden in a game that was never lost, every mine
      is flagged and the board check declares a win. */
  lemma ResolvedIsWon(f: Minefield, g: Game)
    requires Core(f, g) && g.status == Ongoing && g.nUnvisited == 0
    ensures forall p :: p in Mines(f) ==> p in g.tiles && g.tiles[p] == Flagged
    ensures CheckBoard(f, g) == g.(status := Won)
  {
    NoneLeft(g.tiles, Hidden);
    MineCellsSize(f.mines, f.rows, f.cols);
    var k := FirstUnflagged(f, g.tiles, 0);
    if k < |f.mines| {
      assert false;
    }
  }

  /** The board check stops at the first mine of the list that is not
      flagged: it explodes that one, and wins when there is none. */
  lemma CheckBoardStopsAt(f: Minefield, g: Game, k: nat)
    requires WellFormed(f) && Covers(f, g) && k <= |f.mines|
    requires forall t :: 0 <= t < k ==> g.tiles[MineAt(f, t)] == Flagged
    requires k < |f.mines| ==> g.tiles[MineAt(f, k)] != Flagged
    ensures CheckBoard(f, g) == if k < |f.mines| then Detonate(g, MineAt(f, k)) else g.(status := Won)
  {
    var first := FirstUnflagged(f, g.tiles, 0);
    if first != k {
      assert false;
    }
  }

  /** A won game is solved: every mine flagged, every other cell revealed
      with its count, and no flag left. */
  lemma WonIsSolved(f: Minefield, g: Game)
    requires Inv(f, g) && g.status == Won
    ensures forall p :: p in g.tiles ==>
      g.tiles[p] == if p in Mines(f) then Flagged else Revealed(CountAt(f, p))
    ensures g.nRemaining == 0
  {
    ResolvedIsWon(f, g.(status := Ongoing));
    NoneLeft(g.tiles, Hidden);
    MineCellsSize(f.mines, f.rows, f.cols);
    var flagged := Cells(g.tiles, Flagged);
    assert Mines(f) <= flagged;
    assert |flagged| <= |Mines(f)|;
    assert flagged == Mines(f) by {
      assert |flagged - Mines(f)| == |flagged| - |Mines(f)|;
    }
  }

  // ---------------------------------------------------------------------
  // Visiting

  /** Revealing one hidden safe cell: its tile becomes its count,
      __n_unvisited drops by one, and the status follows __n_unvisited. */
  lemma UncoverStep(f: Minefield, g: Game, p: Cell)
    requires Inv(f, g) && g.status != Lost
    requires InBounds(f.rows, f.cols, p) && p !in Mines(f) && g.tiles[p] == Hidden
    ensures Uncover(f, g, p).tiles == g.tiles[p := Revealed(CountAt(f, p))]
    ensures Uncover(f, g, p).nRemaining == g.nRemaining
    ensures Uncover(f, g, p).nUnvisited == g.nUnvisited - 1
    ensures Uncover(f, g, p).status == if g.nUnvisited == 1 then Won else Ongoing
    ensures Inv(f, Uncover(f, g, p))
  {
    assert p in Cells(g.tiles, Hidden);
    CountAfterSet(g.tiles, p, Revealed(CountAt(f, p)), Hidden);
    CountAfterSet(g.tiles, p, Revealed(CountAt(f, p)), Flagged);
    var g1 := g.(tiles := g.tiles[p := Revealed(CountAt(f, p))], nUnvisited := g.nUnvisited - 1);
    if g1.nUnvisited == 0 {
      ResolvedIsWon(f, g1);
    }
  }

  /** Visiting an in-bounds safe cell of a game still in play reveals
      hidden safe cells only, leaves no newly revealed 0 with a hidden
      neighbour, leaves the cell itself not hidden, keeps the flags and
      the invariant, and never loses. */
  lemma {:induction false} VisitCellCascade(f: Minefield, g: Game, p: Cell)
    requires Inv(f, g) && g.status != Lost
    requires InBounds(f.rows, f.cols, p) && p !in Mines(f)
    ensures Inv(f, VisitCell(f, g, p)) && VisitCell(f, g, p).status != Lost
    ensures VisitCell(f, g, p).nRemaining == g.nRemaining
    ensures RevealsOnly(f, g.tiles, VisitCell(f, g, p).tiles)
    ensures NoNewUnsettled(g.tiles, VisitCell(f, g, p).tiles)
    ensures p in g.tiles && VisitCell(f, g, p).tiles[p] != Hidden
    decreases Count(g.tiles, Hidden), 0, 0
  {
    if g.tiles[p] == Hidden {
      var g2 := Uncover(f, g, p);
      UncoverStep(f, g, p);
      RevealSettlesOthers(g.tiles, p, CountAt(f, p));
      assert RevealsOnly(f, g.tiles, g2.tiles);
      if CountAt(f, p) == 0 {
        var qs := Around(f.rows, f.cols, p);
        AroundIsNeighbours(f.rows, f.cols, p);
        ZeroCount(Mines(f), f.rows, f.cols, p);
        VisitAllCascade(f, g2, qs);
        var g' := VisitAll(f, g2, qs);
        RevealsOnlyTrans(f, g.tiles, g2.tiles, g'.tiles);
        assert Settled(g'.tiles, p);
        forall q | q in g.tiles && Settled(g.tiles, q)
          ensures Settled(g'.tiles, q)
        {
          if q != p {
            assert Settled(g2.tiles, q);
          }
        }
      }
    }
  }

  /** Revealing a hidden cell unsettles no other cell. */
  lemma RevealSettlesOthers(b: Board, p: Cell, n: int)
    requires p in b && b[p] == Hidden
    ensures forall q :: q in b && q != p && Settled(b, q) ==> Settled(b[p := Revealed(n)], q)
  {
  }

  lemma RevealsOnlyTrans(f: Minefield, b0: Board, b1: Board, b2: Board)
    requires RevealsOnly(f, b0, b1) && RevealsOnly(f, b1, b2)
    ensures RevealsOnly(f, b0, b2)
  {
  }

  /** VisitCellCascade for each cell of qs in turn. */
  lemma {:induction false} VisitAllCascade(f: Minefield, g: Game, qs: seq<Cell>)
    requires Inv(f, g) && g.status != Lost
    requires forall q :: q in qs ==> InBounds(f.rows, f.cols, q) && q !in Mines(f)
    ensures Inv(f, VisitAll(f, g, qs)) && VisitAll(f, g, qs).status != Lost
    ensures VisitAll(f, g, qs).nRemaining == g.nRemaining
    ensures RevealsOnly(f, g.tiles, VisitAll(f, g, qs).tiles)
    ensures NoNewUnsettled(g.tiles, VisitAll(f, g, qs).tiles)
    ensures forall q :: q in qs ==> q in g.tiles && VisitAll(f, g, qs).tiles[q] != Hidden
    decreases Count(g.tiles, Hidden), 1, |qs|
  {
    if qs != [] {
      VisitCellCascade(f, g, qs[0]);
      var g1 := VisitCell(f, g, qs[0]);
      VisitAllCascade(f, g1, qs[1..]);
    }
  }

  /** Visiting a hidden safe cell uncovers it, then floods its neighbours
      when its count is 0. */
  lemma VisitHiddenSafe(f: Minefield, g: Game, p: Cell)
    requires WellFormed(f) && Covers(f, g)
    requires InBounds(f.rows, f.cols, p) && p !in Mines(f) && p in g.tiles && g.tiles[p] == Hidden
    ensures VisitCell(f, g, p) ==
      if CountAt(f, p) == 0 then VisitAll(f, Uncover(f, g, p), Around(f.rows, f.cols, p))
      else Uncover(f, g, p)
  {
  }

  /** Visiting the cells of qs and then q is visiting the cells of qs + [q]. */
  lemma {:induction false} VisitAllSnoc(f: Minefield, g: Game, qs: seq<Cell>, q: Cell)
    requires WellFormed(f) && Covers(f, g)
    ensures VisitAll(f, g, qs + [q]) == VisitCell(f, VisitAll(f, g, qs), q)
    decreases |qs|
  {
    if qs == [] {
      assert [] + [q] == [q];
    } else {
      assert (qs + [q])[1..] == qs[1..] + [q];
      VisitAllSnoc(f, VisitCell(f, g, qs[0]), qs[1..], q);
    }
  }

  // ---------------------------------------------------------------------
  // The flood fill reveals exactly the region reached from the cell

  /** A zero path of a later board was already one of the earlier board. */
  lemma ZeroPathEarlier(f: Minefield, b0: Board, b1: Board, path: seq<Cell>)
    requires RevealsOnly(f, b0, b1) && ZeroPath(f, b1, path)
    ensures ZeroPath(f, b0, path)
  {
    forall k | 0 <= k < |path|
      ensures path[k] in b0 && b0[path[k]] == Hidden
    {
      assert path[k] in b1 && b1[path[k]] == Hidden;
    }
  }

  /** What a later board reaches, the earlier board reached already. */
  lemma ReachedEarlier(f: Minefield, b0: Board, b1: Board, p: Cell, q: Cell)
    requires RevealsOnly(f, b0, b1) && Reached(f, b1, p, q)
    ensures Reached(f, b0, p, q)
  {
    var path :| ZeroPath(f, b1, path) && path[0] == p && path[|path| - 1] == q;
    ZeroPathEarlier(f, b0, b1, path);
  }

  /** A hidden cell with count 0 next to r reaches whatever r reaches. */
  lemma ReachedExtend(f: Minefield, b: Board, p: Cell, r: Cell, q: Cell)
    requires Reached(f, b, r, q) && p in b && b[p] == Hidden
    requires CountAt(f, p) == 0 && Adjacent(p, r)
    ensures Reached(f, b, p, q)
  {
    var path :| ZeroPath(f, b, path) && path[0] == r && path[|path| - 1] == q;
    ZeroPathExtend(f, b, p, path);
    assert ([p] + path)[|path|] == q;
  }

  /** Once the start of a zero path is uncovered on a board that only
      reveals and unsettles nothing, every cell of the path is revealed. */
  lemma {:induction false} PathUncovered(f: Minefield, b0: Board, b1: Board, path: seq<Cell>, k: nat)
    requires RevealsOnly(f, b0, b1) && NoNewUnsettled(b0, b1) && ZeroPath(f, b0, path)
    requires b1[path[0]] != Hidden && k < |path|
    ensures b1[path[k]] == Revealed(CountAt(f, path[k]))
  {
    if k > 0 {
      PathUncovered(f, b0, b1, path, k - 1);
      var q := path[k - 1];
      assert Settled(b0, q);
      assert Settled(b1, q) && Adjacent(q, path[k]);
      assert b1[path[k]] != Hidden;
    }
  }

  /** Every tile visiting p changes lies on a zero path from p. */
  lemma {:induction false} VisitCellOnlyReached(f: Minefield, g: Game, p: Cell)
    requires Inv(f, g) && g.status != Lost
    requires InBounds(f.rows, f.cols, p) && p !in Mines(f)
    ensures forall q :: q in g.tiles && VisitCell(f, g, p).tiles[q] != g.tiles[q] ==> Reached(f, g.tiles, p, q)
    decreases Count(g.tiles, Hidden), 0, 1
  {
    InAllCells(f.rows, f.cols, p);
    if g.tiles[p] == Hidden {
      assert ZeroPath(f, g.tiles, [p]);
      VisitHiddenSafe(f, g, p);
      if CountAt(f, p) == 0 {
        FloodOnlyReached(f, g, p);
      } else {
        UncoverStep(f, g, p);
      }
    }
  }

  /** The flood from a hidden cell with count 0 changes only the cell
      itself and what its neighbours reach. */
  lemma {:induction false} FloodOnlyReached(f: Minefield, g: Game, p: Cell)
    requires Inv(f, g) && g.status != Lost
    requires InBounds(f.rows, f.cols, p) && p !in Mines(f)
    requires p in g.tiles && g.tiles[p] == Hidden && CountAt(f, p) == 0
    ensures var g' := VisitAll(f, Uncover(f, g, p), Around(f.rows, f.cols, p));
      forall q :: q in g.tiles && g'.tiles[q] != g.tiles[q] ==> Reached(f, g.tiles, p, q)
    decreases Count(g.tiles, Hidden), 0, 0
  {
    var g2 := Uncover(f, g, p);
    UncoverStep(f, g, p);
    assert ZeroPath(f, g.tiles, [p]);
    var qs := Around(f.rows, f.cols, p);
    AroundIsNeighbours(f.rows, f.cols, p);
    ZeroCount(Mines(f), f.rows, f.cols, p);
    VisitAllOnlyReached(f, g2, qs);
    var g' := VisitAll(f, g2, qs);
    forall q | q in g.tiles && g'.tiles[q] != g.tiles[q]
      ensures Reached(f, g.tiles, p, q)
    {
      if q != p {
        var k :| 0 <= k < |qs| && Reached(f, g2.tiles, qs[k], q);
        ReachedEarlier(f, g.tiles, g2.tiles, qs[k], q);
        ReachedExtend(f, g.tiles, p, qs[k], q);
      }
    }
  }

  /** A hidden cell with count 0 next to the start of a zero path extends it. */
  lemma ZeroPathExtend(f: Minefield, b: Board, p: Cell, path: seq<Cell>)
    requires ZeroPath(f, b, path) && p in b && b[p] == Hidden
    requires CountAt(f, p) == 0 && Adjacent(p, path[0])
    ensures ZeroPath(f, b, [p] + path) && ([p] + path)[0] == p
  {
    var longer := [p] + path;
    forall i | 0 <= i < |longer| - 1
      ensures CountAt(f, longer[i]) == 0 && Adjacent(longer[i], longer[i + 1])
    {
      if i > 0 {
        assert longer[i] == path[i - 1] && longer[i + 1] == path[i];
      }
    }
  }

  /** Every tile visiting the cells of qs changes lies on a zero path
      from one of them. */
  lemma {:induction false} VisitAllOnlyReached(f: Minefield, g: Game, qs: seq<Cell>)
    requires Inv(f, g) && g.status != Lost
    requires forall q :: q in qs ==> InBounds(f.rows, f.cols, q) && q !in Mines(f)
    ensures forall q :: q in g.tiles && VisitAll(f, g, qs).tiles[q] != g.tiles[q] ==>
      exists k :: 0 <= k < |qs| && Reached(f, g.tiles, qs[k], q)
    decreases Count(g.tiles, Hidden), 1, |qs|
  {
    if qs != [] {
      VisitCellCascade(f, g, qs[0]);
      VisitCellOnlyReached(f, g, qs[0]);
      var g1 := VisitCell(f, g, qs[0]);
      VisitAllOnlyReached(f, g1, qs[1..]);
      var g' := VisitAll(f, g, qs);
      forall q | q in g.tiles && g'.tiles[q] != g.tiles[q]
        ensures exists k :: 0 <= k < |qs| && Reached(f, g.tiles, qs[k], q)
      {
        if g1.tiles[q] != g.tiles[q] {
          assert Reached(f, g.tiles, qs[0], q);
        } else {
          var k :| 0 <= k < |qs[1..]| && Reached(f, g1.tiles, qs[1..][k], q);
          ReachedEarlier(f, g.tiles, g1.tiles, qs[k + 1], q);
        }
      }
    }
  }

  /** Visiting a safe cell of a game in play reveals, with its count,
      exactly every cell that a zero path leads to from it, and changes no
      other tile; the flags stay, the invariant holds and the game is not
      lost. */
  lemma VisitReveals(f: Minefield, g: Game, p: Cell)
    requires Inv(f, g) && g.status == Ongoing
    requires InBounds(f.rows, f.cols, p) && p !in Mines(f)
    ensures forall q :: q in g.tiles ==>
      Visit(f, g, p).tiles[q] == if Reached(f, g.tiles, p, q) then Revealed(CountAt(f, q)) else g.tiles[q]
    ensures Visit(f, g, p).tiles.Keys == g.tiles.Keys
    ensures Visit(f, g, p).nRemaining == g.nRemaining
    ensures Inv(f, Visit(f, g, p)) && Visit(f, g, p).status != Lost
  {
    VisitCellCascade(f, g, p);
    VisitCellOnlyReached(f, g, p);
    var g' := VisitCell(f, g, p);
    forall q | q in g.tiles && Reached(f, g.tiles, p, q)
      ensures g'.tiles[q] == Revealed(CountAt(f, q))
    {
      ReachedUncovered(f, g.tiles, g'.tiles, p, q);
    }
  }

  /** Once p is uncovered on a board that only reveals and unsettles
      nothing, every cell a zero path reaches from p is revealed. */
  lemma ReachedUncovered(f: Minefield, b0: Board, b1: Board, p: Cell, q: Cell)
    requires RevealsOnly(f, b0, b1) && NoNewUnsettled(b0, b1)
    requires p in b1 && b1[p] != Hidden && Reached(f, b0, p, q)
    ensures b1[q] == Revealed(CountAt(f, q))
  {
    var path :| ZeroPath(f, b0, path) && path[0] == p && path[|path| - 1] == q;
    PathUncovered(f, b0, b1, path, |path| - 1);
  }

  /** Visiting a mine loses the game, whether the mine is hidden or
      flagged: only its tile changes, to exploded. */
  lemma VisitMine(f: Minefield, g: Game, p: Cell)
    requires Inv(f, g) && g.status == Ongoing && p in Mines(f)
    ensures Visit(f, g, p).status == Lost
    ensures Visit(f, g, p).tiles == g.tiles[p := Exploded]
    ensures Visit(f, g, p).nRemaining == g.nRemaining && Visit(f, g, p).nUnvisited == g.nUnvisited
    ensures Inv(f, Visit(f, g, p))
  {
    MineCellsSize(f.mines, f.rows, f.cols);
    InAllCells(f.rows, f.cols, p);
  }

  /** visit keeps the invariant from any state that has it, and changes
      nothing once the game is over or the cell is off the board. */
  lemma VisitInv(f: Minefield, g: Game, p: Cell)
    requires Inv(f, g)
    ensures Inv(f, Visit(f, g, p))
    ensures g.status != Ongoing || !InBounds(f.rows, f.cols, p) ==> Visit(f, g, p) == g
  {
    if g.status == Ongoing && InBounds(f.rows, f.cols, p) {
      if p in Mines(f) {
        VisitMine(f, g, p);
      } else {
        VisitCellCascade(f, g, p);
      }
    }
  }

  // ---------------------------------------------------------------------
  // Flagging

  /** The tile a flag toggle leaves: hidden and flagged swap, other
      tiles stay. */
  function Toggled(t: Tile): Tile
  {
    match t
    case Hidden => Flagged
    case Flagged => Hidden
    case _ => t
  }

  /** With a flag left, flagging a cell of a game in play toggles its
      flag, moves both counters with it, never loses, and wins exactly
      when no hidden cell is left. */
  lemma FlagToggles(f: Minefield, g: Game, p: Cell)
    requires Inv(f, g) && g.status == Ongoing
    requires InBounds(f.rows, f.cols, p) && g.nRemaining > 0
    ensures p in g.tiles
    ensures Flag(f, g, p).tiles == g.tiles[p := Toggled(g.tiles[p])]
    ensures Flag(f, g, p).nRemaining == g.nRemaining - Ind(g.tiles[p] == Hidden) + Ind(g.tiles[p] == Flagged)
    ensures Flag(f, g, p).nUnvisited == Count(Flag(f, g, p).tiles, Hidden)
    ensures Flag(f, g, p).status == if Flag(f, g, p).nUnvisited == 0 then Won else Ongoing
    ensures Inv(f, Flag(f, g, p))
  {
    InAllCells(f.rows, f.cols, p);
    var t := g.tiles[p];
    CountAfterSet(g.tiles, p, Toggled(t), Hidden);
    CountAfterSet(g.tiles, p, Toggled(t), Flagged);
    var g1 :=
      if t == Hidden then
        g.(tiles := g.tiles[p := Flagged], nRemaining := g.nRemaining - 1, nUnvisited := g.nUnvisited - 1)
      else if t == Flagged then
        g.(tiles := g.tiles[p := Hidden], nRemaining := g.nRemaining + 1, nUnvisited := g.nUnvisited + 1)
      else g;
    assert g1.tiles == g.tiles[p := Toggled(t)];
    assert Core(f, g1);
    if g1.nUnvisited == 0 {
      ResolvedIsWon(f, g1);
    }
  }

  /** flag keeps the invariant from any state that has it, and changes
      nothing once the game is over, off the board, or with no flag left. */
  lemma FlagInv(f: Minefield, g: Game, p: Cell)
    requires Inv(f, g)
    ensures Inv(f, Flag(f, g, p))
    ensures g.status != Ongoing || !InBounds(f.rows, f.cols, p) || g.nRemaining == 0 ==> Flag(f, g, p) == g
  {
    if g.status == Ongoing && InBounds(f.rows, f.cols, p) && g.nRemaining > 0 {
      FlagToggles(f, g, p);
    }
  }

  /** Flagging a hidden cell twice gives the game back, as long as a flag
      is still left after the first and a hidden cell besides it. */
  lemma FlagTwiceHidden(f: Minefield, g: Game, p: Cell)
    requires Inv(f, g) && g.status == Ongoing && InBounds(f.rows, f.cols, p)
    requires p in g.tiles && g.tiles[p] == Hidden
    requires g.nRemaining >= 2 && g.nUnvisited >= 2
    ensures Flag(f, Flag(f, g, p), p) == g
  {
    FlagToggles(f, g, p);
    var g1 := Flag(f, g, p);
    FlagToggles(f, g1, p);
    assert g1.tiles[p := Toggled(g1.tiles[p])] == g.tiles;
  }

  /** Taking a flag off and putting it back gives the game back. */
  lemma FlagTwiceFlagged(f: Minefield, g: Game, p: Cell)
    requires Inv(f, g) && g.status == Ongoing && InBounds(f.rows, f.cols, p)
    requires p in g.tiles && g.tiles[p] == Flagged && g.nRemaining >= 1
    ensures Flag(f, Flag(f, g, p), p) == g
  {
    FlagToggles(f, g, p);
    var g1 := Flag(f, g, p);
    FlagToggles(f, g1, p);
    assert g1.tiles[p := Toggled(g1.tiles[p])] == g.tiles;
  }

  /** The last flag cannot be taken back: __flag_cell refuses every cell,
      flagged or not, while n_remaining is 0. */
  lemma LastFlagSticks(f: Minefield, g: Game, p: Cell)
    requires Inv(f, g) && g.status == Ongoing && InBounds(f.rows, f.cols, p)
    requires p in g.tiles && g.tiles[p] == Hidden
    requires g.nRemaining == 1 && g.nUnvisited >= 2
    ensures Flag(f, g, p).tiles[p] == Flagged && Flag(f, g, p).nRemaining == 0
    ensures Flag(f, Flag(f, g, p), p) == Flag(f, g, p)
  {
    FlagToggles(f, g, p);
  }

  /** Once every flag is placed and one of them is on a safe cell, the game
      can no longer be won: flag changes nothing and visit either loses or
      leaves the wrong flag where it is. */
  lemma WrongFlagBlocksWin(f: Minefield, g: Game, q: Cell, p: Cell)
    requires Inv(f, g) && g.status == Ongoing && g.nRemaining == 0
    requires q in g.tiles && g.tiles[q] == Flagged && q !in Mines(f)
    ensures Flag(f, g, p) == g
    ensures Visit(f, g, p).status != Won
    ensures Visit(f, g, p).status == Ongoing ==>
      Visit(f, g, p).tiles[q] == Flagged && Visit(f, g, p).nRemaining == 0
  {
    if InBounds(f.rows, f.cols, p) {
      if p in Mines(f) {
        VisitMine(f, g, p);
      } else {
        VisitCellCascade(f, g, p);
        var g' := Visit(f, g, p);
        assert g'.tiles[q] == Flagged;
        if g'.status == Won {
          WonIsSolved(f, g');
        }
      }
    }
  }
}
