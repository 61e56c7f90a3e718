# Minesweeper engine in Dafny

This project models the `Minesweeper` class of `minesweeper.py` and proves
properties of the model. The class is a single-player game engine over a
rows × cols grid. It owns:

- a list of mine cell numbers;
- a 0/1 mine map built from that list;
- a table giving, for each cell, the number of mines among its neighbours;
- the board the player sees, where each cell is hidden (`" "`), revealed
  with its count (`"0"`–`"8"`), flagged (`"P"`) or exploded (`"#"`);
- three counters: `n_remaining` (flags left), `__n_unvisited` (hidden cells)
  and `game_status` (0 ongoing, 1 won, 2 lost).

The player calls `visit` and `flag`. A visit reveals a cell and floods
outwards from cells whose count is 0. Once no hidden cell is left,
`__check_board` decides whether the game is won or lost.

The project has five modules:

- `Grid` (grid.dfy): cells, bounds, adjacency, cell numbering
  `m ↦ (m / cols, m % cols)`, mine sets and neighbour counts.
- `Boards` (board.dfy): the board as a map from cells to tiles, and tile
  counts.
- `Rules` (rules.dfy): each engine operation as a function from the old game
  state to the new one, branch for branch. It also defines the invariant
  `Inv` and the flood-fill reach relation `Reached`.
- `Properties` (properties.dfy): lemmas about `Rules`.
- `Engine` (minesweeper.dfy): the imperative class `Minesweeper`. The mine
  map, count table and board are `array2` fields; the counters are mutable
  fields. Every method is proved to change the state exactly as the
  corresponding `Rules` function says. `Valid()` ties the arrays to the
  value model and to `Inv`.

Both the constructor and the count-table method have explicit loops, as in
the source. The flood fill recurses through the 8 guarded neighbour calls,
also as in the source. Termination of that recursion is proved: every
recursive call starts from a board with fewer hidden cells.

### Behaviour of the code that the model keeps

- Visiting a mine explodes it even when it is flagged, because the mine test
  comes before the board test.
- While no flags are left, `flag` refuses every action, including removing a
  flag. The lemmas `Properties.LastFlagSticks` and
  `Properties.WrongFlagBlocksWin` state what follows from this. Once the last
  flag sits on a safe cell, that flag can never be removed and the game can
  never be won; revealing the last hidden cell loses it.
- Un-flagging is refused too while `n_remaining == 0`
  (minesweeper.py:153): the test comes before the board is looked at.
- `__n_unvisited` counts hidden cells only. On a 2×2 grid with a mine at
  (0,0), visiting (1,1) leaves `__n_unvisited` at 3, because only the
  revealed cell leaves the count (`Properties.UncoverStep`).

## Model

| member | source | states |
|---|---|---|
| Engine.Minesweeper.constructor | minesweeper.py:23-67 | For a distinct, in-range list of `nMine` mine numbers: the arrays are fresh and sized rows × cols; the state is `Start`, with every cell hidden, `n_remaining == n_mine`, `__n_unvisited == rows*cols` and status ongoing; the mine map and count table agree with the list; `Valid()` holds |
| Engine.Minesweeper.Create | minesweeper.py:29-37 | No game is returned exactly when `n_mine > rows*cols` (the early return). Otherwise the result is a fresh, valid game of the requested rows, cols and `n_mine`, in its start state, whose mine list is the drawn list |
| Engine.Minesweeper.MineMap | minesweeper.py:39-42 | After the loop, a cell of the map is true if and only if it is `(m // cols, m % cols)` for some `m` in the mine list |
| Engine.Minesweeper.MineCount | minesweeper.py:44-64 | After the loop, every entry equals the number of mine cells among that cell's in-bounds 8 neighbours, not counting the cell itself |
| Engine.Minesweeper.AddAround | minesweeper.py:47-64 | The 8 guarded increments add exactly 1 to each in-bounds neighbour of the mine cell and leave every other entry unchanged |
| Engine.Minesweeper.CheckBoard | minesweeper.py:94-104 | The loop over the mine list leaves the state equal to `Rules.CheckBoard`: the first mine in list order that is not flagged is exploded and the game is lost; if there is none, the game is won |
| Engine.Minesweeper.VisitCell | minesweeper.py:107-146 | The recursive method on the arrays changes the state exactly as `Rules.VisitCell` does, and terminates |
| Engine.Minesweeper.VisitAround | minesweeper.py:130-146 | The 8 guarded recursive calls have the same effect as visiting the in-bounds neighbours in the source's order |
| Engine.Minesweeper.FlagCell | minesweeper.py:149-167 | The state changes exactly as `Rules.FlagCell` does |
| Engine.Minesweeper.SetTile | minesweeper.py:99 | Writing one board entry changes the ghost board at that cell only and keeps the arrays in step with it |
| Engine.Minesweeper.VisitNext | minesweeper.py:131-146 | One guarded neighbour call: when the guard holds, the state advances by visiting that neighbour; otherwise nothing changes |
| Engine.Minesweeper.Visit | minesweeper.py:172-178 | Keeps `Valid()`; the state becomes `Rules.Visit` of the old state, which is the old state when the game is over |
| Engine.Minesweeper.Flag | minesweeper.py:180-186 | Keeps `Valid()`; the state becomes `Rules.Flag` of the old state, which is the old state when the game is over |
| Grid.MinesAroundIsNeighbourCount | minesweeper.py:45-64 | Adding one guarded increment per mine of the list gives the size of the set of in-bounds adjacent mine cells |
| Grid.NeighbourCountAtMost8 | minesweeper.py:45 | A neighbour count is at most 8, so the source's `int8` table never overflows |
| Grid.ZeroCount | minesweeper.py:130 | A count is 0 if and only if no in-bounds neighbour is a mine |
| Grid.LayoutExists | minesweeper.py:32-37 | A list of `n` distinct cell numbers in range exists if and only if `n <= rows*cols` |
| Grid.MineCellsSize | minesweeper.py:37-42 | Distinct in-range mine numbers mark exactly `n_mine` distinct cells |
| Grid.CellOfIndex | minesweeper.py:42 | Decoding the row-major number `i*cols + j` of an in-bounds cell `(i, j)` with `//` and `%` gives the cell back |
| Grid.IndexInRange | minesweeper.py:37 | The row-major number of an in-bounds cell lies in `0 .. rows*cols - 1`, the range the draw picks from |
| Grid.CellOfInjective | minesweeper.py:42 | Distinct cell numbers give distinct cells |
| Grid.AllCellsSize | minesweeper.py:29 | The grid has exactly rows*cols cells |
| Rules.Start | minesweeper.py:26-29 | The start state covers the grid, is ongoing, and meets the counter invariants: `__n_unvisited` is the hidden count and `n_remaining` plus the flagged count is `n_mine` (its full invariant is `Properties.StartIsValid`) |
| Rules.CheckBoard | minesweeper.py:94-104 | The board keeps its cells, no cell becomes hidden, and the flags and `n_remaining` are untouched; which mine explodes is `Properties.CheckBoardStopsAt` |
| Rules.Uncover | minesweeper.py:121-125 | Revealing a hidden cell keeps the board's cells and strictly lowers the hidden count, the measure that makes the flood fill terminate; its effect is `Properties.UncoverStep` |
| Rules.VisitCell | minesweeper.py:107-146 | `__visit_cell` keeps the board's cells and never raises the hidden count, which with `Uncover` bounds the recursion; what it reveals is `Properties.VisitReveals` |
| Rules.VisitAll | minesweeper.py:131-146 | Visiting the cells of a list in turn keeps the board's cells and never raises the hidden count |
| Rules.Around | minesweeper.py:131-146 | The neighbour list has at most 8 cells; which cells those are is `Rules.AroundIsNeighbours` |
| Rules.FlagCell | minesweeper.py:149-167 | `__flag_cell` keeps the board's cells and keeps `n_remaining` plus the number of flagged cells constant; the toggle itself is `Properties.FlagToggles` |
| Rules.Visit | minesweeper.py:172-177 | `visit` keeps the board's cells and never raises the hidden count; its no-op cases are `Properties.VisitInv` |
| Rules.Flag | minesweeper.py:180-185 | `flag` keeps the board's cells and keeps `n_remaining` plus the number of flagged cells constant; its no-op cases are `Properties.FlagInv` |
| Rules.MineAt | minesweeper.py:95-97 | The cell of the k-th mine is in bounds, is a mine and has number `mines[k]` |
| Rules.FirstUnflagged | minesweeper.py:95-102 | The position found is the first in the mine list, from the start position on, whose cell is not flagged, or the list length if every cell is flagged |
| Rules.AroundIsNeighbours | minesweeper.py:131-146 | For an in-bounds cell, the cells the 8 guards let through are exactly its in-bounds neighbours |
| Rules.InAround | minesweeper.py:131-146 | A cell is in the neighbour list exactly when it is one of the 8 offsets and that offset's guard holds |
| Properties.StartIsValid | minesweeper.py:23-67 | The start state meets `Inv`. Every tile is hidden, the hidden count is rows*cols, and there are `n_mine` mine cells |
| Properties.ResolvedIsWon | minesweeper.py:94-104 | When the invariant holds, the game is ongoing and no cell is hidden, every mine is flagged and the board check wins the game |
| Properties.CheckBoardStopsAt | minesweeper.py:95-104 | When all mines before position k are flagged and the k-th is not, the check explodes exactly the k-th mine and loses; when k is the list length, it wins |
| Properties.WonIsSolved | minesweeper.py:94-104 | In a won game every mine is flagged, every safe cell shows its count, and no flags are left |
| Properties.UncoverStep | minesweeper.py:118-125 | Revealing a hidden safe cell sets it to its count, lowers `__n_unvisited` by one, keeps `n_remaining`, wins exactly when it was the last hidden cell, and keeps `Inv` |
| Properties.VisitCellCascade | minesweeper.py:107-146 | Visiting a safe cell keeps `Inv` and never loses the game. It keeps `n_remaining`. It only turns hidden safe cells into their counts, so it never touches a flag or a mine. It creates no revealed 0 next to a hidden cell, and the visited cell is no longer hidden |
| Properties.VisitAllCascade | minesweeper.py:130-146 | The same facts for visiting a list of safe cells in turn; each cell of the list ends up not hidden |
| Properties.VisitAllSnoc | minesweeper.py:130-146 | Visiting `qs + [q]` is visiting `qs` and then `q` |
| Properties.VisitCellOnlyReached | minesweeper.py:107-146 | Every cell that visiting a safe cell changes can be reached from it along a path of hidden cells, each adjacent to the next, where every cell but the last has count 0 |
| Properties.FloodOnlyReached | minesweeper.py:121-146 | The same for the flood from a hidden zero-count cell: reveal it, then visit its 8 neighbours |
| Properties.VisitAllOnlyReached | minesweeper.py:130-146 | Every cell changed by visiting a list of cells is reachable from some cell of the list |
| Properties.ReachedUncovered | minesweeper.py:130-146 | A board that only reveals, creates no revealed 0 next to a hidden cell and has revealed p shows its count on every cell reachable from p |
| Properties.VisitReveals | minesweeper.py:107-146 | In an ongoing game, visiting a safe cell reveals with its count exactly the cells reachable from it through zero-count hidden cells, and leaves every other cell as it was. It keeps the cells and `n_remaining`, keeps `Inv` and never loses |
| Properties.VisitMine | minesweeper.py:112-116 | Visiting a mine in an ongoing game changes only that cell, to exploded, whether it was hidden or flagged. It sets the status to lost, leaves both counters unchanged and keeps `Inv` |
| Properties.VisitInv | minesweeper.py:107-178 | `visit` keeps `Inv`; out of bounds or in a finished game it changes nothing |
| Properties.FlagToggles | minesweeper.py:153-167 | With flags left, `flag` on an in-bounds cell toggles hidden and flagged, leaves other tiles alone, and moves `n_remaining` by −1, +1 or 0. Afterwards `__n_unvisited` is the hidden count and the game is won exactly when it reaches 0. It keeps `Inv` |
| Properties.FlagInv | minesweeper.py:149-186 | `flag` keeps `Inv`; out of bounds, in a finished game or with no flags left it changes nothing |
| Properties.FlagTwiceHidden | minesweeper.py:157-164 | Flagging a hidden cell twice restores the state, when at least two flags and two hidden cells are left |
| Properties.FlagTwiceFlagged | minesweeper.py:157-164 | Un-flagging and re-flagging a flagged cell restores the state while a flag is left |
| Properties.LastFlagSticks | minesweeper.py:153-160 | Placing the last flag leaves no flags, and flagging that cell again changes nothing |
| Properties.WrongFlagBlocksWin | minesweeper.py:112-167 | With no flags left and a flag on a safe cell, `flag` changes nothing and `visit` can never win. An ongoing game after the visit still has that wrong flag |
| Boards.CountAfterSet | minesweeper.py:121-164 | Changing one tile moves that cell out of one tile count and into another, which is the bookkeeping behind `__n_unvisited` |
| Boards.BlankCounts | minesweeper.py:29-67 | A fresh board has rows*cols hidden cells and no flags |

## Left out

- `__show_board` and every `print` call: console rendering only. A
  finished game's "you win"/"you lose" message is not modelled, but the
  status it reports is.
- `np.random.choice`: a foreign random sampler. The mine list is a
  parameter that must be distinct, in range and of length `n_mine`.
  `Grid.LayoutExists` shows that such a list exists exactly when the
  source's draw can succeed.
- The `len(cell) != 2` check: a cell is always a pair of integers here.
- The half-built object that `__init__` leaves when there are too many
  mines. `Engine.Minesweeper.Create` returns `null` in that case, and the
  constructor requires a valid draw.
- numpy `int8` storage of the map and counts. The map is `bool` and the
  counts are unbounded integers; `Grid.NeighbourCountAtMost8` shows that
  they fit.
- Board strings are the datatype `Tile`: `Revealed(n)` stands for
  `str(n)`.
- The default arguments of `__init__` (`size=(9,9)`, `n_mine=10`): the
  size and mine count are always passed explicitly.
- Python's recursion limit: the flood fill at minesweeper.py:130-146 uses
  one interpreter frame per cell along a chain of zero-count cells. On a
  long mine-free strip, such as 1×2000, `visit` would stop with a
  `RecursionError` after about 1000 reveals, with `game_status` still 0.
  The model has no depth limit and reveals the whole region. The default
  9×9 board never comes near the limit.
- Grids with zero rows or columns, and a negative `n_mine`: sizes are
  positive and `n_mine` is a natural number.
- Engine.Minesweeper.Visit, Engine.Minesweeper.Flag: stated for games that
  meet `Valid()`. A game reached by calling the private methods directly
  is not covered.
