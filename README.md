# 8-puzzle engine

A Dafny model of the sliding-puzzle engine in `script.js`, with proofs about it. The board is a 3x3 grid of nine cells. Eight cells hold the tiles 0 to 7 and one cell is blank. Tile k belongs in cell k, and the blank belongs in cell 8.

The engine keeps four globals:
- `board`;
- `emptyIndex`, the cell the engine believes is blank, called the pointer below;
- `moves`, the number of accepted slides;
- `isPlaying`.

The model covers these pieces of the engine:
- the neighbour list (`getValidMoves`) and the adjacency test (`isAdjacent`);
- the 200-step random-walk shuffle (`shuffleBoard`);
- a click on a tile (`moveTile`) and the win test (`checkWin`);
- the effect on the globals of starting a game, the shuffle button, winning and going back to the menu.

The model has four modules:
- `Board`: cells, grid geometry, exchanges, the win test and `indexOf`.
- `Shuffle`: the random walk as a function of the choices it makes.
- `Solvability`:
  - legal slide paths and walking them back;
  - the parity of tile inversions, which every slide keeps;
  - a deal from a stale pointer that cannot be solved.
- `Puzzle`: class `Engine`, whose fields are the four globals and whose methods are the handlers.

`Engine.Valid()` is the invariant every handler keeps, the deal as written included. Before the first deal there is no board and no slide is accepted. Once a board is dealt:
- it holds each tile and the blank exactly once;
- `emptyIndex` points at the blank.

Solvability is a separate predicate, `Engine.Winnable()`: a ghost field `solution` holds a sequence of legal slides that solves the board. The corrected deal establishes it, and every accepted slide keeps it by putting the slide back in front of `solution`. So with the corrected deal, every board a player can see during or after a game is solvable (`Puzzle.WinnableIsSolvable`). The deal as written keeps `Valid()` but not `Winnable()`; see Findings.

Three facts about the code:
- The code keeps one flag, `isPlaying`. It is false before a game and after a win.
- A slide from cell 5 is undone by clicking cell 8. Clicking the blank is always rejected, because its own cell is never in its neighbour list (`Board.BlankNotListed`).
- A deal is solvable only when `emptyIndex` is on the blank as the walk starts; see Findings.

## Model

| member | source | states |
|---|---|---|
| `Board.ValidMoves` | script.js:142-153 | the neighbour list has 2 entries at a corner, 3 on an edge and 4 at the centre |
| `Board.ValidMovesAreNeighbours` | script.js:142-153 | every entry is a grid cell one step up, down, left or right of the blank, never wrapping across rows, and no entry repeats |
| `Board.JsRem` | script.js:195-197 | JavaScript's truncating `%`: the remainder differs from the dividend by a multiple of the divisor, is smaller than the divisor in size and has the sign of the dividend |
| `Board.Adjacent` | script.js:193-200 | `isAdjacent` never holds of a cell and itself; for two grid cells it holds exactly when they are one step apart on the grid |
| `Board.ValidMovesIffAdjacent` | script.js:180 | for grid cells, membership in the neighbour list and `isAdjacent` agree in both directions |
| `Board.AdjacentOffGrid` | script.js:193-200 | off the grid, `isAdjacent` alone accepts cells that do not exist (-3 next to 0, 11 next to 8), which the neighbour list excludes |
| `Board.BlankNotListed` | script.js:142-153 | the blank's own cell is never in its neighbour list |
| `Board.ValidMovesSymmetric` | script.js:142-153 | if p is a neighbour of e then e is a neighbour of p, so every slide can be undone |
| `Board.Swap` | script.js:181 | the destructuring exchange: the two cells trade contents and every other cell is unchanged |
| `Board.IndexOf` | script.js:122 | `indexOf`: -1 exactly when the value is absent; otherwise an index holding the value with no earlier occurrence |
| `Board.SolvedIsPermutation` | script.js:119-120 | the rebuilt board `0..7, null` holds each tile and the blank once |
| `Board.SwapKeepsPermutation` | script.js:137 | exchanging any two cells keeps each tile and the blank exactly once |
| `Board.BlankIsIndexOf` | script.js:241 | on such a board, `indexOf(null)` finds the one blank, wherever it is |
| `Board.WinMeansSolved` | script.js:202-207 | on such a board, tiles 0 to 7 at home holds exactly when the whole board is solved, blank at 8 included |
| `Board.OneSwapNotWon` | script.js:202-207 | a board one exchange away from solved never passes the win test |
| `Shuffle.Walk` | script.js:133-140 | the 200-step walk keeps a nine-cell board and leaves the pointer on the grid |
| `Shuffle.WalkPermutes` | script.js:133-140 | from any starting pointer, the shuffle only rearranges the board: its multiset of cells is unchanged |
| `Shuffle.WalkKeepsPermutation` | script.js:133-140 | from any starting pointer, a board with each tile and the blank once keeps that property through the shuffle |
| `Shuffle.WalkStep` | script.js:135-138 | one loop pass picks a listed neighbour m, exchanges cells m and pointer, and continues the walk from m |
| `Shuffle.WalkPath` | script.js:136-138 | the cells the pointer visits: one per pick, each on the grid |
| `Shuffle.WalkFollowsBlank` | script.js:133-140 | when the pointer starts on the blank, it ends on the blank |
| `Shuffle.BackAndForthIsIdentity` | script.js:133-140 | from cell 8, n rounds of picks [0, 1] are valid and leave any board unchanged |
| `Shuffle.ShuffleCanDealSolved` | script.js:119-121 | some valid 200-step shuffle from the solved board deals the solved board again |
| `Shuffle.SwapTwice` | script.js:181 | the same exchange done twice restores the board |
| `Solvability.Follow` | script.js:181-182 | a run of accepted slides keeps a nine-cell board with the blank under the pointer |
| `Solvability.SolvesIsFollow` | script.js:176-191 | a click sequence solves a board exactly when each click is accepted and the last one leaves the solved board |
| `Solvability.WalkIsLegal` | script.js:133-140 | a shuffle whose pointer starts on the blank is a sequence of legal slides, so its board is reachable from the start |
| `Solvability.ReturnPath` | script.js:176-191 | every sequence of legal slides can be walked back to the board it started from |
| `Solvability.ReachableIsSolvable` | script.js:176-191 | every board reached from the solved one by legal slides is solved by the slides taken back |
| `Solvability.SlideKeepsSolvable` | script.js:181-182 | after a legal slide, the slide back followed by the old solution solves the new board |
| `Solvability.DealIsSolvable` | script.js:119-121 | a shuffle of the solved board that starts with the pointer on the blank deals a solvable board, blank under the pointer |
| `Solvability.SlideKeepsParity` | script.js:181 | one legal slide keeps the parity of the number of tile inversions, read row by row |
| `Solvability.PathKeepsParity` | script.js:176-191 | any sequence of legal slides keeps that parity |
| `Solvability.SolvedHasNoInversions` | script.js:119-120 | the solved board has no tile inversions |
| `Solvability.SolvableNeedsEvenInversions` | script.js:202-207 | a board with an odd number of tile inversions can never pass the win test by clicking |
| `Solvability.StaleBoardIsOdd` | script.js:122 | the board `0 1 2 3 4 7 6 _ 5` has three tile inversions: 7 > 6, 7 > 5 and 6 > 5 |
| `Solvability.StaleWalk` | script.js:119-121 | with the pointer left at 7, the valid picks 2, then 99 rounds of [0, 1], then 0 move tile 7 and deal `0 1 2 3 4 7 6 _ 5` |
| `Solvability.StaleBoardUnsolvable` | script.js:122 | that board holds each tile once and `indexOf(null)` gives 7, but no sequence of clicks solves it |
| `Puzzle.Engine.constructor` | script.js:16-22 | the globals at load: empty board, pointer 8, no moves, not playing; `Valid()` holds |
| `Puzzle.Engine.ShuffleBoard` | script.js:133-140 | the loop leaves exactly the board and pointer of the walk from its starting board and pointer; the counter and flag are unchanged |
| `Puzzle.Engine.NewBoard` | script.js:119-120 | a fresh array holding the solved board |
| `Puzzle.Engine.DealAsWritten` | script.js:119-122 | the deal in the source's order: the walk runs from the old pointer, then the pointer is set by `indexOf(null)`; `Valid()` holds afterwards |
| `Puzzle.Engine.Deal` | script.js:119-122 | the corrected deal: the walk starts with the pointer on the blank; `Valid()` and `Winnable()` hold afterwards |
| `Puzzle.Engine.StartNewGameAsWritten` | script.js:115-130 | the deal as written, `moves` set to 0 and `isPlaying` set; `Valid()` holds |
| `Puzzle.Engine.StartNewGame` | script.js:115-130 | the corrected deal, `moves` set to 0 and `isPlaying` set; `Valid()` and `Winnable()` hold |
| `Puzzle.Engine.ShuffleClickedAsWritten` | script.js:236-246 | during a game, the deal as written with `moves` set to 0; otherwise nothing at all changes; `Valid()` is kept |
| `Puzzle.Engine.ShuffleClicked` | script.js:236-246 | during a game, the corrected deal with `moves` set to 0 and `Winnable()` established; otherwise nothing at all changes |
| `Puzzle.Engine.CheckWin` | script.js:202-207 | returns true exactly when cells 0 to 7 hold tiles 0 to 7; a missing cell reads as no tile |
| `Puzzle.Engine.EndGame` | script.js:226-227 | slides are no longer accepted; `Valid()` is kept |
| `Puzzle.Engine.MoveTile` | script.js:176-191 | an accepted click exchanges exactly the clicked cell and the blank, moves the pointer there and adds one to `moves`; the game stops exactly when the board becomes solved; a click while not playing, or on a cell not next to the blank, changes nothing; `Valid()` holds on every board and `Winnable()` is kept |
| `Puzzle.Engine.AcceptSlide` | script.js:181-189 | the accepted click: the exchange, pointer and counter update, then `isPlaying` stays true exactly when the board is not solved; `Winnable()` is kept |
| `Puzzle.Engine.Slide` | script.js:181-183 | the accepted slide: the exchange, pointer and counter update, keeping `Valid()` on any dealt board and `Winnable()` |
| `Puzzle.Engine.EndIfWon` | script.js:187-189 | after a slide, `isPlaying` stays true exactly when the board is not solved; nothing else changes |
| `Puzzle.Engine.BackToMenu` | script.js:251-253 | slides are no longer accepted; the board stays as it is |
| `Puzzle.WinnableIsSolvable` | script.js:176-191 | on a board whose known solution the engine has kept, some sequence of clicks wins |
| `Puzzle.AdjacencyIsRedundant` | script.js:180 | the `isAdjacent` half of the guard never rejects a cell that the neighbour list accepts |
| `Puzzle.SlideFacts` | script.js:181-183 | on any dealt board, an accepted slide keeps each tile and the blank once and leaves the blank where the tile was |
| `Puzzle.DealtIsPermutation` | script.js:119-122 | from any pointer, the dealt board holds each tile and the blank once, and `indexOf(null)` finds the blank |
| `Puzzle.DealtFacts` | script.js:121-122 | with the pointer reset to the blank, `indexOf(null)` agrees with the pointer after the walk, and the walk taken back solves the board |

## Left out

- Rendering, menu and game screens, the win banner and the text of the move counter (script.js:2-13, 116-117, 125, 155-174, 184-185, 229-231, 243-244, 254-257): presentation only.
- The timer (script.js:19, 21, 124, 128, 210-223): a periodic callback that only counts seconds.
- The bee and honey-drip animations and `init` (script.js:25-103): no puzzle state.
- The choice of picture (`currentImage`, script.js:18, 109): presentation only.
- Event-listener wiring (script.js:106-113, 235-249, 261-262): the handlers are modelled as methods.
- `Math.random()`: each shuffle takes a list of 200 picks. Each pick is an index into the neighbour list of that step, which `Math.floor(Math.random() * length)` always is. Floating point is not modelled.
- Board values: JavaScript numbers 0 to 7 and `null` are the datatype `Cell`, with `Tile(k)` and `Blank`.
- Puzzle.Engine.StartNewGame: deals with the pointer reset to the blank (`Deal`), not in the source's order. The source's order is `StartNewGameAsWritten`; see Findings.
- Puzzle.Engine.ShuffleClicked: deals with the pointer reset to the blank (`Deal`), for the same reason. The source's order is `ShuffleClickedAsWritten`.
- Puzzle.Engine.MoveTile: the position comes from a rendered tile in the source; the model accepts any integer and states the effect for all of them.

## Findings

| source | as written | input that shows it | evidently intended | confidence | as-written member | corrected member |
|---|---|---|---|---|---|---|
| script.js:119-122 | the board is rebuilt solved but `emptyIndex` keeps its old value, so the shuffle exchanges cells around that cell rather than the blank; the same happens at script.js:238-241 | back to the menu (or the shuffle button) with the blank at 7; then the picks 2, 99 rounds of [0, 1], then 0 deal `0 1 2 3 4 7 6 _ 5`, which has three tile inversions and can never be solved | reset `emptyIndex` to 8 before `shuffleBoard()`, so that every walk moves the blank and every deal is solvable | proved; not executed | `Puzzle.Engine.DealAsWritten` (used by `Puzzle.Engine.StartNewGameAsWritten` and `Puzzle.Engine.ShuffleClickedAsWritten`) with `Solvability.StaleWalk` and `Solvability.StaleBoardUnsolvable` | `Puzzle.Engine.Deal` with `Solvability.DealIsSolvable` and `Puzzle.DealtFacts` |
