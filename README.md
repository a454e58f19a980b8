# Sliding 15-puzzle: the game state of `PuzzleGame`

This project models the game-state core of the browser 15-puzzle in
`TEST1120/game.js`, and proves its properties.

The board is a 4×4 array of cells. Fifteen cells hold the numbered tiles 1 .. 15 and one holds
`null`, the blank. `PuzzleGame` keeps the board together with:
- `emptyIndex`, the position of the blank;
- a `moves` counter;
- a `time` counter;
- an `isGameStarted` flag.

The game state changes in these ways:
- `generateBoard` builds the solved board.
- `shuffleBoard` makes Fisher-Yates passes that never touch the blank. It repeats them until the
  inversion-parity test `isSolvable` accepts the board, or until 1000 passes have been made.
- `moveTile` slides a tile next to the blank into it, if `canMove` allows the move.
- `handleKeyPress` turns an arrow key into such a move.
- `isGameComplete`, `completeGame` and `resetGame` finish a game or start a new one.

The Dafny modules follow that structure:

- `Grid` covers the geometry of the board.
  - Cell `i` lies on row `i / size` and column `i % size`.
  - `CanMove` is `canMove`.
  - `KeyTarget` is the target computation of `handleKeyPress`.
- `Board` covers the board as a value.
  - A board is a `seq<Cell>`, where a cell is `Blank` or `Tile(number)`.
  - It defines the solved board, `isGameComplete`, the destructuring swap and `indexOf`.
  - It defines the invariant the game keeps: the board is a permutation of the solved board, and
    `emptyIndex` names its blank.
- `Solvability` covers the parity test of `isSolvable` and the fact that a legal slide never
  changes its answer.
  - The inversion count is a recursive function (`Inversions`).
  - `Play` applies a sequence of cell activations, each handled the way `moveTile` handles it.
- `Shuffle` describes `shuffleBoard` as a function of the random draws.
- `Game` holds the class `PuzzleGame`.
  - The board is an `array<Cell>`, and the counters are fields.
  - Each mutator is a method proved against the functions above.

`Math.random` becomes an input. Each pass gets a sequence `js` with `js[i] <= i` for step `i`, the
range `Math.floor(Math.random() * (i + 1))` can produce. `ShuffleBoard` gets at least 1000 such
passes.

`size` is the constant 4 in the class. The pure functions take `size` as a parameter, so the
odd-size branch of `isSolvable` is part of the model.

Two limits of the source are kept as they are:

- Shuffle outcome.
  - The comment at game.js:45 says the Fisher-Yates shuffle makes sure the board is solvable.
  - The code keeps that promise only when the retry loop stops before the 1000-pass cap. At the
    cap it keeps the last pass, whatever the parity test says. `ShuffledOutcome` states exactly
    this.
  - The cap can be reached. The draws may make one pass with a single exchange of two tiles,
    which leaves an odd number of inversions, and then 999 passes whose draws exchange nothing
    (every `js[i] == i`). Every one of those boards fails the parity test.
- Arrow keys.
  - The comments at game.js:182, 188, 194 and 200 name the tile each arrow moves.
  - `ArrowUp` moves the tile below the blank up, and `ArrowDown` moves the tile above it down.
  - `ArrowLeft` moves the tile right of the blank to the left, and `ArrowRight` moves the tile left
    of it to the right.
  - `KeyTarget` computes exactly those cells.

Two details of the source are stated as proved facts:

- During the shuffle, `isSolvable` reads the `emptyIndex` stored before the shuffle. That value is
  refreshed only after the loop, by `indexOf(null)`. A pass never moves the blank, so the stale
  value is the right one. `ShuffledInvariant` proves it, and `ShuffleBoard` ensures that
  `emptyIndex` is unchanged.
- The test `this.board[targetIndex] !== null` in `handleKeyPress` always passes. The target of an
  arrow key is next to the blank, so it never holds the blank.

## Model

| member | source | states |
|---|---|---|
| Grid.CanMoveIff | TEST1120/game.js:161-171 | canMove holds exactly when the target is `size` cells before or after the blank, or the neighbouring cell on the same row; never for the blank itself, never across a row end |
| Grid.KeyTargetSpec | TEST1120/game.js:174-205 | the key target is -1 for a non-arrow key and exactly when the blank is on the edge the arrow points away from; otherwise it is the cell below, above, right of or left of the blank, inside the board, and canMove holds of it |
| Grid.UpTarget | TEST1120/game.js:181-186 | ArrowUp: no target exactly when the blank is on the bottom row, else the cell below the blank, a legal move |
| Grid.DownTarget | TEST1120/game.js:187-192 | ArrowDown: no target exactly when the blank is on the top row, else the cell above the blank, a legal move |
| Grid.LeftTarget | TEST1120/game.js:193-198 | ArrowLeft: no target exactly when the blank is in the right column, else the cell right of the blank, a legal move |
| Grid.RightTarget | TEST1120/game.js:199-204 | ArrowRight: no target exactly when the blank is in the left column, else the cell left of the blank, a legal move |
| Board.CompleteIffSolved | TEST1120/game.js:224-232 | isGameComplete holds exactly of a non-empty board that holds 1 .. n-1 and then the blank, where n is its own length; for n = size * size this is the board generateBoard builds |
| Board.SolvedInvariant | TEST1120/game.js:34-42 | the generated board keeps the game invariant with the blank in the last cell, and it is complete |
| Board.Swap | TEST1120/game.js:144 | the destructuring swap exchanges the two cells and leaves every other cell and the length as they were |
| Board.IndexOf | TEST1120/game.js:61 | indexOf gives -1 exactly when the value is absent, else the first index holding it |
| Board.InvariantBlankOnlyAt | TEST1120/game.js:61 | on a board that keeps the invariant, no cell but emptyIndex holds the blank, so indexOf(null) finds emptyIndex |
| Solvability.TilesAppend | TEST1120/game.js:67 | dropping the blank distributes over concatenation of boards |
| Solvability.InsertInversions | TEST1120/game.js:69-75 | inserting a number adds the inversions it forms with the numbers before and after it |
| Solvability.MovePastParity | TEST1120/game.js:69-75 | moving a number past a run of other numbers changes the inversion count by the run's length modulo 2 |
| Solvability.TilesAroundBlank | TEST1120/game.js:67 | the tiles of a board cut around a tile and the blank are the tiles of the pieces, with the tile's number on its side of the stretch between |
| Solvability.SwapParity | TEST1120/game.js:66-75 | exchanging a tile with the blank across a blank-free stretch changes the inversion count by the stretch's length modulo 2 |
| Solvability.TileFirstParity | TEST1120/game.js:66-75 | the same for a board with the tile before the blank |
| Solvability.BlankFirstParity | TEST1120/game.js:66-75 | the same for a board with the blank before the tile |
| Solvability.SwapAcross | TEST1120/game.js:66-75 | exchanging the blank with a tile across cells holding neither changes the inversion count by the number of those cells modulo 2 |
| Solvability.SlideSpan | TEST1120/game.js:161-171 | a legal slide exchanges two cells one apart on a row or `size` apart, every cell between them holds a tile other than the moved one, and the slide is that exchange |
| Solvability.SpanParity | TEST1120/game.js:64-89 | a horizontal slide keeps the blank's row and the inversion parity; a vertical one moves the blank one row and changes the inversion count by size - 1 modulo 2 |
| Solvability.ParityRule | TEST1120/game.js:78-88 | the parity test gives the same answer after an unchanged row with unchanged inversion parity, or a move to the adjacent row with the parity changed by size - 1, in either direction |
| Solvability.SolvableRule | TEST1120/game.js:78-88 | ParityRule applied to two boards whose blanks sit at the two ends of a slide |
| Solvability.SpanSolvable | TEST1120/game.js:64-89 | exchanging the blank across a legal span leaves the answer of isSolvable unchanged |
| Solvability.SlideKeepsInvariant | TEST1120/game.js:144-145 | a slide into the blank keeps the board a permutation of the solved board, with the blank at the moved tile's old cell |
| Solvability.SlidePreservesSolvability | TEST1120/game.js:64-89 | a legal moveTile keeps the invariant and does not change the answer of isSolvable |
| Solvability.PlayPreservesSolvability | TEST1120/game.js:134-159 | any sequence of cell activations handled as moveTile handles them keeps the invariant and the answer of isSolvable |
| Solvability.SolvedInversions | TEST1120/game.js:69-75 | the tiles of the solved board from any cell on are increasing and have no inversions |
| Solvability.SolvedIsSolvable | TEST1120/game.js:64-89 | isSolvable accepts the generated board: no inversions, blank on row 1 counted from the bottom |
| Solvability.ReachableIsSolvable | TEST1120/game.js:134-159 | every board reached from the solved board by moves passes isSolvable |
| Shuffle.StepKeeps | TEST1120/game.js:53-55 | one step of the pass rearranges the cells and never moves the blank |
| Shuffle.PassFromKeeps | TEST1120/game.js:51-56 | a run of steps rearranges the cells and leaves every blank in place |
| Shuffle.PassKeeps | TEST1120/game.js:51-56 | a whole Fisher-Yates pass is a permutation that leaves every blank in place |
| Shuffle.ShuffleFromOutcome | TEST1120/game.js:49-58 | from any point of the retry loop: a permutation with the blanks in place, at most 1000 passes in all, and stopping short of the cap means the parity test accepted the board |
| Shuffle.ShuffledOutcome | TEST1120/game.js:46-58 | the retry loop makes between 1 and 1000 passes, yields a permutation with the blanks in place, and yields a board isSolvable accepts whenever it stops before the cap |
| Shuffle.ShuffledInvariant | TEST1120/game.js:61 | shuffling keeps the invariant with the blank where it was, so indexOf(null) returns the emptyIndex the parity test read |
| Shuffle.ShuffleStops | TEST1120/game.js:58-61 | where the loop stops, its board and pass count are the outcome of the retry loop, and the board keeps the invariant |
| Game.PuzzleGame.constructor | TEST1120/game.js:2-32 | a new game holds the shuffled solved board with the blank in cell 15, zero moves and time, and is not started |
| Game.PuzzleGame.GenerateBoard | TEST1120/game.js:34-42 | a fresh board holding 1 .. 15 in order and the blank last, emptyIndex 15, other fields unchanged |
| Game.PuzzleGame.ShufflePass | TEST1120/game.js:51-56 | the array after the in-place loop is the Fisher-Yates pass of its old contents |
| Game.PuzzleGame.ExchangeTiles | TEST1120/game.js:53-55 | the array after one step is that step applied to its old contents |
| Game.PuzzleGame.SwapCells | TEST1120/game.js:54 | the array after the destructuring assignment is the swap of its old contents |
| Game.PuzzleGame.ShuffleBoard | TEST1120/game.js:44-62 | the board and pass count are the retry loop's outcome; the invariant holds; emptyIndex is unchanged; 1 to 1000 passes; solvable unless the cap was reached; counters unchanged |
| Game.PuzzleGame.MoveTile | TEST1120/game.js:134-159 | an illegal index changes nothing; a legal one slides that tile into the blank, sets emptyIndex to it and counts the move, and leaves the game started unless the board became complete; the invariant and the answer of isSolvable are kept |
| Game.PuzzleGame.SlideTile | TEST1120/game.js:136-157 | the legal branch of moveTile, with the same effect |
| Game.PuzzleGame.HandleKeyPress | TEST1120/game.js:174-210 | with no target nothing changes; otherwise the target is a legal non-blank cell of the board and the move is made as moveTile makes it |
| Game.PuzzleGame.CompleteGame | TEST1120/game.js:234-238 | the game is no longer started; board, emptyIndex, moves and time are unchanged |
| Game.PuzzleGame.ResetGame | TEST1120/game.js:240-252 | moves and time are zero, the game is not started, and a fresh shuffled solved board keeps the invariant with the blank in cell 15 |

## Left out

- Rendering and the DOM are not modelled: `renderBoard`, the element lookups, the text of the
  move counter, the timer and the message, and the page-load bootstrap. They only present the
  state.
- Event wiring is not modelled: `addEventListeners`, and the `parseInt` of a clicked tile's
  `dataset.index`. The model starts at the index or key each handler receives.
- Timers are not modelled: `startTimer`, `stopTimer` and the `setInterval` tick that increments
  `time`.
  - Every modelled operation keeps `time` unchanged, except the constructor and `ResetGame`, which
    set it to 0.
  - Asynchronous ticks are outside a sequential model.
- `showHint` is not modelled. It only styles tiles, and the tiles it highlights are those for which
  `CanMove` holds.
- `Math.random` is not modelled. Its values are the `js` draws given to `ShufflePass` and
  `ShuffleBoard`. The model covers every outcome those draws allow, but not their probability
  distribution.
- The key event is reduced to its `key` string.
- The model does not claim that a shuffled board is never already solved. The source does not
  guarantee this.
- MoveTile: it requires `index < board.Length`. The source's callers only pass the index of a
  rendered tile or a key target, and both are cells of the board. For an index beyond the board,
  `canMove` can hold in JavaScript, and the swap would then grow the array. That case is not
  modelled.
- ShuffleBoard: it returns the number of passes made, which is a local variable in the source. The
  source does not expose it, but the model uses it to state the 1000-pass cap.
