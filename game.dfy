/** The game object (game.js:1-268): a board array and the counters that the
    event handlers update in place. Drawing, listeners and the timer callbacks
    are not part of this model; the random draws of the shuffle are passed in. */
module Game {
  import opened Grid
  import opened Board
  import opened Solvability
  import opened Shuffle

  class PuzzleGame {
    /** The side of the board (game.js:3). */
    const size: nat := 4
    var board: array<Cell>
    var emptyIndex: nat
    var moves: nat
    var time: nat
    var isGameStarted: bool

    /** Between events the board is a permutation of the solved board and
        emptyIndex names its blank. */
    ghost predicate Valid()
      reads this, board
    {
      Invariant(board[..], emptyIndex, size)
    }

    /** The constructor with init (game.js:2-32): a solved board, shuffled. */
    constructor(draws: seq<seq<nat>>)
      requires IsShuffleDraw(draws, 16)
      ensures Valid() && fresh(board)
      ensures board[..] == Shuffled(SolvedBoard(size), size * size - 1, size, draws).0
      ensures emptyIndex == size * size - 1 && moves == 0 && time == 0 && !isGameStarted
    {
      board := new Cell[0];
      emptyIndex := 15;
      moves := 0;
      time := 0;
      isGameStarted := false;
      new;
      GenerateBoard();
      SolvedInvariant(size);
      var attempts := ShuffleBoard(draws);
    }

    /** generateBoard (game.js:34-42): a new board holding 1 .. 15 in order and
        the blank in the last cell. */
    method GenerateBoard()
      modifies this
      ensures fresh(board) && board[..] == SolvedBoard(size)
      ensures emptyIndex == size * size - 1
      ensures moves == old(moves) && time == old(time) && isGameStarted == old(isGameStarted)
    {
      var n := size * size;
      var cells := new Cell[n];
      for i := 0 to n - 1
        invariant forall k :: 0 <= k < i ==> cells[k] == Tile(k + 1)
        modifies cells
      {
        cells[i] := Tile(i + 1);
      }
      cells[n - 1] := Blank;
      board := cells;
      emptyIndex := n - 1;
      assert forall k :: 0 <= k < n ==> board[k] == SolvedBoard(size)[k];
    }

    /** One Fisher-Yates pass of shuffleBoard (game.js:51-56): from the last cell
        down to cell 1, cell i is exchanged with cell js[i] unless either holds
        the blank. */
    method ShufflePass(js: seq<nat>)
      requires IsPassDraw(js, board.Length)
      modifies board
      ensures board[..] == Pass(old(board[..]), js)
    {
      if board.Length == 0 {
        return;
      }
      ghost var start := board[..];
      assert Pass(start, js) == PassFrom(start, js, board.Length - 1);
      var i: nat := board.Length - 1;
      while i > 0
        invariant i < board.Length && PassFrom(board[..], js, i) == Pass(start, js)
      {
        PassFromStep(board[..], Step(board[..], i, js[i]), js, i);
        ExchangeTiles(i, js[i]);
        i := i - 1;
      }
    }

    /** One step of the pass (game.js:53-55): the two cells are exchanged unless
        either holds the blank. */
    method ExchangeTiles(i: nat, j: nat)
      requires i < board.Length && j < board.Length
      modifies board
      ensures board[..] == Step(old(board[..]), i, j)
    {
      if board[i] != Blank && board[j] != Blank {
        SwapCells(i, j);
      }
    }

    /** The destructuring exchange of two board cells (game.js:54, game.js:144). */
    method SwapCells(i: nat, j: nat)
      requires i < board.Length && j < board.Length
      modifies board
      ensures board[..] == Swap(old(board[..]), i, j)
    {
      board[i], board[j] := board[j], board[i];
      assert board[..] == Swap(old(board[..]), i, j);
    }

    /** shuffleBoard (game.js:44-62): passes are made until the parity test,
        reading the emptyIndex held before the shuffle, accepts the board or
        MaxAttempts passes have been made; then emptyIndex is looked up again.
        The number of passes, a local of the source, is returned. */
    method ShuffleBoard(draws: seq<seq<nat>>) returns (attempts: nat)
      requires Valid() && IsShuffleDraw(draws, board.Length)
      modifies this, board
      ensures board == old(board) && Valid()
      ensures (board[..], attempts) == Shuffled(old(board[..]), old(emptyIndex), size, draws)
      ensures emptyIndex == old(emptyIndex)
      ensures 1 <= attempts <= MaxAttempts
      ensures attempts < MaxAttempts ==> IsSolvable(board[..], emptyIndex, size)
      ensures moves == old(moves) && time == old(time) && isGameStarted == old(isGameStarted)
    {
      ghost var start := board[..];
      ShufflePass(draws[0]);
      attempts := 1;
      while !IsSolvable(board[..], emptyIndex, size) && attempts < MaxAttempts
        invariant 1 <= attempts <= MaxAttempts
        invariant ShuffleFrom(board[..], emptyIndex, size, draws, attempts) == Shuffled(start, emptyIndex, size, draws)
        invariant unchanged(this)
        modifies board
        decreases MaxAttempts - attempts
      {
        ghost var before := board[..];
        assert ShuffleFrom(before, emptyIndex, size, draws, attempts) ==
          ShuffleFrom(Pass(before, draws[attempts]), emptyIndex, size, draws, attempts + 1);
        ShufflePass(draws[attempts]);
        attempts := attempts + 1;
      }
      ShuffleStops(start, emptyIndex, size, draws, board[..], attempts);
      emptyIndex := IndexOf(board[..], Blank);
    }

    /** moveTile (game.js:134-159) without the drawing and the timer start: a
        tile next to the blank slides into it and the move is counted; when that
        completes the board, completeGame runs. Any other index changes nothing.
        Either way the answer of the parity test stays what it was. */
    method MoveTile(index: nat)
      requires Valid() && index < board.Length
      modifies this, board
      ensures board == old(board) && Valid() && time == old(time)
      ensures !CanMove(size, old(emptyIndex), index) ==>
        board[..] == old(board[..]) && emptyIndex == old(emptyIndex) &&
        moves == old(moves) && isGameStarted == old(isGameStarted)
      ensures CanMove(size, old(emptyIndex), index) ==>
        board[..] == Slide(old(board[..]), old(emptyIndex), index) && emptyIndex == index &&
        moves == old(moves) + 1 && isGameStarted == !IsComplete(board[..])
      ensures IsSolvable(board[..], emptyIndex, size) == old(IsSolvable(board[..], emptyIndex, size))
    {
      if CanMove(size, emptyIndex, index) {
        SlideTile(index);
      }
    }

    /** The legal branch of moveTile (game.js:141-157). */
    method SlideTile(index: nat)
      requires Valid() && index < board.Length && CanMove(size, emptyIndex, index)
      modifies this, board
      ensures board == old(board) && Valid() && time == old(time)
      ensures board[..] == Slide(old(board[..]), old(emptyIndex), index) && emptyIndex == index
      ensures moves == old(moves) + 1 && isGameStarted == !IsComplete(board[..])
      ensures IsSolvable(board[..], emptyIndex, size) == old(IsSolvable(board[..], emptyIndex, size))
    {
      ghost var before := board[..];
      SlidePreservesSolvability(before, emptyIndex, index, size);
      if !isGameStarted {
        isGameStarted := true;
      }
      SwapCells(index, emptyIndex);
      emptyIndex := index;
      moves := moves + 1;
      if IsComplete(board[..]) {
        CompleteGame();
      }
    }

    /** handleKeyPress (game.js:174-210): an arrow key slides the tile on the
        named side of the blank into it. A target is only ever a tile next to the
        blank, so the null test of game.js:207 always passes; a key that is not an
        arrow, or an arrow pointing off the board, changes nothing. */
    method HandleKeyPress(key: string)
      requires Valid()
      modifies this, board
      ensures board == old(board) && Valid() && time == old(time)
      ensures var t := KeyTarget(size, old(emptyIndex), key);
        if t == -1 then
          board[..] == old(board[..]) && emptyIndex == old(emptyIndex) &&
          moves == old(moves) && isGameStarted == old(isGameStarted)
        else
          0 <= t < board.Length && CanMove(size, old(emptyIndex), t) && old(board[t]) != Blank &&
          board[..] == Slide(old(board[..]), old(emptyIndex), t) && emptyIndex == t &&
          moves == old(moves) + 1 && isGameStarted == !IsComplete(board[..])
    {
      var targetIndex := KeyTarget(size, emptyIndex, key);
      KeyTargetSpec(size, emptyIndex, key);
      InvariantBlankOnlyAt(board[..], emptyIndex, size);
      if targetIndex != -1 && board[targetIndex] != Blank {
        MoveTile(targetIndex);
      }
    }

    /** completeGame (game.js:234-238) without the timer and the message. */
    method CompleteGame()
      modifies this
      ensures !isGameStarted
      ensures board == old(board) && emptyIndex == old(emptyIndex)
      ensures moves == old(moves) && time == old(time)
    {
      isGameStarted := false;
    }

    /** resetGame (game.js:240-252) without the timer and the drawing: counters
        cleared, then a new solved board, shuffled. */
    method ResetGame(draws: seq<seq<nat>>)
      requires IsShuffleDraw(draws, size * size)
      modifies this
      ensures fresh(board) && Valid()
      ensures board[..] == Shuffled(SolvedBoard(size), size * size - 1, size, draws).0
      ensures emptyIndex == size * size - 1 && moves == 0 && time == 0 && !isGameStarted
    {
      moves := 0;
      time := 0;
      isGameStarted := false;
      GenerateBoard();
      SolvedInvariant(size);
      var attempts := ShuffleBoard(draws);
    }
  }
}
