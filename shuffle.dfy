/** shuffleBoard (game.js:44-62) as a function of the random draws: one
    Fisher-Yates pass that only exchanges two numbered tiles, repeated until the
    parity test accepts the board or 1000 passes have been made. */
module Shuffle {
  import opened Board
  import opened Solvability

  /** The cap on shuffling passes (game.js:47). */
  const MaxAttempts: nat := 1000

  /** The draws of one pass over n cells: step i (from n - 1 down to 1) uses
      js[i], which Math.floor(Math.random() * (i + 1)) keeps within 0 .. i. */
  predicate IsPassDraw(js: seq<nat>, n: nat)
  {
    |js| == n && forall i :: 0 < i < n ==> js[i] <= i
  }

  /** Draws for every pass the retry loop may make. */
  predicate IsShuffleDraw(draws: seq<seq<nat>>, n: nat)
  {
    |draws| >= MaxAttempts && forall a :: 0 <= a < |draws| ==> IsPassDraw(draws[a], n)
  }

  /** One step of the pass (game.js:53-55): cells i and j are exchanged only when
      neither holds the blank. */
  function Step(s: seq<Cell>, i: nat, j: nat): (r: seq<Cell>)
    requires i < |s| && j < |s|
    ensures |r| == |s|
  {
    if s[i] != Blank && s[j] != Blank then Swap(s, i, j) else s
  }

  /** The steps i, i - 1, ..., 1 of a pass, in that order. */
  function PassFrom(s: seq<Cell>, js: seq<nat>, i: nat): (r: seq<Cell>)
    requires i < |s| && IsPassDraw(js, |s|)
    ensures |r| == |s|
    decreases i
  {
    if i == 0 then s else PassFrom(Step(s, i, js[i]), js, i - 1)
  }

  /** The first step of a run of steps, taken out. */
  lemma PassFromStep(s: seq<Cell>, t: seq<Cell>, js: seq<nat>, i: nat)
    requires 0 < i < |s| && IsPassDraw(js, |s|) && t == Step(s, i, js[i])
    ensures PassFrom(s, js, i) == PassFrom(t, js, i - 1)
  {
  }

  /** A whole pass (game.js:51-56): steps |s| - 1 down to 1; none on an empty board. */
  function Pass(s: seq<Cell>, js: seq<nat>): (r: seq<Cell>)
    requires IsPassDraw(js, |s|)
    ensures |r| == |s|
  {
    if |s| == 0 then s else PassFrom(s, js, |s| - 1)
  }

  /** The do-while of game.js:50-58 after `done` passes have left board s: go on
      while the test rejects the board and fewer than MaxAttempts passes were made.
      The answer is the final board and the number of passes. The test reads the
      emptyIndex held before shuffling, as the source does. */
  function ShuffleFrom(s: seq<Cell>, emptyIndex: nat, size: nat, draws: seq<seq<nat>>, done: nat): (r: (seq<Cell>, nat))
    requires size > 0 && IsShuffleDraw(draws, |s|) && done <= MaxAttempts
    decreases MaxAttempts - done
  {
    if !IsSolvable(s, emptyIndex, size) && done < MaxAttempts then
      ShuffleFrom(Pass(s, draws[done]), emptyIndex, size, draws, done + 1)
    else
      (s, done)
  }

  /** The whole retry loop: the first pass always runs. */
  function Shuffled(s: seq<Cell>, emptyIndex: nat, size: nat, draws: seq<seq<nat>>): (r: (seq<Cell>, nat))
    requires size > 0 && IsShuffleDraw(draws, |s|)
  {
    ShuffleFrom(Pass(s, draws[0]), emptyIndex, size, draws, 1)
  }

  /** Which cells of a board hold the blank. */
  function Blanks(s: seq<Cell>): (mask: seq<bool>)
  {
    seq(|s|, k requires 0 <= k < |s| => s[k] == Blank)
  }

  /** A step rearranges the cells and never moves a blank. */
  lemma StepKeeps(s: seq<Cell>, i: nat, j: nat)
    requires i < |s| && j < |s|
    ensures multiset(Step(s, i, j)) == multiset(s)
    ensures Blanks(Step(s, i, j)) == Blanks(s)
  {
  }

  /** So does a run of steps. */
  lemma {:induction false} PassFromKeeps(s: seq<Cell>, js: seq<nat>, i: nat)
    requires i < |s| && IsPassDraw(js, |s|)
    ensures multiset(PassFrom(s, js, i)) == multiset(s)
    ensures Blanks(PassFrom(s, js, i)) == Blanks(s)
    decreases i
  {
    if i > 0 {
      var t := Step(s, i, js[i]);
      assert PassFrom(s, js, i) == PassFrom(t, js, i - 1);
      StepKeeps(s, i, js[i]);
      PassFromKeeps(t, js, i - 1);
    }
  }

  /** A pass is a permutation of the board that leaves every blank where it was. */
  lemma PassKeeps(s: seq<Cell>, js: seq<nat>)
    requires IsPassDraw(js, |s|)
    ensures multiset(Pass(s, js)) == multiset(s)
    ensures Blanks(Pass(s, js)) == Blanks(s)
  {
    if |s| > 0 {
      var p := PassFrom(s, js, |s| - 1);
      PassFromKeeps(s, js, |s| - 1);
      assert Pass(s, js) == p;
    }
  }

  /** What the retry loop promises from any point on: the board is a permutation
      of the one it started from with the blanks in place, between 1 and
      MaxAttempts passes are made in all, and stopping short of the cap means the
      parity test accepted the board. */
  lemma {:induction false} ShuffleFromOutcome(s: seq<Cell>, emptyIndex: nat, size: nat, draws: seq<seq<nat>>, done: nat)
    requires size > 0 && IsShuffleDraw(draws, |s|) && done <= MaxAttempts
    ensures var (s', n) := ShuffleFrom(s, emptyIndex, size, draws, done);
      multiset(s') == multiset(s) && Blanks(s') == Blanks(s) &&
      done <= n <= MaxAttempts &&
      (n < MaxAttempts ==> IsSolvable(s', emptyIndex, size))
    decreases MaxAttempts - done
  {
    if !IsSolvable(s, emptyIndex, size) && done < MaxAttempts {
      var p := Pass(s, draws[done]);
      PassKeeps(s, draws[done]);
      ShuffleFromOutcome(p, emptyIndex, size, draws, done + 1);
    }
  }

  /** The retry loop as a whole (game.js:46-58). */
  lemma ShuffledOutcome(s: seq<Cell>, emptyIndex: nat, size: nat, draws: seq<seq<nat>>)
    requires size > 0 && IsShuffleDraw(draws, |s|)
    ensures var (s', n) := Shuffled(s, emptyIndex, size, draws);
      multiset(s') == multiset(s) && Blanks(s') == Blanks(s) &&
      1 <= n <= MaxAttempts &&
      (n < MaxAttempts ==> IsSolvable(s', emptyIndex, size))
  {
    PassKeeps(s, draws[0]);
    ShuffleFromOutcome(Pass(s, draws[0]), emptyIndex, size, draws, 1);
  }

  /** Shuffling a board that satisfies the invariant keeps it, with the blank where
      it was, so the indexOf(null) of game.js:61 gives back the emptyIndex the
      parity test read. */
  lemma ShuffledInvariant(s: seq<Cell>, emptyIndex: nat, size: nat, draws: seq<seq<nat>>)
    requires Invariant(s, emptyIndex, size) && IsShuffleDraw(draws, |s|)
    ensures Invariant(Shuffled(s, emptyIndex, size, draws).0, emptyIndex, size)
    ensures IndexOf(Shuffled(s, emptyIndex, size, draws).0, Blank) == emptyIndex
  {
    ShuffledOutcome(s, emptyIndex, size, draws);
    var s' := Shuffled(s, emptyIndex, size, draws).0;
    assert Blanks(s')[emptyIndex] == Blanks(s)[emptyIndex];
    InvariantBlankOnlyAt(s', emptyIndex, size);
  }

  /** Where the retry loop stops: once the test accepts board b after n passes,
      or n reaches the cap, b and n are the outcome, and b keeps the invariant
      with the blank where it was. */
  lemma ShuffleStops(s: seq<Cell>, emptyIndex: nat, size: nat, draws: seq<seq<nat>>, b: seq<Cell>, n: nat)
    requires Invariant(s, emptyIndex, size) && IsShuffleDraw(draws, |s|)
    requires |b| == |s| && 1 <= n <= MaxAttempts
    requires ShuffleFrom(b, emptyIndex, size, draws, n) == Shuffled(s, emptyIndex, size, draws)
    requires IsSolvable(b, emptyIndex, size) || n == MaxAttempts
    ensures Shuffled(s, emptyIndex, size, draws) == (b, n)
    ensures Invariant(b, emptyIndex, size) && IndexOf(b, Blank) == emptyIndex
    ensures n < MaxAttempts ==> IsSolvable(b, emptyIndex, size)
  {
    ShuffledInvariant(s, emptyIndex, size, draws);
  }
}
