/** The board as a value: a row-major sequence of cells, each a numbered tile or
    the blank (the `null` of the game's board array). */
module Board {

  datatype Cell = Blank | Tile(number: int)

  /** The board generateBoard builds (game.js:34-42): tiles 1 .. n-1 in order,
      then the blank in the last cell. */
  function SolvedCells(n: nat): (s: seq<Cell>)
  {
    seq(n, i => if i < n - 1 then Tile(i + 1) else Blank)
  }

  function SolvedBoard(size: nat): (s: seq<Cell>)
  {
    SolvedCells(size * size)
  }

  /** isGameComplete (game.js:224-232): every cell but the last holds its own
      number plus one, and the last holds the blank. An empty board is never
      complete, since its last cell reads as undefined. */
  predicate IsComplete(s: seq<Cell>)
  {
    |s| > 0 &&
    (forall i :: 0 <= i < |s| - 1 ==> s[i] == Tile(i + 1)) &&
    s[|s| - 1] == Blank
  }

  /** A board is complete exactly when it is the board generateBoard builds. */
  lemma CompleteIffSolved(s: seq<Cell>)
    ensures IsComplete(s) <==> |s| > 0 && s == SolvedCells(|s|)
  {
    if IsComplete(s) {
      var n := |s|;
      forall i | 0 <= i < n
        ensures s[i] == SolvedCells(n)[i]
      {
        if i < n - 1 {
          assert s[i] == Tile(i + 1);
        }
      }
    }
  }

  /** The destructuring swap of game.js:54 and game.js:144. */
  function Swap(s: seq<Cell>, i: nat, j: nat): (r: seq<Cell>)
    requires i < |s| && j < |s|
    ensures |r| == |s| && r[i] == s[j] && r[j] == s[i]
    ensures forall k :: 0 <= k < |s| && k != i && k != j ==> r[k] == s[k]
  {
    s[i := s[j]][j := s[i]]
  }

  lemma SwapSymmetric(s: seq<Cell>, i: nat, j: nat)
    requires i < |s| && j < |s|
    ensures Swap(s, i, j) == Swap(s, j, i)
  {
  }

  /** Array.prototype.indexOf, as used at game.js:61: the first index holding v,
      or -1 when there is none. */
  function IndexOf(s: seq<Cell>, v: Cell): (r: int)
    ensures r == -1 <==> v !in s
    ensures r != -1 ==> 0 <= r < |s| && s[r] == v && v !in s[..r]
  {
    if s == [] then -1
    else if s[0] == v then 0
    else
      var k := IndexOf(s[1..], v);
      if k == -1 then
        assert s == [s[0]] + s[1..];
        -1
      else
        assert s[..k + 1] == [s[0]] + s[1..][..k];
        k + 1
  }

  predicate Distinct(s: seq<Cell>)
  {
    forall i, j :: 0 <= i < j < |s| ==> s[i] != s[j]
  }

  /** The invariant the game keeps between events: the board is a permutation of
      the solved board (so it holds each tile 1 .. n-1 and one blank), and
      emptyIndex is the position of the blank. */
  ghost predicate Invariant(s: seq<Cell>, emptyIndex: nat, size: nat)
  {
    size > 0 && |s| == size * size && emptyIndex < |s| && s[emptyIndex] == Blank &&
    multiset(s) == multiset(SolvedBoard(size))
  }

  lemma {:induction false} DistinctAtMostOnce(s: seq<Cell>, v: Cell)
    requires Distinct(s)
    ensures multiset(s)[v] <= 1
  {
    if s != [] {
      assert s == [s[0]] + s[1..];
      DistinctAtMostOnce(s[1..], v);
      if v == s[0] {
        assert v !in s[1..] by {
          forall k | 0 <= k < |s[1..]|
            ensures s[1..][k] != v
          {
            assert s[1..][k] == s[k + 1];
          }
        }
      }
    }
  }

  lemma RepeatedTwice(s: seq<Cell>, i: nat, j: nat)
    requires i < j < |s| && s[i] == s[j]
    ensures multiset(s)[s[i]] >= 2
  {
    assert s == s[..i] + [s[i]] + s[i + 1..j] + [s[j]] + s[j + 1..];
  }

  lemma SolvedDistinct(n: nat)
    ensures Distinct(SolvedCells(n))
  {
  }

  /** A permutation of the solved board holds no cell twice. */
  lemma InvariantDistinct(s: seq<Cell>, emptyIndex: nat, size: nat)
    requires Invariant(s, emptyIndex, size)
    ensures Distinct(s)
  {
    forall i, j | 0 <= i < j < |s|
      ensures s[i] != s[j]
    {
      if s[i] == s[j] {
        RepeatedTwice(s, i, j);
        SolvedDistinct(size * size);
        DistinctAtMostOnce(SolvedBoard(size), s[i]);
        assert false;
      }
    }
  }

  /** The blank is the only empty cell, so indexOf(null) finds emptyIndex. */
  lemma InvariantBlankOnlyAt(s: seq<Cell>, emptyIndex: nat, size: nat)
    requires Invariant(s, emptyIndex, size)
    ensures forall k :: 0 <= k < |s| && k != emptyIndex ==> s[k] != Blank
    ensures IndexOf(s, Blank) == emptyIndex
  {
    InvariantDistinct(s, emptyIndex, size);
    assert forall k :: 0 <= k < |s| && k != emptyIndex ==> s[k] != s[emptyIndex];
    var r := IndexOf(s, Blank);
    assert s[r] == Blank;
  }

  /** The solved board satisfies the invariant, with the blank in the last cell. */
  lemma SolvedInvariant(size: nat)
    requires size > 0
    ensures Invariant(SolvedBoard(size), size * size - 1, size)
    ensures IsComplete(SolvedBoard(size))
  {
    CompleteIffSolved(SolvedBoard(size));
  }
}
