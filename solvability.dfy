/** The inversion-parity test of isSolvable and the fact that a legal slide
    never changes its answer. */
module Solvability {
  import opened Grid
  import opened Board

  /** The numbers on the board in board order, the blank dropped
      (the `filter(tile => tile !== null)` of game.js:67). */
  function Tiles(s: seq<Cell>): (t: seq<int>)
  {
    if s == [] then []
    else (if s[0].Blank? then [] else [s[0].number]) + Tiles(s[1..])
  }

  /** How many numbers of t are smaller than x. */
  function CountBelow(x: int, t: seq<int>): (r: nat)
    ensures r <= |t|
  {
    if t == [] then 0 else (if t[0] < x then 1 else 0) + CountBelow(x, t[1..])
  }

  /** How many numbers of t are larger than x. */
  function CountAbove(x: int, t: seq<int>): (r: nat)
    ensures r <= |t|
  {
    if t == [] then 0 else (if t[0] > x then 1 else 0) + CountAbove(x, t[1..])
  }

  /** The number of pairs i < j with t[i] > t[j] (the double loop of game.js:69-75). */
  function Inversions(t: seq<int>): (r: nat)
  {
    if t == [] then 0 else CountBelow(t[0], t[1..]) + Inversions(t[1..])
  }

  /** The inversion count of a board's tiles. */
  function Disorder(s: seq<Cell>): (r: nat)
  {
    Inversions(Tiles(s))
  }

  /** isSolvable (game.js:64-89). For an even side the blank's row is counted from
      the bottom, starting at 1; a blank on an even such row needs an odd number of
      inversions, one on an odd row an even number. For an odd side the number of
      inversions must be even. A negative row count cannot arise for a blank on the
      board; where it would, JavaScript's `% 2 === 0` and Dafny's `% 2 == 0` agree. */
  predicate IsSolvable(s: seq<Cell>, emptyIndex: nat, size: nat)
    requires size > 0
  {
    ParityTest(size, size - Row(size, emptyIndex), Disorder(s))
  }

  /** The decision of isSolvable once the blank's row and the inversions are counted. */
  predicate ParityTest(size: nat, emptyRowFromBottom: int, inversions: nat)
  {
    if size % 2 == 0 then
      if emptyRowFromBottom % 2 == 0 then inversions % 2 == 1 else inversions % 2 == 0
    else
      inversions % 2 == 0
  }

  lemma {:induction false} TilesAppend(a: seq<Cell>, b: seq<Cell>)
    ensures Tiles(a + b) == Tiles(a) + Tiles(b)
  {
    if a == [] {
      assert a + b == b;
    } else {
      assert (a + b)[0] == a[0];
      assert (a + b)[1..] == a[1..] + b;
      TilesAppend(a[1..], b);
    }
  }

  /** Without a blank, every cell contributes its number. */
  lemma {:induction false} TilesNoBlank(s: seq<Cell>)
    requires Blank !in s
    ensures |Tiles(s)| == |s|
    ensures forall x :: x in Tiles(s) <==> Tile(x) in s
  {
    if s != [] {
      assert s == [s[0]] + s[1..];
      TilesNoBlank(s[1..]);
    }
  }

  lemma {:induction false} CountBelowAppend(x: int, a: seq<int>, b: seq<int>)
    ensures CountBelow(x, a + b) == CountBelow(x, a) + CountBelow(x, b)
  {
    if a == [] {
      assert a + b == b;
    } else {
      assert (a + b)[0] == a[0];
      assert (a + b)[1..] == a[1..] + b;
      CountBelowAppend(x, a[1..], b);
    }
  }

  lemma {:induction false} CountAboveAppend(x: int, a: seq<int>, b: seq<int>)
    ensures CountAbove(x, a + b) == CountAbove(x, a) + CountAbove(x, b)
  {
    if a == [] {
      assert a + b == b;
    } else {
      assert (a + b)[0] == a[0];
      assert (a + b)[1..] == a[1..] + b;
      CountAboveAppend(x, a[1..], b);
    }
  }

  /** A number absent from t is either above or below each of its elements. */
  lemma {:induction false} CountSplit(x: int, t: seq<int>)
    requires x !in t
    ensures CountBelow(x, t) + CountAbove(x, t) == |t|
  {
    if t != [] {
      assert t == [t[0]] + t[1..];
      CountSplit(x, t[1..]);
    }
  }

  /** Inserting x between p and q adds the inversions x forms with both sides. */
  lemma {:induction false} InsertInversions(p: seq<int>, x: int, q: seq<int>)
    ensures Inversions(p + [x] + q) == Inversions(p + q) + CountAbove(x, p) + CountBelow(x, q)
  {
    if p == [] {
      assert p + [x] + q == [x] + q;
      assert p + q == q;
    } else {
      var h := p[0];
      assert (p + [x] + q)[1..] == p[1..] + [x] + q;
      assert (p + q)[1..] == p[1..] + q;
      InsertInversions(p[1..], x, q);
      CountBelowAppend(h, p[1..] + [x], q);
      CountBelowAppend(h, p[1..], [x]);
      CountBelowAppend(h, p[1..], q);
    }
  }

  /** Moving x past the numbers of m changes the inversion count by |m| modulo 2. */
  lemma MovePastParity(a: seq<int>, x: int, m: seq<int>, c: seq<int>)
    requires x !in m
    ensures (Inversions(a + [x] + m + c) + Inversions(a + m + [x] + c)) % 2 == |m| % 2
  {
    var rest := Inversions(a + m + c);
    assert a + [x] + m + c == a + [x] + (m + c);
    assert a + (m + c) == a + m + c;
    InsertInversions(a, x, m + c);
    InsertInversions(a + m, x, c);
    CountBelowAppend(x, m, c);
    CountAboveAppend(x, a, m);
    CountSplit(x, m);
    EvenSum(Inversions(a + [x] + m + c), Inversions(a + m + [x] + c),
      rest + CountAbove(x, a) + CountBelow(x, c), |m|);
  }

  /** Two counts that add up to twice a common part plus n agree with n modulo 2. */
  lemma EvenSum(p: int, q: int, k: int, n: int)
    requires p + q == 2 * k + n
    ensures (p + q) % 2 == n % 2
  {
  }

  /** The tiles of a board whose blank and one tile x bound a stretch of cells:
      x comes before or after the stretch's tiles, as it stands before or after it. */
  lemma TilesAroundBlank(pre: seq<Cell>, x: int, mid: seq<Cell>, post: seq<Cell>)
    ensures Tiles(pre + [Tile(x)] + mid + [Blank] + post) == Tiles(pre) + [x] + Tiles(mid) + Tiles(post)
    ensures Tiles(pre + [Blank] + mid + [Tile(x)] + post) == Tiles(pre) + Tiles(mid) + [x] + Tiles(post)
  {
    assert Tiles([Blank]) == [];
    assert Tiles([Tile(x)]) == [x];
    TilesAppend(pre + [Tile(x)] + mid + [Blank], post);
    TilesAppend(pre + [Tile(x)] + mid, [Blank]);
    TilesAppend(pre + [Tile(x)], mid);
    TilesAppend(pre, [Tile(x)]);
    TilesAppend(pre + [Blank] + mid + [Tile(x)], post);
    TilesAppend(pre + [Blank] + mid, [Tile(x)]);
    TilesAppend(pre + [Blank], mid);
    TilesAppend(pre, [Blank]);
  }

  /** A board cut around a tile x and the blank, with a stretch mid between them
      that holds neither; r is the board with the two exchanged. */
  predicate CutAt(s: seq<Cell>, r: seq<Cell>, pre: seq<Cell>, x: int, mid: seq<Cell>, post: seq<Cell>)
  {
    Blank !in mid && Tile(x) !in mid &&
    s == pre + [Tile(x)] + mid + [Blank] + post &&
    r == pre + [Blank] + mid + [Tile(x)] + post
  }

  /** Exchanging the blank with a tile x across a blank-free stretch of cells
      changes the inversion count by the stretch's length modulo 2. */
  lemma SwapParity(s: seq<Cell>, r: seq<Cell>, pre: seq<Cell>, x: int, mid: seq<Cell>, post: seq<Cell>, gap: int)
    requires CutAt(s, r, pre, x, mid, post) && |mid| == gap
    ensures (Disorder(s) + Disorder(r)) % 2 == gap % 2
  {
    TilesNoBlank(mid);
    TilesAroundBlank(pre, x, mid, post);
    MovePastParity(Tiles(pre), x, Tiles(mid), Tiles(post));
  }

  /** Moving a tile into the blank, as moveTile does (game.js:144-145). */
  function Slide(s: seq<Cell>, emptyIndex: nat, index: nat): (r: seq<Cell>)
    requires emptyIndex < |s| && index < |s|
  {
    Swap(s, index, emptyIndex)
  }

  /** The two cells of a legal slide, in board order, and the cells between them:
      none of those is the blank or either end. */
  lemma SlideSpan(s: seq<Cell>, emptyIndex: nat, index: nat, size: nat) returns (lo: nat, hi: nat)
    requires Invariant(s, emptyIndex, size) && index < |s|
    requires CanMove(size, emptyIndex, index)
    ensures (lo == emptyIndex && hi == index) || (lo == index && hi == emptyIndex)
    ensures lo < hi < |s| && ((hi == lo + 1 && Col(size, hi) != 0) || hi == lo + size)
    ensures (s[lo] == Blank && s[hi].Tile?) || (s[lo].Tile? && s[hi] == Blank)
    ensures forall k :: lo < k < hi ==> s[k] != Blank && s[k] != s[lo] && s[k] != s[hi]
    ensures Slide(s, emptyIndex, index) == Swap(s, lo, hi)
  {
    var e, t := emptyIndex, index;
    InvariantDistinct(s, e, size);
    CanMoveIff(size, e, t);
    lo, hi := if e < t then e else t, if e < t then t else e;
    forall k | lo < k < hi
      ensures s[k] != Blank && s[k] != s[lo] && s[k] != s[hi]
    {
      assert s[k] != s[e];
    }
    SwapSymmetric(s, t, e);
  }

  /** Neighbouring cells share a row; cells size apart lie on adjacent rows. */
  lemma SpanRows(size: nat, lo: nat, hi: nat)
    requires size > 0
    requires (hi == lo + 1 && Col(size, hi) != 0) || hi == lo + size
    ensures (Row(size, hi) == Row(size, lo) && hi - lo - 1 == 0) ||
      (Row(size, hi) == Row(size, lo) + 1 && hi - lo - 1 == size - 1)
  {
    if hi == lo + size {
      BelowCell(size, lo);
    } else if Col(size, lo) == size - 1 {
      NextRowStart(size, lo);
      assert false;
    } else {
      RightCell(size, lo);
    }
  }

  /** Exchanging the blank with a tile beside it or below it: a horizontal
      exchange keeps the inversion parity, a vertical one changes it by size - 1. */
  lemma SpanParity(s: seq<Cell>, lo: nat, hi: nat, size: nat)
    requires size > 0 && lo < hi < |s| && ((hi == lo + 1 && Col(size, hi) != 0) || hi == lo + size)
    requires (s[lo] == Blank && s[hi].Tile?) || (s[lo].Tile? && s[hi] == Blank)
    requires forall k :: lo < k < hi ==> s[k] != Blank && s[k] != s[lo] && s[k] != s[hi]
    ensures var before, after := Disorder(s), Disorder(Swap(s, lo, hi));
      (Row(size, hi) == Row(size, lo) && before % 2 == after % 2) ||
      (Row(size, hi) == Row(size, lo) + 1 && (before + after) % 2 == (size - 1) % 2)
  {
    SwapAcross(s, lo, hi);
    SpanRows(size, lo, hi);
    GapParity(Disorder(s), Disorder(Swap(s, lo, hi)), hi - lo - 1, size, Row(size, lo), Row(size, hi));
  }

  /** Exchanging the blank with a tile across a stretch of cells that holds
      neither changes the inversion count by the stretch's length modulo 2. */
  lemma SwapAcross(s: seq<Cell>, lo: nat, hi: nat)
    requires lo < hi < |s|
    requires (s[lo] == Blank && s[hi].Tile?) || (s[lo].Tile? && s[hi] == Blank)
    requires forall k :: lo < k < hi ==> s[k] != Blank && s[k] != s[lo] && s[k] != s[hi]
    ensures (Disorder(s) + Disorder(Swap(s, lo, hi))) % 2 == (hi - lo - 1) % 2
  {
    if s[lo] == Blank {
      BlankFirstParity(s, lo, hi);
    } else {
      TileFirstParity(s, lo, hi);
    }
  }

  /** A tile at lo and the blank at hi: cut the board around the two. */
  lemma TileFirstParity(s: seq<Cell>, lo: nat, hi: nat)
    requires lo < hi < |s| && s[lo].Tile? && s[hi] == Blank
    requires forall k :: lo < k < hi ==> s[k] != Blank && s[k] != s[lo]
    ensures (Disorder(s) + Disorder(Swap(s, lo, hi))) % 2 == (hi - lo - 1) % 2
  {
    var pre, x, mid, post := s[..lo], s[lo].number, s[lo + 1..hi], s[hi + 1..];
    assert CutAt(s, Swap(s, lo, hi), pre, x, mid, post) by {
      assert s == pre + [Tile(x)] + mid + [Blank] + post;
      assert Swap(s, lo, hi) == pre + [Blank] + mid + [Tile(x)] + post;
    }
    SwapParity(s, Swap(s, lo, hi), pre, x, mid, post, hi - lo - 1);
  }

  /** The blank at lo and a tile at hi: after the exchange the tile comes first. */
  lemma BlankFirstParity(s: seq<Cell>, lo: nat, hi: nat)
    requires lo < hi < |s| && s[lo] == Blank && s[hi].Tile?
    requires forall k :: lo < k < hi ==> s[k] != Blank && s[k] != s[hi]
    ensures (Disorder(s) + Disorder(Swap(s, lo, hi))) % 2 == (hi - lo - 1) % 2
  {
    var pre, x, mid, post := s[..lo], s[hi].number, s[lo + 1..hi], s[hi + 1..];
    assert CutAt(Swap(s, lo, hi), s, pre, x, mid, post) by {
      assert s == pre + [Blank] + mid + [Tile(x)] + post;
      assert Swap(s, lo, hi) == pre + [Tile(x)] + mid + [Blank] + post;
    }
    SwapParity(Swap(s, lo, hi), s, pre, x, mid, post, hi - lo - 1);
  }

  /** The arithmetic of SpanParity: a gap of 0 keeps the parity, a gap of
      size - 1 changes it by size - 1. */
  lemma GapParity(before: nat, after: nat, gap: int, size: nat, row: int, row': int)
    requires (before + after) % 2 == gap % 2
    requires (row' == row && gap == 0) || (row' == row + 1 && gap == size - 1)
    ensures (row' == row && before % 2 == after % 2) ||
      (row' == row + 1 && (before + after) % 2 == (size - 1) % 2)
  {
  }

  /** Any slide into the blank keeps the board a permutation of the solved board,
      with the blank now at the moved tile's old cell. */
  lemma SlideKeepsInvariant(s: seq<Cell>, emptyIndex: nat, index: nat, size: nat)
    requires Invariant(s, emptyIndex, size) && index < |s|
    ensures Invariant(Slide(s, emptyIndex, index), index, size)
  {
  }

  /** A legal slide does not change the answer of isSolvable: a horizontal slide
      keeps both the tile order and the blank's row; a vertical one moves a tile
      past size - 1 others, so for an even side it flips the inversion parity
      together with the parity of the blank's row, and for an odd side it keeps
      the inversion parity. */
  lemma SlidePreservesSolvability(s: seq<Cell>, emptyIndex: nat, index: nat, size: nat)
    requires Invariant(s, emptyIndex, size) && index < |s|
    requires CanMove(size, emptyIndex, index)
    ensures Invariant(Slide(s, emptyIndex, index), index, size)
    ensures IsSolvable(Slide(s, emptyIndex, index), index, size) == IsSolvable(s, emptyIndex, size)
  {
    SlideKeepsInvariant(s, emptyIndex, index, size);
    var lo, hi := SlideSpan(s, emptyIndex, index, size);
    SpanSolvable(s, lo, hi, size);
  }

  /** SpanParity read through the parity test: exchanging the ends of a span
      moves the blank from one end to the other without changing the answer. */
  lemma SpanSolvable(s: seq<Cell>, lo: nat, hi: nat, size: nat)
    requires size > 0 && lo < hi < |s| && ((hi == lo + 1 && Col(size, hi) != 0) || hi == lo + size)
    requires (s[lo] == Blank && s[hi].Tile?) || (s[lo].Tile? && s[hi] == Blank)
    requires forall k :: lo < k < hi ==> s[k] != Blank && s[k] != s[lo] && s[k] != s[hi]
    ensures IsSolvable(Swap(s, lo, hi), hi, size) == IsSolvable(s, lo, size)
    ensures IsSolvable(Swap(s, lo, hi), lo, size) == IsSolvable(s, hi, size)
  {
    SpanParity(s, lo, hi, size);
    SolvableRule(size, s, Swap(s, lo, hi), lo, hi);
  }

  /** ParityRule for two boards whose blanks sit at lo and hi. */
  lemma SolvableRule(size: nat, s: seq<Cell>, r: seq<Cell>, lo: nat, hi: nat)
    requires size > 0
    requires var before, after := Disorder(s), Disorder(r);
      (Row(size, hi) == Row(size, lo) && before % 2 == after % 2) ||
      (Row(size, hi) == Row(size, lo) + 1 && (before + after) % 2 == (size - 1) % 2)
    ensures IsSolvable(r, hi, size) == IsSolvable(s, lo, size)
    ensures IsSolvable(r, lo, size) == IsSolvable(s, hi, size)
  {
    ParityRule(size, Row(size, lo), Row(size, hi), Disorder(s), Disorder(r));
  }

  /** The arithmetic behind SlidePreservesSolvability: the answer of the parity
      rule survives either an unchanged row with an unchanged inversion parity, or
      a move to the next row with the inversion parity changed by size - 1, in
      whichever direction the blank goes. */
  lemma ParityRule(size: nat, row: int, row': int, inversions: nat, inversions': nat)
    requires (row' == row && inversions % 2 == inversions' % 2) ||
      (row' == row + 1 && (inversions + inversions') % 2 == (size - 1) % 2)
    ensures ParityTest(size, size - row, inversions) == ParityTest(size, size - row', inversions')
    ensures ParityTest(size, size - row', inversions) == ParityTest(size, size - row, inversions')
  {
  }

  /** A sequence of cell activations, each applied as moveTile applies it: a legal
      one slides that tile into the blank, an illegal one is ignored. */
  function Play(s: seq<Cell>, emptyIndex: nat, size: nat, targets: seq<nat>): (r: (seq<Cell>, nat))
    requires size > 0 && |s| == size * size && emptyIndex < |s|
    requires forall k :: 0 <= k < |targets| ==> targets[k] < |s|
    decreases |targets|
  {
    if targets == [] then (s, emptyIndex)
    else
      var t := targets[0];
      if CanMove(size, emptyIndex, t) then Play(Slide(s, emptyIndex, t), t, size, targets[1..])
      else Play(s, emptyIndex, size, targets[1..])
  }

  /** Any sequence of moves keeps the board invariant and the answer of isSolvable. */
  lemma {:induction false} PlayPreservesSolvability(s: seq<Cell>, emptyIndex: nat, size: nat, targets: seq<nat>)
    requires Invariant(s, emptyIndex, size)
    requires forall k :: 0 <= k < |targets| ==> targets[k] < |s|
    ensures var (s', e') := Play(s, emptyIndex, size, targets);
      Invariant(s', e', size) && IsSolvable(s', e', size) == IsSolvable(s, emptyIndex, size)
    decreases |targets|
  {
    if targets != [] {
      var t := targets[0];
      if CanMove(size, emptyIndex, t) {
        SlidePreservesSolvability(s, emptyIndex, t, size);
        PlayPreservesSolvability(Slide(s, emptyIndex, t), t, size, targets[1..]);
      } else {
        PlayPreservesSolvability(s, emptyIndex, size, targets[1..]);
      }
    }
  }

  /** The solved board passes isSolvable: no inversions, and the blank on the
      bottom row, which is row 1 counted from the bottom. */
  lemma SolvedIsSolvable(size: nat)
    requires size > 0
    ensures IsSolvable(SolvedBoard(size), size * size - 1, size)
  {
    var n := size * size;
    assert Row(size, n - 1) == size - 1 by {
      DivModUnique(n - 1, size, size - 1, size - 1);
    }
    SolvedInversions(n, 0);
    assert SolvedCells(n)[0..] == SolvedBoard(size);
  }

  /** The tiles of the solved board from cell k on are k + 1, k + 2, ..., n - 1,
      an increasing run without inversions. */
  lemma {:induction false} SolvedInversions(n: nat, k: nat)
    requires k < n
    ensures Disorder(SolvedCells(n)[k..]) == 0
    ensures forall i :: 0 <= i < |Tiles(SolvedCells(n)[k..])| ==> Tiles(SolvedCells(n)[k..])[i] > k
    decreases n - k
  {
    var s := SolvedCells(n)[k..];
    if k == n - 1 {
      assert s == [Blank];
      assert Tiles(s) == [] + Tiles([]);
    } else {
      SolvedInversions(n, k + 1);
      var rest := SolvedCells(n)[k + 1..];
      assert s == [Tile(k + 1)] + rest;
      assert Tiles(s) == [k + 1] + Tiles(rest);
      NoneBelow(k + 1, Tiles(rest));
    }
  }

  lemma {:induction false} NoneBelow(x: int, t: seq<int>)
    requires forall i :: 0 <= i < |t| ==> t[i] > x
    ensures CountBelow(x, t) == 0
  {
    if t != [] {
      assert forall i :: 0 <= i < |t[1..]| ==> t[1..][i] == t[i + 1];
      NoneBelow(x, t[1..]);
    }
  }

  /** Every board reachable from the solved board by moves passes isSolvable. */
  lemma ReachableIsSolvable(size: nat, targets: seq<nat>)
    requires size > 0
    requires forall k :: 0 <= k < |targets| ==> targets[k] < size * size
    ensures var (s, e) := Play(SolvedBoard(size), size * size - 1, size, targets);
      IsSolvable(s, e, size)
  {
    SolvedInvariant(size);
    SolvedIsSolvable(size);
    PlayPreservesSolvability(SolvedBoard(size), size * size - 1, size, targets);
  }
}
