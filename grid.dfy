/** Geometry of the square board: cells are numbered row-major from 0,
    so cell i of a board of side `size` sits on row i / size, column i % size. */
module Grid {

  function Row(size: nat, i: nat): (row: nat)
    requires size > 0
  {
    i / size
  }

  function Col(size: nat, i: nat): (col: nat)
    requires size > 0
  {
    i % size
  }

  function Abs(x: int): (r: nat)
  {
    if x < 0 then -x else x
  }

  lemma MulAtLeast(k: int, d: int)
    requires k >= 1 && d > 0
    ensures k * d >= d
  {
    assert k * d == (k - 1) * d + d;
  }

  lemma MulMonotone(a: nat, b: nat, c: nat)
    requires a <= b
    ensures a * c <= b * c
  {
    assert b * c == a * c + (b - a) * c;
  }

  /** Euclidean division is determined by any quotient/remainder pair. */
  lemma DivModUnique(n: int, d: int, q: int, r: int)
    requires d > 0 && 0 <= r < d && n == q * d + r
    ensures n / d == q && n % d == r
  {
    var q', r' := n / d, n % d;
    assert n == q' * d + r';
    assert (q - q') * d == r' - r;
    if q > q' {
      MulAtLeast(q - q', d);
    } else if q < q' {
      MulAtLeast(q' - q, d);
    }
  }

  /** A cell is determined by its row and column. */
  lemma SameCell(size: nat, i: nat, j: nat)
    requires size > 0 && Row(size, i) == Row(size, j) && Col(size, i) == Col(size, j)
    ensures i == j
  {
    assert i == Row(size, i) * size + Col(size, i);
    assert j == Row(size, j) * size + Col(size, j);
  }

  /** The cell one row further down has the same column and the next row. */
  lemma BelowCell(size: nat, i: nat)
    requires size > 0
    ensures Row(size, i + size) == Row(size, i) + 1
    ensures Col(size, i + size) == Col(size, i)
  {
    var q, r := i / size, i % size;
    assert i == q * size + r;
    assert i + size == (q + 1) * size + r;
    DivModUnique(i + size, size, q + 1, r);
  }

  /** A cell lies on the board exactly when its row does. */
  lemma RowBound(size: nat, i: nat)
    requires size > 0
    ensures i < size * size <==> Row(size, i) < size
  {
    var q, r := i / size, i % size;
    assert i == q * size + r;
    if q < size {
      MulMonotone(q + 1, size, size);
      assert (q + 1) * size == q * size + size;
    } else {
      MulMonotone(size, q, size);
    }
  }

  /** The row and column formulas of game.js:184-202, read back as flat indices. */
  lemma Recompose(size: nat, i: nat)
    requires size > 0
    ensures (Row(size, i) + 1) * size + Col(size, i) == i + size
    ensures Row(size, i) > 0 ==> (Row(size, i) - 1) * size + Col(size, i) + size == i
    ensures Row(size, i) * size + (Col(size, i) + 1) == i + 1
    ensures Row(size, i) * size + (Col(size, i) - 1) + 1 == i
  {
    var q, r := Row(size, i), Col(size, i);
    assert i == q * size + r;
    assert (q + 1) * size == q * size + size;
    if q > 0 {
      assert (q - 1) * size + size == q * size;
    }
  }

  /** The next cell is on the same row unless the current one ends its row. */
  lemma RightCell(size: nat, i: nat)
    requires size > 0 && Col(size, i) < size - 1
    ensures Row(size, i + 1) == Row(size, i)
    ensures Col(size, i + 1) == Col(size, i) + 1
  {
    var q, r := i / size, i % size;
    assert i == q * size + r;
    DivModUnique(i + 1, size, q, r + 1);
  }

  /** After the last cell of a row comes the first cell of the next one. */
  lemma NextRowStart(size: nat, i: nat)
    requires size > 0 && Col(size, i) == size - 1
    ensures Col(size, i + 1) == 0
  {
    var q := i / size;
    assert i == q * size + (size - 1);
    assert i + 1 == (q + 1) * size + 0;
    DivModUnique(i + 1, size, q + 1, 0);
  }

  /** canMove (game.js:161-171): the cell is one row away in the same column, or
      one column away in the same row. Both operands are cell indices, which are
      never negative, so JavaScript's Math.floor and % agree with Dafny's / and %. */
  predicate CanMove(size: nat, emptyIndex: nat, index: nat)
    requires size > 0
  {
    var emptyRow, emptyCol := Row(size, emptyIndex), Col(size, emptyIndex);
    var tileRow, tileCol := Row(size, index), Col(size, index);
    (Abs(emptyRow - tileRow) == 1 && emptyCol == tileCol) ||
    (Abs(emptyCol - tileCol) == 1 && emptyRow == tileRow)
  }

  /** A legal target, read back as a flat index. */
  lemma CanMoveToFlat(size: nat, e: nat, t: nat)
    requires size > 0 && CanMove(size, e, t)
    ensures t == e + size || e == t + size ||
      (t == e + 1 && Col(size, t) != 0) || (e == t + 1 && Col(size, e) != 0)
  {
    var re, rt := Col(size, e), Col(size, t);
    if Row(size, t) == Row(size, e) + 1 && re == rt {
      BelowCell(size, e);
      SameCell(size, t, e + size);
    } else if Row(size, e) == Row(size, t) + 1 && re == rt {
      BelowCell(size, t);
      SameCell(size, e, t + size);
    } else if rt == re + 1 {
      RightCell(size, e);
      SameCell(size, t, e + 1);
    } else {
      RightCell(size, t);
      SameCell(size, e, t + 1);
    }
  }

  /** A horizontal neighbour in flat-index terms is a legal target. */
  lemma FlatRightToCanMove(size: nat, i: nat)
    requires size > 0 && Col(size, i + 1) != 0
    ensures CanMove(size, i, i + 1) && CanMove(size, i + 1, i)
  {
    if Col(size, i) == size - 1 {
      NextRowStart(size, i);
    }
    RightCell(size, i);
  }

  /** A vertical neighbour in flat-index terms is a legal target. */
  lemma FlatBelowToCanMove(size: nat, i: nat)
    requires size > 0
    ensures CanMove(size, i, i + size) && CanMove(size, i + size, i)
  {
    BelowCell(size, i);
  }

  /** Adjacency in flat-index terms: a legal target is `size` cells before or after
      the blank, or the neighbouring cell when the two share a row (the right one of
      the pair does not start a row). In particular the blank itself is never a
      target and no move wraps around a row end. */
  lemma CanMoveIff(size: nat, e: nat, t: nat)
    requires size > 0
    ensures CanMove(size, e, t) <==>
      t == e + size || e == t + size ||
      (t == e + 1 && Col(size, t) != 0) || (e == t + 1 && Col(size, e) != 0)
    ensures !CanMove(size, e, e)
    ensures size > 1 && Col(size, e) == 0 && e > 0 ==> !CanMove(size, e, e - 1)
  {
    if CanMove(size, e, t) {
      CanMoveToFlat(size, e, t);
    }
    if t == e + size {
      FlatBelowToCanMove(size, e);
    } else if e == t + size {
      FlatBelowToCanMove(size, t);
    } else if t == e + 1 && Col(size, t) != 0 {
      FlatRightToCanMove(size, e);
    } else if e == t + 1 && Col(size, e) != 0 {
      FlatRightToCanMove(size, t);
    }
    if CanMove(size, e, e) {
      CanMoveToFlat(size, e, e);
    }
    if size > 1 && Col(size, e) == 0 && e > 0 && CanMove(size, e, e - 1) {
      CanMoveToFlat(size, e, e - 1);
    }
  }

  /** The arrow keys recognised by handleKeyPress (game.js:180-205). */
  predicate IsArrowKey(key: string)
  {
    key == "ArrowUp" || key == "ArrowDown" || key == "ArrowLeft" || key == "ArrowRight"
  }

  /** The target computation of handleKeyPress (game.js:176-205): the index of the
      tile that slides into the blank, or -1. The arrow names the way the tile
      moves, so ArrowUp takes the tile below the blank. */
  function KeyTarget(size: nat, emptyIndex: nat, key: string): (target: int)
    requires size > 0
  {
    var emptyRow, emptyCol := Row(size, emptyIndex), Col(size, emptyIndex);
    if key == "ArrowUp" then
      if emptyRow < size - 1 then (emptyRow + 1) * size + emptyCol else -1
    else if key == "ArrowDown" then
      if emptyRow > 0 then (emptyRow - 1) * size + emptyCol else -1
    else if key == "ArrowLeft" then
      if emptyCol < size - 1 then emptyRow * size + (emptyCol + 1) else -1
    else if key == "ArrowRight" then
      if emptyCol > 0 then emptyRow * size + (emptyCol - 1) else -1
    else -1
  }

  lemma UpTarget(size: nat, e: nat)
    requires size > 0 && e < size * size
    ensures var r := KeyTarget(size, e, "ArrowUp");
      (r == -1 <==> Row(size, e) == size - 1) &&
      (r != -1 ==> r == e + size && r < size * size && CanMove(size, e, r))
  {
    var r := KeyTarget(size, e, "ArrowUp");
    Recompose(size, e);
    RowBound(size, e);
    if Row(size, e) < size - 1 {
      assert r == e + size;
      BelowCell(size, e);
      RowBound(size, r);
      FlatBelowToCanMove(size, e);
    }
  }

  lemma DownTarget(size: nat, e: nat)
    requires size > 0
    ensures var r := KeyTarget(size, e, "ArrowDown");
      (r == -1 <==> Row(size, e) == 0) &&
      (r != -1 ==> r >= 0 && r + size == e && CanMove(size, e, r))
  {
    var r := KeyTarget(size, e, "ArrowDown");
    Recompose(size, e);
    if Row(size, e) > 0 {
      assert r + size == e;
      FlatBelowToCanMove(size, r);
    }
  }

  lemma LeftTarget(size: nat, e: nat)
    requires size > 0 && e < size * size
    ensures var r := KeyTarget(size, e, "ArrowLeft");
      (r == -1 <==> Col(size, e) == size - 1) &&
      (r != -1 ==> r == e + 1 && r < size * size && CanMove(size, e, r))
  {
    var r := KeyTarget(size, e, "ArrowLeft");
    Recompose(size, e);
    if Col(size, e) < size - 1 {
      assert r == e + 1;
      RightCell(size, e);
      RowBound(size, e);
      RowBound(size, r);
      FlatRightToCanMove(size, e);
    }
  }

  lemma RightTarget(size: nat, e: nat)
    requires size > 0
    ensures var r := KeyTarget(size, e, "ArrowRight");
      (r == -1 <==> Col(size, e) == 0) &&
      (r != -1 ==> r >= 0 && r + 1 == e && CanMove(size, e, r))
  {
    var r := KeyTarget(size, e, "ArrowRight");
    Recompose(size, e);
    if Col(size, e) > 0 {
      assert r + 1 == e;
      FlatRightToCanMove(size, r);
    }
  }

  /** The key target is -1 exactly when the key is not an arrow or the blank is on
      the edge the arrow points away from; otherwise it is a cell of the board next
      to the blank on the side the arrow names, so canMove holds of it. */
  lemma KeyTargetSpec(size: nat, emptyIndex: nat, key: string)
    requires size > 0 && emptyIndex < size * size
    ensures var r := KeyTarget(size, emptyIndex, key);
      r == -1 || (0 <= r < size * size && CanMove(size, emptyIndex, r))
    ensures !IsArrowKey(key) ==> KeyTarget(size, emptyIndex, key) == -1
    ensures key == "ArrowUp" ==> var r := KeyTarget(size, emptyIndex, key);
      (r == -1 <==> Row(size, emptyIndex) == size - 1) && (r != -1 ==> r == emptyIndex + size)
    ensures key == "ArrowDown" ==> var r := KeyTarget(size, emptyIndex, key);
      (r == -1 <==> Row(size, emptyIndex) == 0) && (r != -1 ==> r + size == emptyIndex)
    ensures key == "ArrowLeft" ==> var r := KeyTarget(size, emptyIndex, key);
      (r == -1 <==> Col(size, emptyIndex) == size - 1) && (r != -1 ==> r == emptyIndex + 1)
    ensures key == "ArrowRight" ==> var r := KeyTarget(size, emptyIndex, key);
      (r == -1 <==> Col(size, emptyIndex) == 0) && (r != -1 ==> r + 1 == emptyIndex)
  {
    if key == "ArrowUp" {
      UpTarget(size, emptyIndex);
    } else if key == "ArrowDown" {
      DownTarget(size, emptyIndex);
    } else if key == "ArrowLeft" {
      LeftTarget(size, emptyIndex);
    } else if key == "ArrowRight" {
      RightTarget(size, emptyIndex);
    }
  }
}
