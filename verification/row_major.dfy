/** Row-major layout shared by every flat buffer of the renderer: the cell at
    column x of row y of a buffer `w` cells wide lives at index x + y * w. */
module RowMajor {

  /** True when (x, y) addresses a cell of a w-by-h grid. */
  predicate InGrid(w: int, h: int, x: int, y: int) {
    0 <= x < w && 0 <= y < h
  }

  /** The flat index of column x of row y. */
  function Index(w: int, x: int, y: int): int {
    x + y * w
  }

  /** Every in-grid coordinate maps into the buffer of w * h cells. */
  lemma IndexInBounds(w: int, h: int, x: int, y: int)
    requires InGrid(w, h, x, y)
    ensures 0 <= Index(w, x, y) < w * h
  {
    RowFits(w, h, y);
  }

  /** Row y of a w-by-h grid ends inside the buffer. */
  lemma RowFits(w: int, h: int, y: int)
    requires 0 <= w && 0 <= y < h
    ensures 0 <= y * w && y * w + w <= w * h
  {
    MulNonNegative(y, w);
    MulNonNegative(h - 1 - y, w);
    assert (h - 1 - y) * w == h * w - y * w - w;
    assert h * w == w * h;
  }

  /** Distinct in-grid coordinates never share a flat index. */
  lemma IndexInjective(w: int, h: int, x: int, y: int, x': int, y': int)
    requires InGrid(w, h, x, y) && InGrid(w, h, x', y')
    ensures Index(w, x, y) == Index(w, x', y') <==> x == x' && y == y'
  {
    if y < y' {
      RowsApart(w, x, y, x', y');
    } else if y' < y {
      RowsApart(w, x', y', x, y);
    }
  }

  /** A cell on an earlier row has a smaller index than any cell on a later row. */
  lemma RowsApart(w: int, x: int, y: int, x': int, y': int)
    requires 0 <= x < w && 0 <= x' < w && y < y'
    ensures Index(w, x, y) < Index(w, x', y')
  {
    MulNonNegative(y' - y - 1, w);
    assert (y' - y - 1) * w == y' * w - y * w - w;
  }

  /** Every index of a w-by-h buffer is the index of one in-grid cell. */
  lemma IndexSurjective(w: int, h: int, k: int)
    requires 0 <= w && 0 <= k < w * h
    ensures 0 < w && InGrid(w, h, k % w, k / w) && Index(w, k % w, k / w) == k
  {
    if w == 0 {
      assert false;
    } else if h <= k / w {
      MulNonNegative(k / w - h, w);
      assert false;
    }
  }

  /** (row * w + col) splits back into row and col. */
  lemma DivModSplit(w: int, col: int, row: int)
    requires 0 <= col < w && 0 <= row
    ensures (row * w + col) / w == row && (row * w + col) % w == col
  {
    var k := row * w + col;
    var q, r := k / w, k % w;
    assert q * w + r == k;
    if q < row {
      MulNonNegative(row - q - 1, w);
      assert false;
    } else if q > row {
      MulNonNegative(q - row - 1, w);
      assert false;
    }
  }

  /** The first cell of row h + 1 directly follows the last cell of row h. */
  lemma NextRow(h: int, w: int)
    ensures (h + 1) * w == h * w + w
  {
  }

  lemma MulNonNegative(a: int, b: int)
    requires 0 <= a && 0 <= b
    ensures 0 <= a * b
  {
  }
}
