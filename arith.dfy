/**
 * Small facts about integer multiplication, division and remainder that the
 * buffer and texture index formulas rely on. Dafny's `/` and `%` are Euclidean;
 * every operand here is non-negative, where they agree with C++'s unsigned
 * `size_t` division.
 */
module Arith {

  /** Row-major index of cell (x, y) in a grid `w` cells wide. */
  function RowMajor(x: int, y: int, w: int): int
  {
    x + y * w
  }

  /** Quotient and remainder are the only pair that rebuilds `n`. */
  lemma DivModUnique(n: int, d: int, q: int, r: int)
    requires d > 0 && 0 <= r < d && n == q * d + r
    ensures n / d == q && n % d == r
  {
    var q', r' := n / d, n % d;
    assert n == q' * d + r';
    assert (q - q') * d == r' - r;
    if q > q' {
      MulMonotone(1, q - q', d);
      assert false;
    } else if q < q' {
      MulMonotone(1, q' - q, d);
      assert false;
    }
  }

  lemma MulMonotone(a: int, b: int, c: int)
    requires 0 <= a <= b && 0 <= c
    ensures 0 <= a * c <= b * c
  {
    assert b * c == a * c + (b - a) * c;
  }

  lemma MulStrict(a: int, b: int, c: int)
    requires 0 <= a < b && 0 < c
    ensures a * c < b * c
  {
    MulMonotone(a + 1, b, c);
  }

  /** The area of a `w` by `h` grid, scaled by `c`, in either order of factors. */
  lemma ScaledArea(w: int, h: int, c: int)
    ensures w * h * c == c * (w * h) && h * w == w * h
  {
  }

  /** An image of `n` squares of side `h` side by side has `n * h * h` cells. */
  lemma SquaresArea(w: int, h: int, n: int)
    requires w == n * h
    ensures w * h == n * h * h
  {
  }

  /** A cell inside a `w` by `h` grid has an index below `w * h`. */
  lemma RowMajorBound(x: int, y: int, w: int, h: int)
    requires 0 <= x < w && 0 <= y < h
    ensures 0 <= RowMajor(x, y, w) < w * h
  {
    MulMonotone(y, h - 1, w);
    assert (h - 1) * w == h * w - w;
    assert w * h == h * w;
  }

  /** Row `j` of a `w` by `h` grid ends within the grid. */
  lemma RowEnd(j: int, w: int, h: int)
    requires 0 <= j < h && 0 <= w
    ensures 0 <= j * w && j * w + w <= w * h
  {
    MulMonotone(j + 1, h, w);
    assert (j + 1) * w == j * w + w;
    assert h * w == w * h;
  }

  /**
   * Cell (u, v) of block `b` in a row of `n` square blocks of side `s`, stored
   * row-major in an image `s * n` wide and `s` high, lies inside the image.
   */
  lemma BlockIndexBound(s: int, n: int, b: int, u: int, v: int)
    requires 0 <= u < s && 0 <= v < s && 0 <= b < n
    ensures 0 <= b * s + u < s * n
    ensures 0 <= RowMajor(b * s + u, v, s * n) < s * n * s
  {
    MulMonotone(b + 1, n, s);
    MulMonotone(0, b, s);
    assert (b + 1) * s == b * s + s;
    assert n * s == s * n;
    RowMajorBound(b * s + u, v, s * n, s);
  }

  /** A row-major index splits back into its column and row. */
  lemma RowMajorSplit(x: int, y: int, w: int)
    requires 0 <= x < w && 0 <= y
    ensures RowMajor(x, y, w) / w == y && RowMajor(x, y, w) % w == x
  {
    DivModUnique(RowMajor(x, y, w), w, y, x);
  }

  /** Every non-negative index is the row-major index of its remainder and quotient. */
  lemma RowMajorOfDivMod(n: int, w: int)
    requires 0 <= n && 0 < w
    ensures n == RowMajor(n % w, n / w, w) && 0 <= n / w
  {
  }

  /** An index below `w * h` lies in a row below `h`. */
  lemma RowOfIndexBound(n: int, w: int, h: int)
    requires 0 <= n < w * h && 0 < w
    ensures n / w < h
  {
    if n / w >= h {
      MulMonotone(h, n / w, w);
      assert h * w == w * h;
      RowMajorOfDivMod(n, w);
      assert false;
    }
  }

  lemma DivMonotone(a: int, b: int, d: int)
    requires 0 <= a <= b && 0 < d
    ensures 0 <= a / d <= b / d
  {
    if a / d > b / d {
      MulMonotone(b / d + 1, a / d, d);
      RowMajorOfDivMod(a, d);
      RowMajorOfDivMod(b, d);
      assert false;
    }
  }

  /** Dividing a non-negative number by a positive one gives a non-negative number no larger. */
  lemma DivBounds(a: int, d: int)
    requires 0 <= a && 0 < d
    ensures 0 <= a / d <= a
  {
    RowMajorOfDivMod(a, d);
    if a / d > a {
      MulMonotone(1, d, a / d);
      assert false;
    }
  }

  /** `(y * s) / n` stays below `s` while `y` stays below `n`. */
  lemma ScaledBound(y: int, s: int, n: int)
    requires 0 <= y < n && 0 < s
    ensures 0 <= (y * s) / n < s
  {
    MulStrict(y, n, s);
    MulMonotone(0, y, s);
    assert s * n == n * s;
    if (y * s) / n >= s {
      MulMonotone(s, (y * s) / n, n);
      RowMajorOfDivMod(y * s, n);
      assert false;
    }
  }

  /** Point `p` lies in the `i`-th tile of width `t` exactly when `p / t == i`. */
  lemma TileOf(p: int, i: int, t: int)
    requires 0 <= p && 0 <= i && 0 < t
    ensures (i * t <= p < i * t + t) <==> p / t == i
  {
    if i * t <= p < i * t + t {
      DivModUnique(p, t, i, p - i * t);
    }
    if p / t == i {
      RowMajorOfDivMod(p, t);
    }
  }
}
