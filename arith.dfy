/** Facts about multiplication, floor division and modulo by a positive number
    (Python's `//` and `%` agree with Dafny's for a positive divisor). */
module Arith {

  lemma {:induction false} MulMonotone(a: int, b: int, c: nat)
    requires a <= b
    ensures a * c <= b * c
    decreases c
  {
    if c > 0 {
      MulMonotone(a, b, c - 1);
      assert a * c == a * (c - 1) + a;
      assert b * c == b * (c - 1) + b;
    }
  }

  /** Quotient and remainder are unique: `b == q * n + r` with `0 <= r < n` fixes both. */
  lemma DivModUnique(b: int, n: int, q: int, r: int)
    requires n > 0 && 0 <= r < n
    requires b == q * n + r
    ensures b / n == q && b % n == r
  {
    var q', r' := b / n, b % n;
    var d := q - q';
    assert d * n == r' - r;
    MulAwayFromZero(d, n);
  }

  /** A non-zero multiple of `n` is at least `n` away from zero. */
  lemma MulAwayFromZero(d: int, n: int)
    requires n >= 0
    ensures d == 0 || d * n >= n || d * n <= -n
  {
    if d >= 1 {
      MulMonotone(1, d, n);
    } else if d <= -1 {
      MulMonotone(d, -1, n);
    }
  }

  /** The division identity, with the quotient on the left of the product. */
  lemma DivMod(a: int, n: int)
    requires n > 0
    ensures a == (a / n) * n + a % n
  {
  }

  /** A number already in `0 .. n - 1` is its own residue. */
  lemma ModInRange(a: int, n: int)
    requires 0 <= a < n
    ensures a % n == a
  {
    DivModUnique(a, n, 0, a);
  }

  /** Shifting by whole periods does not change the residue. */
  lemma ModShift(a: int, n: int, k: int)
    requires n > 0
    ensures (a + k * n) % n == a % n
  {
    var q, r := a / n, a % n;
    assert a + k * n == (q + k) * n + r;
    DivModUnique(a + k * n, n, q + k, r);
  }

  /** Reducing first and then shifting is the same as shifting first. */
  lemma ModOfMod(a: int, d: int, n: int)
    requires n > 0
    ensures (a % n + d) % n == (a + d) % n
  {
    ModShift(a % n + d, n, a / n);
    assert a % n + d + (a / n) * n == a + d;
  }

  /** Row-major numbering: cell (y, x) of a grid `width` wide is item `y * width + x`,
      and the item number gives the cell back. */
  lemma RowMajor(y: int, x: int, width: int)
    requires width > 0 && 0 <= x < width
    ensures (y * width + x) / width == y && (y * width + x) % width == x
  {
    DivModUnique(y * width + x, width, y, x);
  }

  /** Row-major numbering of an h x w grid covers exactly `0 .. h * w - 1`. */
  lemma RowMajorBounds(y: int, x: int, height: int, width: int)
    requires width > 0 && 0 <= y < height && 0 <= x < width
    ensures 0 <= y * width + x < height * width
  {
    MulMonotone(0, y, width);
    MulMonotone(y + 1, height, width);
    assert (y + 1) * width == y * width + width;
  }

  /** Item number `i` of an h x w grid numbered row by row lies in row `i / width`. */
  lemma ItemCell(i: int, height: int, width: int)
    requires width > 0 && 0 <= i < height * width
    ensures 0 <= i / width < height
  {
    var y := i / width;
    if y >= height {
      MulMonotone(height, y, width);
    }
  }
}
