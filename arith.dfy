/** Integer facts about the block layout of the board: multiplication by the
    order and the `x % n` cursor of the initial-solution generator. */
module Arith {

  lemma {:induction false} MulNonneg(x: int, y: int)
    requires x >= 0 && y >= 0
    ensures x * y >= 0
    decreases x
  {
    if x > 0 {
      MulNonneg(x - 1, y);
      assert x * y == (x - 1) * y + y;
    }
  }

  /** Euclidean division is unique: a quotient and a remainder in [0, n) are the ones `/` and `%` give. */
  lemma ModUnique(a: int, n: int, q: int, r: int)
    requires n > 0 && 0 <= r < n && a == q * n + r
    ensures a % n == r && a / n == q
  {
    var q', r' := a / n, a % n;
    assert a == q' * n + r';
    assert (q - q') * n == r' - r;
    if q > q' {
      assert (q - q') * n == (q - q' - 1) * n + n;
      MulNonneg(q - q' - 1, n);
    } else if q < q' {
      assert (q' - q) * n == (q' - q - 1) * n + n;
      MulNonneg(q' - q - 1, n);
    }
  }

  lemma MulPred(k: int, w: int)
    ensures k * w == (k - 1) * w + w
  {
  }

  /** Block `b` of an order-`o` board ends inside the board. */
  lemma BlockBound(o: int, b: int)
    requires 0 <= b < o
    ensures o * b + o <= o * o
  {
    MulNonneg(o, o - b - 1);
    assert o * (o - b - 1) == o * o - o * b - o;
  }

  /** An index of an order-`o` board lies in block `r / o`, which is one of the o blocks. */
  lemma BlockOf(o: int, r: int)
    requires o > 0 && 0 <= r < o * o
    ensures 0 <= r / o < o && o * (r / o) <= r < o * (r / o) + o
  {
    var q := r / o;
    assert r == o * q + r % o && 0 <= r % o < o;
    if q < 0 {
      MulNonneg(o, -q - 1);
      assert false;
    }
    if q >= o {
      MulNonneg(o, q - o);
      assert false;
    }
  }

  /** A row (or column) index lies in exactly one block. */
  lemma SameBlock(o: int, a: int, b: int, r: int)
    requires o * a <= r < o * a + o && o * b <= r < o * b + o
    ensures a == b
  {
    if a < b {
      assert o * b - o * a - o == o * (b - a - 1);
      MulNonneg(o, b - a - 1);
    } else if b < a {
      assert o * a - o * b - o == o * (a - b - 1);
      MulNonneg(o, a - b - 1);
    }
  }

  /** Advancing the cursor `x` by one brings `x % n` one step closer (cyclically) to `t`,
      unless it is already there. */
  lemma CursorStep(x: int, t: int, n: int)
    requires n > 0 && 0 <= t < n && x % n != t
    ensures (t - x) % n > 0
    ensures (t - (x + 1)) % n == (t - x) % n - 1
  {
    var k := t - x;
    var m := k % n;
    assert k == (k / n) * n + m;
    if m == 0 {
      ModUnique(x, n, -(k / n), t);
      assert false;
    }
    ModUnique(k - 1, n, k / n, m - 1);
  }
}
