/** Facts about Euclidean remainder that the turn counters and the
    wrap-around coordinates rely on. */
module Arithmetic {

  lemma MulSign(d: int, n: int)
    requires n > 0
    ensures d >= 1 ==> d * n >= n
    ensures d <= -1 ==> d * n <= -n
  {
    if d >= 1 {
      assert d * n == (d - 1) * n + n;
    } else if d <= -1 {
      assert d * n == (d + 1) * n - n;
    }
  }

  /** Numbers that differ by a multiple of `n` leave the same remainder. */
  lemma ModCongruent(x: int, y: int, k: int, n: int)
    requires n > 0 && x - y == k * n
    ensures x % n == y % n
  {
    var qx, rx := x / n, x % n;
    var qy, ry := y / n, y % n;
    assert x == qx * n + rx;
    assert y == qy * n + ry;
    var d := qx - qy - k;
    assert d * n == ry - rx by {
      assert (qx - qy - k) * n == qx * n - qy * n - k * n;
    }
    MulSign(d, n);
  }

  /** Adding to a remainder and reducing again is reducing once. */
  lemma ModAddMod(a: int, k: int, n: int)
    requires n > 0
    ensures (a % n + k) % n == (a + k) % n
  {
    assert a == (a / n) * n + a % n;
    ModCongruent(a + k, a % n + k, a / n, n);
  }
}
