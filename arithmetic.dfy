/** Integer facts shared by the splitting and tree modules. */
module Arithmetic {

  function Min(a: int, b: int): int { if a <= b then a else b }

  /** 2 to the power `n`. */
  function Pow2(n: nat): (p: nat)
    ensures p >= 1
  {
    if n == 0 then 1 else 2 * Pow2(n - 1)
  }

  lemma DivIsOne(x: nat, n: nat)
    requires 1 <= n <= x < 2 * n
    ensures x / n == 1
  {
  }

  lemma DivUnique(y: int, n: int, a: int, r: int)
    requires n >= 1 && 0 <= r < n && y == a * n + r
    ensures y / n == a
  {
    var b, s := y / n, y % n;
    assert y == b * n + s;
    assert (a - b) * n == s - r;
    if a > b {
      MulMonotone(1, a - b, n);
      assert false;
    } else if a < b {
      MulMonotone(1, b - a, n);
      assert false;
    }
  }

  lemma DivShift(x: nat, n: nat)
    requires n >= 1
    ensures (x + n) / n == x / n + 1
  {
    var q, r := x / n, x % n;
    assert x == q * n + r;
    assert x + n == (q + 1) * n + r;
    DivUnique(x + n, n, q + 1, r);
  }

  lemma MulMonotone(x: int, y: int, a: nat)
    requires x <= y
    ensures x * a <= y * a
  {
    assert y * a - x * a == (y - x) * a;
  }

  /** Dividing by `a` and then by `b` is dividing by `a * b`. */
  lemma DivDiv(i: nat, a: nat, b: nat)
    requires a >= 1 && b >= 1
    ensures i / (a * b) == (i / a) / b
  {
    var q1, r1 := i / a, i % a;
    var q2, r2 := q1 / b, q1 % b;
    assert i == q1 * a + r1;
    assert q1 == q2 * b + r2;
    assert q1 * a == q2 * (a * b) + r2 * a by {
      assert (q2 * b + r2) * a == q2 * b * a + r2 * a;
      assert q2 * b * a == q2 * (a * b);
    }
    MulMonotone(r2, b - 1, a);
    assert (b - 1) * a == a * b - a;
    assert 0 <= r2 * a;
    DivUnique(i, a * b, q2, r2 * a + r1);
  }
}
