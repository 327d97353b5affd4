/** Facts about Euclidean division and powers that the digit encoders of the
    formatter and the little-endian readers of the table parsers rely on. */
module Arith {

  function Pow(b: nat, n: nat): (r: nat)
    ensures b > 0 ==> r > 0
  {
    if n == 0 then 1 else b * Pow(b, n - 1)
  }

  /** Division and remainder are determined by any decomposition `x == q * d + r`. */
  lemma DivModUnique(x: int, d: int, q: int, r: int)
    requires d > 0 && 0 <= r < d && x == q * d + r
    ensures x / d == q && x % d == r
  {
    var q', r' := x / d, x % d;
    var k := q - q';
    assert k * d == r' - r by {
      assert x == q' * d + r';
      assert q * d - q' * d == (q - q') * d;
    }
    if k >= 1 {
      MulAtLeast(k, d);
    } else if k <= -1 {
      MulAtLeast(-k, d);
    }
  }

  lemma MulAtLeast(k: int, d: int)
    requires k >= 1 && d >= 0
    ensures k * d >= d
  {
    assert k * d - d == (k - 1) * d;
  }

  /** Dividing by `a` and then by `b` is dividing by `a * b`. */
  lemma DivDiv(x: nat, a: nat, b: nat)
    requires a > 0 && b > 0
    ensures x / a / b == x / (a * b)
    ensures x % (a * b) == (x / a % b) * a + x % a
  {
    var q, r := x / a, x % a;
    var q2, r2 := q / b, q % b;
    assert x == q * a + r;
    assert q == q2 * b + r2;
    assert x == q2 * (a * b) + (r2 * a + r) by {
      Distrib(q2 * b, r2, a);
      MulRotate(q2, b, a);
    }
    assert r2 * a + r < a * b by {
      MulMono(r2, b - 1, a);
      Distrib(b - 1, 1, a);
    }
    DivModUnique(x, a * b, q2, r2 * a + r);
  }

  lemma Distrib(p: int, q: int, a: int)
    ensures (p + q) * a == p * a + q * a
  {
  }

  lemma MulRotate(p: int, b: int, a: int)
    ensures p * b * a == p * (a * b)
  {
  }

  lemma MulMono(x: int, y: int, a: nat)
    requires x <= y
    ensures x * a <= y * a
  {
  }

  /** The digit of weight `e` in base `b` can be read before or after
      discarding the digits of weight `b * e` and above. */
  lemma ModThenDiv(x: nat, e: nat, b: nat)
    requires e > 0 && b > 0
    ensures x % (e * b) / e == x / e % b
    ensures x % (e * b) % e == x % e
  {
    DivDiv(x, e, b);
    var lo := (x / e % b) * e + x % e;
    assert x % (e * b) == lo;
    DivModUnique(lo, e, x / e % b, x % e);
  }

  /** The product of a quotient and its divisor never exceeds the dividend. */
  lemma DivMulLe(x: nat, d: nat)
    requires d > 0
    ensures x / d * d <= x
  {
  }

  lemma {:induction false} PowAdd(b: nat, m: nat, n: nat)
    ensures Pow(b, m + n) == Pow(b, m) * Pow(b, n)
    decreases n
  {
    if n > 0 {
      PowAdd(b, m, n - 1);
      var x, y := Pow(b, m), Pow(b, n - 1);
      assert Pow(b, m + n) == b * (x * y);
      assert Pow(b, n) == b * y;
      MulSwap(b, x, y);
    }
  }

  lemma MulSwap(b: int, x: int, y: int)
    ensures b * (x * y) == x * (b * y)
  {
  }
}
