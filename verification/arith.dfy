/** Integer facts used by the positional-notation proofs. */
module Arith {

  function Pow(b: nat, e: nat): (r: nat)
    ensures b >= 1 ==> r >= 1
  {
    if e == 0 then 1 else b * Pow(b, e - 1)
  }

  lemma MulAtLeast(a: int, d: int)
    requires a >= 1 && d > 0
    ensures a * d >= d
  {
  }

  lemma MulMonotone(a: nat, b: nat, d: nat)
    requires a <= b
    ensures a * d <= b * d
  {
  }

  lemma DivModUnique(v: int, d: int, q: int, r: int)
    requires d > 0 && 0 <= r < d && v == q * d + r
    ensures v / d == q && v % d == r
  {
    var q', r' := v / d, v % d;
    assert q' * d + r' == v;
    assert (q - q') * d == r' - r;
    if q > q' {
      MulAtLeast(q - q', d);
      assert false;
    } else if q < q' {
      MulAtLeast(q' - q, d);
      assert false;
    }
  }

  lemma DivMod(n: nat, d: nat)
    requires d > 0
    ensures n / d * d + n % d == n
    ensures 0 <= n % d < d
    ensures n >= d ==> n / d >= 1
    ensures n < d ==> n / d == 0 && n % d == n
  {
    if n < d {
      DivModUnique(n, d, 0, n);
    }
  }

  lemma PlusTwoParity(n: int)
    ensures (n + 2) % 2 == n % 2
  {
    DivModUnique(n + 2, 2, n / 2 + 1, n % 2);
  }

  /** Halving an even number and scaling by eight is scaling by four. */
  lemma EvenHalf(n: nat)
    requires n % 2 == 0
    ensures 8 * (n / 2) == 4 * n
  {
    DivModUnique(n, 2, n / 2, 0);
  }

  lemma DivDiv(v: nat, x: nat, y: nat)
    requires x > 0 && y > 0
    ensures v / x / y == v / (x * y)
    ensures (v / x) % y * x + v % x == v % (x * y)
  {
    var q, r := v / x, v % x;
    var q2, r2 := q / y, q % y;
    assert v == q2 * (x * y) + (r2 * x + r) by {
      assert v == q * x + r;
      assert q == q2 * y + r2;
      assert q * x == q2 * (x * y) + r2 * x;
    }
    assert r2 * x + r < x * y by {
      MulMonotone(r2, y - 1, x);
      assert (y - 1) * x == x * y - x;
    }
    DivModUnique(v, x * y, q2, r2 * x + r);
  }

  lemma {:induction false} PowAdd(b: nat, e1: nat, e2: nat)
    ensures Pow(b, e1 + e2) == Pow(b, e1) * Pow(b, e2)
    decreases e2
  {
    if e2 > 0 {
      PowAdd(b, e1, e2 - 1);
      assert Pow(b, e1 + e2) == b * Pow(b, e1 + (e2 - 1));
      MulSwap(b, Pow(b, e1), Pow(b, e2 - 1));
    }
  }

  lemma MulSwap(a: int, x: int, y: int)
    ensures a * (x * y) == x * (a * y)
  {
  }

  lemma {:induction false} PowMonotone(b: nat, e1: nat, e2: nat)
    requires b >= 1 && e1 <= e2
    ensures Pow(b, e1) <= Pow(b, e2)
    decreases e2
  {
    if e1 < e2 {
      PowMonotone(b, e1, e2 - 1);
      MulAtLeast(b, Pow(b, e2 - 1));
    }
  }

  /** A hexadecimal digit is four binary digits. */
  lemma Pow16(k: nat)
    ensures Pow(16, k) == Pow(2, 4 * k)
  {
    if k > 0 {
      Pow16(k - 1);
      PowAdd(2, 4 * (k - 1), 4);
      assert Pow(2, 4) == 16;
    }
  }

  /** Regrouping used when a digit is appended to a positional rendering. */
  lemma Regroup(a: int, p: int, b: int, m: int, d: int)
    ensures (a * p + b) * m + d == a * (m * p) + (b * m + d)
  {
    assert (a * p + b) * m == a * p * m + b * m;
    assert a * p * m == a * (m * p);
  }

  /** `a * m + r` with `r < m` lies below `(a + 1) * m`. */
  lemma MulAddBelow(a: nat, m: nat, r: nat, n: nat)
    requires r < m && a < n
    ensures a * m + r < n * m
    ensures a * m + r < m * n
  {
    MulMonotone(a + 1, n, m);
    assert (a + 1) * m == a * m + m;
  }
}
