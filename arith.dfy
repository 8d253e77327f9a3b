/** Small facts of integer arithmetic, stated on plain numbers so that the proofs
    about limbs and digits stay linear. */
module Arithmetic {
  lemma MulAtLeast(k: nat, b: nat)
    requires k >= 1
    ensures k * b >= b
  {
    assert k * b == b + (k - 1) * b;
  }

  lemma MulMonotonic(a: nat, b: nat, c: nat, d: nat)
    requires a <= c && b <= d
    ensures a * b <= c * d
  {
    assert c * d - a * b == (c - a) * d + a * (d - b);
  }

  /** x == q * m + r with 0 <= r < m fixes x / m and x % m (Euclidean division). */
  lemma DivModUniqueInt(x: int, q: int, r: int, m: int)
    requires 0 <= r < m && x == q * m + r
    ensures x / m == q && x % m == r
  {
    var q', r' := x / m, x % m;
    assert x == q' * m + r';
    if q' < q {
      assert (q - q') * m == r' - r;
      MulAtLeast(q - q', m);
      assert false;
    } else if q' > q {
      assert (q' - q) * m == r - r';
      MulAtLeast(q' - q, m);
      assert false;
    }
  }

  /** Division by `b` of q * b + r with r < b gives back q and r. */
  lemma DivModUnique(q: nat, r: nat, b: nat)
    requires r < b
    ensures (q * b + r) / b == q && (q * b + r) % b == r
  {
    DivModUniqueInt(q * b + r, q, r, b);
  }

  /** b^e. */
  function Pow(b: nat, e: nat): (r: nat)
    ensures b > 0 ==> r > 0
  {
    if e == 0 then 1 else b * Pow(b, e - 1)
  }

  lemma {:induction false} PowMonotonic(b: nat, e1: nat, e2: nat)
    requires b > 0 && e1 <= e2
    ensures Pow(b, e1) <= Pow(b, e2)
  {
    if e1 < e2 {
      PowMonotonic(b, e1, e2 - 1);
      MulAtLeast(b, Pow(b, e2 - 1));
    }
  }

  lemma {:induction false} PowAdd(b: nat, e1: nat, e2: nat)
    ensures Pow(b, e1 + e2) == Pow(b, e1) * Pow(b, e2)
  {
    if e2 > 0 {
      PowAdd(b, e1, e2 - 1);
      calc {
        Pow(b, e1 + e2);
        b * Pow(b, e1 + e2 - 1);
        b * (Pow(b, e1) * Pow(b, e2 - 1));
        Pow(b, e1) * (b * Pow(b, e2 - 1));
      }
    }
  }

  /** A larger base gives a larger power. */
  lemma {:induction false} PowBaseMonotonic(a: nat, b: nat, e: nat)
    requires 1 <= a <= b
    ensures Pow(a, e) <= Pow(b, e)
  {
    if e > 0 {
      PowBaseMonotonic(a, b, e - 1);
      MulMonotonic(a, Pow(a, e - 1), b, Pow(b, e - 1));
    }
  }

  /** (b^m)^n == b^(m n). */
  lemma {:induction false} PowPow(b: nat, m: nat, n: nat)
    ensures Pow(Pow(b, m), n) == Pow(b, m * n)
  {
    if n > 0 {
      PowPow(b, m, n - 1);
      PowAdd(b, m, m * (n - 1));
      assert m + m * (n - 1) == m * n;
    }
  }

  /** Powers of two grow strictly with the exponent, so comparing them compares the
      exponents. */
  lemma PowExponentBelow(e1: nat, e2: nat)
    requires Pow(2, e1) < Pow(2, e2)
    ensures e1 < e2
  {
    if e1 >= e2 {
      PowMonotonic(2, e2, e1);
    }
  }
}
