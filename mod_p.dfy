/** Integer facts about the BabyBear prime P = 15 * 2^27 + 1 and about
    exponentiation. Everything here is stated over unbounded integers; the
    field modules use it to connect their 32- and 64-bit computations to
    arithmetic modulo P. */
module ModP {

  /** The modulus of the field, 15 * 2^27 + 1 = 2013265921. */
  const P: int := 15 * 0x800_0000 + 1

  /** Integer exponentiation x^n. */
  function Power(x: int, n: nat): int
  {
    if n == 0 then 1 else x * Power(x, n - 1)
  }

  /** 2^k. */
  function Pow2(k: nat): (r: nat)
    ensures r >= 1
  {
    if k == 0 then 1 else 2 * Pow2(k - 1)
  }

  lemma ModOfMultiple(a: int, t: int)
    ensures (a + P * t) % P == a % P
  {
  }

  /** Two integers with the same residue differ by a multiple of P. */
  lemma SameResidue(a: int, b: int)
    requires a % P == b % P
    ensures a - b == P * (a / P - b / P)
  {
  }

  lemma AddCong(x: int, y: int, u: int, v: int)
    requires x % P == u % P && y % P == v % P
    ensures (x + y) % P == (u + v) % P
  {
    SameResidue(x, u);
    SameResidue(y, v);
    ModOfMultiple(u + v, x / P - u / P + y / P - v / P);
  }

  lemma SubCong(x: int, y: int, u: int, v: int)
    requires x % P == u % P && y % P == v % P
    ensures (x - y) % P == (u - v) % P
  {
    SameResidue(x, u);
    SameResidue(y, v);
    ModOfMultiple(u - v, x / P - u / P - y / P + v / P);
  }

  lemma MulCong(x: int, y: int, u: int, v: int)
    requires x % P == u % P && y % P == v % P
    ensures (x * y) % P == (u * v) % P
  {
    var s, t := x / P - u / P, y / P - v / P;
    SameResidue(x, u);
    SameResidue(y, v);
    assert x == u + P * s;
    assert y == v + P * t;
    calc {
      x * y;
      (u + P * s) * (v + P * t);
      u * v + P * (s * v + u * t + P * s * t);
    }
    ModOfMultiple(u * v, s * v + u * t + P * s * t);
  }

  /** Reducing an operand before an operation does not change the residue. */
  lemma ModAdd(x: int, y: int)
    ensures ((x % P) + (y % P)) % P == (x + y) % P
  {
    AddCong(x % P, y % P, x, y);
  }

  lemma {:induction false} PowerAdd(x: int, a: nat, b: nat)
    ensures Power(x, a + b) == Power(x, a) * Power(x, b)
    decreases a
  {
    if a > 0 {
      PowerAdd(x, a - 1, b);
      calc {
        Power(x, a + b);
        x * Power(x, a - 1 + b);
        x * (Power(x, a - 1) * Power(x, b));
        (x * Power(x, a - 1)) * Power(x, b);
      }
    }
  }

  /** Squaring the base halves the exponent: (x*x)^k == x^(2k). */
  lemma {:induction false} PowerOfSquare(x: int, k: nat)
    ensures Power(x * x, k) == Power(x, 2 * k)
    decreases k
  {
    if k > 0 {
      PowerOfSquare(x, k - 1);
      calc {
        Power(x * x, k);
        (x * x) * Power(x * x, k - 1);
        (x * x) * Power(x, 2 * k - 2);
        x * (x * Power(x, 2 * k - 2));
        x * Power(x, 2 * k - 1);
        Power(x, 2 * k);
      }
    }
  }

  lemma {:induction false} PowerMul(x: int, a: nat, b: nat)
    ensures Power(x, a * b) == Power(Power(x, a), b)
    decreases b
  {
    if b > 0 {
      PowerMul(x, a, b - 1);
      PowerAdd(x, a, a * (b - 1));
      assert a * b == a + a * (b - 1);
    }
  }

  /** Exponentiation respects congruence modulo P. */
  lemma {:induction false} PowerMod(x: int, n: nat)
    ensures Power(x % P, n) % P == Power(x, n) % P
    decreases n
  {
    if n > 0 {
      PowerMod(x, n - 1);
      MulCong(x % P, Power(x % P, n - 1), x, Power(x, n - 1));
    }
  }

  /** x^(2^(k+1)) is x^(2^k) squared. */
  lemma PowerPow2Succ(x: int, k: nat)
    ensures Power(x, Pow2(k + 1)) == Power(x, Pow2(k)) * Power(x, Pow2(k))
  {
    PowerAdd(x, Pow2(k), Pow2(k));
  }
}
