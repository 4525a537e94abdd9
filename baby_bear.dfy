/** The BabyBear base field: integers modulo P = 15 * 2^27 + 1, held in a
    32-bit word that is always kept in canonical form (strictly below P).
    The machine integer widths of the implementation are explicit here:
    `U32` and `U64` are the unsigned ranges, and wrap-around and truncating
    casts are written out as reductions modulo 2^32. */
module BabyBear {
  import opened ModP

  const U32_LIMIT: int := 0x1_0000_0000
  const U32_MAX: int := 0xFFFF_FFFF

  type U32 = x: int | 0 <= x < 0x1_0000_0000
  type U64 = x: int | 0 <= x < 0x1_0000_0000_0000_0000

  /** A field element: a 32-bit word in canonical form. */
  type Elem = x: U32 | x < P

  const ZERO: Elem := 0
  const ONE: Elem := 1

  /** `x as u32`: keep the low 32 bits. */
  function TruncateU32(x: int): U32
  {
    x % U32_LIMIT
  }

  /** `u32::wrapping_sub`. */
  function WrappingSub(x: U32, y: U32): U32
  {
    (x - y) % U32_LIMIT
  }

  /** `u32::wrapping_add`. */
  function WrappingAdd(x: U32, y: U32): U32
  {
    (x + y) % U32_LIMIT
  }

  /** `Elem::new`: any 32-bit integer, reduced to its canonical residue. */
  function New(x: U32): (r: Elem)
    ensures r % P == x % P
    ensures x < P ==> r == x
  {
    x % P
  }

  /** `From<u32> for Elem`; it agrees with the 64-bit conversion on every
      32-bit input. */
  function FromU32(x: U32): (r: Elem)
    ensures r % P == x % P
    ensures r == FromU64(x)
  {
    New(x)
  }

  /** `From<u64> for Elem`: reduce modulo P in 64 bits, then narrow. */
  function FromU64(x: U64): (r: Elem)
    ensures r % P == x % P
  {
    TruncateU32(x % P)
  }

  /** `From<Elem> for u32`. */
  function ToU32(e: Elem): U32
  {
    e
  }

  /** `From<Elem> for u64`. */
  function ToU64(e: Elem): U64
  {
    e
  }

  /** Converting a canonical element out and back in gives it back. */
  lemma ConversionRoundTrip(e: Elem)
    ensures FromU32(ToU32(e)) == e
    ensures FromU64(ToU64(e)) == e
  {
  }

  /** The `add` helper behind `Elem + Elem`: a plain 32-bit addition, which
      cannot overflow because 2P < 2^32, followed by one conditional
      subtraction. */
  function Add(lhs: U32, rhs: U32): (r: U32)
    requires lhs < P && rhs < P
    ensures r < P
    ensures r == (lhs + rhs) % P
  {
    var x: U32 := lhs + rhs;
    if x >= P then x - P else x
  }

  /** The `sub` helper behind `Elem - Elem`: a wrapping 32-bit subtraction;
      a result above P can only come from wrapping, and adding P back
      (again wrapping) lands on the canonical difference. */
  function Sub(lhs: U32, rhs: U32): (r: U32)
    requires lhs < P && rhs < P
    ensures r < P
    ensures r == (lhs - rhs) % P
    ensures r == (lhs + (P - rhs)) % P
  {
    SubWraps(lhs, rhs);
    var x := WrappingSub(lhs, rhs);
    if x > P then WrappingAdd(x, P) else x
  }

  /** The two cases of `sub`: no wrap when lhs >= rhs (the difference is
      then at most P - 1), and otherwise a wrapped value above P that adding
      P wraps back to lhs - rhs + P. */
  lemma SubWraps(lhs: U32, rhs: U32)
    requires lhs < P && rhs < P
    ensures lhs >= rhs ==> WrappingSub(lhs, rhs) == lhs - rhs < P
    ensures lhs < rhs ==> WrappingSub(lhs, rhs) == lhs - rhs + U32_LIMIT > P
    ensures lhs < rhs ==> WrappingAdd(lhs - rhs + U32_LIMIT, P) == lhs - rhs + P
  {
  }

  /** The `mul` helper behind `Elem * Elem`: widen to 64 bits, where the
      product of any two 32-bit words fits, reduce, and narrow. */
  function Mul(lhs: U32, rhs: U32): (r: U32)
    ensures r < P
    ensures r == (lhs * rhs) % P
  {
    ProductFitsU64(lhs, rhs);
    var wide: U64 := lhs * rhs;
    TruncateU32(wide % P)
  }

  /** The product of two 32-bit words fits in 64 bits. */
  lemma ProductFitsU64(lhs: U32, rhs: U32)
    ensures 0 <= lhs * rhs < 0x1_0000_0000_0000_0000
  {
    var x: int, y: int := lhs, rhs;
    ProductBound(x, y);
  }

  lemma ProductBound(x: int, y: int)
    requires 0 <= x <= 0xFFFF_FFFF && 0 <= y <= 0xFFFF_FFFF
    ensures 0 <= x * y <= 0xFFFF_FFFE_0000_0001
  {
    MulMonotone(x, 0, y);
    MulMonotone(x, y, 0xFFFF_FFFF);
    MulMonotone(0xFFFF_FFFF, x, 0xFFFF_FFFF);
  }

  lemma MulMonotone(a: int, b: int, c: int)
    requires 0 <= a && 0 <= b <= c
    ensures a * b <= a * c
  {
  }

  /** The helpers only see their operands modulo P: operands congruent to
      u and v give the canonical residue of u + v, u - v and u * v. */
  lemma AddResidues(x: Elem, y: Elem, u: int, v: int)
    requires x == u % P && y == v % P
    ensures Add(x, y) == (u + v) % P
  {
    AddCong(x, y, u, v);
  }

  lemma SubResidues(x: Elem, y: Elem, u: int, v: int)
    requires x == u % P && y == v % P
    ensures Sub(x, y) == (u - v) % P
  {
    SubCong(x, y, u, v);
  }

  lemma MulResidues(x: Elem, y: Elem, u: int, v: int)
    requires x == u % P && y == v % P
    ensures Mul(x, y) == (u * v) % P
  {
    MulCong(x, y, u, v);
  }

  /** The helpers agree with plain 64-bit arithmetic followed by
      `From<u64>`, the native computation the tests compare them with. */
  lemma AgreesWithNative(a: Elem, b: Elem)
    ensures Add(a, b) == FromU64(a + b)
    ensures Sub(a, b) == FromU64(a + (P - b))
    ensures 0 <= a * b < 0x1_0000_0000_0000_0000 && Mul(a, b) == FromU64(a * b)
  {
    var x: int, y: int := a, b;
    ProductFitsU64(a, b);
    var w: U64 := x * y;
    assert FromU64(w) == w % P;
    assert Mul(a, b) == w % P;
  }

  /** `Neg for Elem`, computed as `Elem(0) - self`: the additive inverse. */
  function Neg(a: Elem): (r: Elem)
    ensures Add(a, r) == 0
    ensures r == (P - a) % P
  {
    Sub(0, a)
  }

  /** `pow` by square-and-multiply: `tot` collects the factors for the
      odd bits of `n` while `y` runs through x, x^2, x^4, ... */
  method Pow(x: Elem, n: nat) returns (tot: Elem)
    ensures tot == Power(x, n) % P
    ensures n == 0 ==> tot == ONE
  {
    var m := n;
    tot := ONE;
    var y: Elem := x;
    while m != 0
      invariant (tot * Power(y, m)) % P == Power(x, n) % P
    {
      PowLoopStep(tot, y, m);
      if m % 2 == 1 {
        tot := Mul(tot, y);
      }
      m := m / 2;
      y := Mul(y, y);
    }
  }

  /** One iteration of the loop in `Pow` keeps `tot * y^m` fixed modulo P. */
  lemma PowLoopStep(tot: Elem, y: Elem, m: nat)
    requires m > 0
    ensures ((if m % 2 == 1 then Mul(tot, y) else tot) * Power(Mul(y, y), m / 2)) % P
            == (tot * Power(y, m)) % P
  {
    if m % 2 == 1 {
      OddStep(tot, y, Mul(tot, y), Mul(y, y), m);
    } else {
      EvenStep(tot, y, Mul(y, y), m);
    }
  }

  lemma SquareHalf(x: int, yy: int, m: nat)
    requires yy % P == (x * x) % P
    ensures Power(yy, m / 2) % P == Power(x, 2 * (m / 2)) % P
  {
    var h := m / 2;
    PowerMod(yy, h);
    PowerMod(x * x, h);
    PowerOfSquare(x, h);
  }

  lemma OddStep(t: int, x: int, ty: int, yy: int, m: nat)
    requires m % 2 == 1
    requires ty % P == (t * x) % P && yy % P == (x * x) % P
    ensures (ty * Power(yy, m / 2)) % P == (t * Power(x, m)) % P
  {
    var z := Power(x, 2 * (m / 2));
    SquareHalf(x, yy, m);
    MulCong(ty, Power(yy, m / 2), t * x, z);
    assert Power(x, m) == x * z;
    assert (t * x) * z == t * (x * z);
  }

  lemma EvenStep(t: int, x: int, yy: int, m: nat)
    requires m % 2 == 0
    requires yy % P == (x * x) % P
    ensures (t * Power(yy, m / 2)) % P == (t * Power(x, m)) % P
  {
    SquareHalf(x, yy, m);
    MulCong(t, Power(yy, m / 2), t, Power(x, m));
  }



  /** `inv` is `self.pow(P - 2)`; by this convention the inverse of zero is
      zero. For non-zero x it is the inverse by Fermat's little theorem. */
  function Inv(x: Elem): (r: Elem)
    ensures x == 0 ==> r == 0
  {
    Power(x, P - 2) % P
  }

  /** k successive squarings modulo P. */
  function Squarings(x: Elem, k: nat): Elem
    decreases k
  {
    if k == 0 then x else Squarings(Mul(x, x), k - 1)
  }

  lemma {:induction false} SquaringsArePowers(x: Elem, k: nat)
    ensures Squarings(x, k) == Power(x, Pow2(k)) % P
    decreases k
  {
    if k > 0 {
      SquaringsArePowers(Mul(x, x), k - 1);
      PowerMod(x * x, Pow2(k - 1));
      PowerOfSquare(x, Pow2(k - 1));
    }
  }

  /** The smoke values of the `pow` test: 5^0, 5^1, 5^2 and 5^1000. */
  lemma PowOfFive()
    ensures Power(5, 0) % P == 1
    ensures Power(5, 1) % P == 5
    ensures Power(5, 2) % P == 25
    ensures Power(5, 1000) % P == 589699054
  {
    FiveToThe1000(1000);
  }

  /** 1000 == 125 * 2^3: three squarings of 5^125. The exponent is a
      parameter rather than the literal 1000 so that the verifier does not
      unfold `Power(5, 1000)` term by term. */
  lemma FiveToThe1000(n: nat)
    requires n == 1000
    ensures Power(5, n) % P == 589699054
  {
    FiveToThe125();
    assert 125 * Pow2(3) == n;
    PowerMul(5, 125, Pow2(3));
    PowerMod(Power(5, 125), Pow2(3));
    SquaringsArePowers(120814691, 3);
    assert Squarings(120814691, 3) == 589699054;
  }

  lemma FiveToThe25()
    ensures Power(5, 25) % P == 1093526269
  {
    PowerMul(5, 5, 5);
    assert Power(5, 5) == 3125;
    assert Power(3125, 5) % P == 1093526269;
  }

  lemma FiveToThe125()
    ensures Power(5, 125) % P == 120814691
  {
    FiveToThe25();
    PowerMul(5, 25, 5);
    PowerMod(Power(5, 25), 5);
    assert Power(1093526269, 5) % P == 120814691;
  }

  /** 5^(P-1) == 1, computed as (5^15)^(2^27) by 27 squarings. */
  lemma FermatAtFive()
    ensures Power(5, P - 1) % P == 1
  {
    var k := Pow2(27);
    var f := Power(5, 15);
    SmallPowers();
    PowerMul(5, 15, k);
    PowerMod(f, k);
    SquaringsArePowers(f % P, 27);
    SquaringsOfFiveToFifteen(f % P);
  }

  lemma SmallPowers()
    ensures Power(5, 15) == 30517578125
    ensures 15 * Pow2(27) == P - 1
  {
    assert Power(5, 5) == 3125;
    assert Power(5, 10) == 9765625;
    assert Pow2(9) == 512;
    assert Pow2(18) == 262144;
  }

  lemma SquaringsOfFiveToFifteen(x: Elem)
    requires x == 30517578125 % P
    ensures Squarings(x, 27) == 1
  {
    var b: Elem := 792745678;
    FirstNineSquarings();
    SecondNineSquarings();
    ThirdNineSquarings();
    SquaringsCompose(x, 9, 18);
    SquaringsCompose(b, 9, 9);
  }

  lemma {:induction false} SquaringsCompose(x: Elem, a: nat, b: nat)
    ensures Squarings(x, a + b) == Squarings(Squarings(x, a), b)
    decreases a
  {
    if a > 0 {
      SquaringsCompose(Mul(x, x), a - 1, b);
    }
  }

  // Three runs of nine squarings take 5^15 mod P to 1; each step is a
  // product the solver evaluates on literals.

  lemma FirstNineSquarings()
    ensures Squarings(318589310, 9) == 792745678
  {
    assert Mul(318589310, 318589310) == 757322688;
    assert Mul(757322688, 757322688) == 346760830;
    assert Mul(346760830, 346760830) == 1049513920;
    assert Mul(1049513920, 1049513920) == 20697230;
    assert Mul(20697230, 20697230) == 660066204;
    assert Mul(660066204, 660066204) == 662668867;
    assert Mul(662668867, 662668867) == 1910766886;
    assert Mul(1910766886, 1910766886) == 1134593773;
    assert Mul(1134593773, 1134593773) == 792745678;
    assert Squarings(792745678, 0) == 792745678;
    assert Squarings(1134593773, 1) == 792745678;
    assert Squarings(1910766886, 2) == 792745678;
    assert Squarings(662668867, 3) == 792745678;
    assert Squarings(660066204, 4) == 792745678;
    assert Squarings(20697230, 5) == 792745678;
    assert Squarings(1049513920, 6) == 792745678;
    assert Squarings(346760830, 7) == 792745678;
    assert Squarings(757322688, 8) == 792745678;
    assert Squarings(318589310, 9) == 792745678;
  }

  lemma SecondNineSquarings()
    ensures Squarings(792745678, 9) == 776161080
  {
    assert Mul(792745678, 792745678) == 1439956124;
    assert Mul(1439956124, 1439956124) == 84435639;
    assert Mul(84435639, 84435639) == 1867159042;
    assert Mul(1867159042, 1867159042) == 1842831603;
    assert Mul(1842831603, 1842831603) == 1045838978;
    assert Mul(1045838978, 1045838978) == 893603615;
    assert Mul(893603615, 893603615) == 554304165;
    assert Mul(554304165, 554304165) == 500320476;
    assert Mul(500320476, 500320476) == 776161080;
    assert Squarings(776161080, 0) == 776161080;
    assert Squarings(500320476, 1) == 776161080;
    assert Squarings(554304165, 2) == 776161080;
    assert Squarings(893603615, 3) == 776161080;
    assert Squarings(1045838978, 4) == 776161080;
    assert Squarings(1842831603, 5) == 776161080;
    assert Squarings(1867159042, 6) == 776161080;
    assert Squarings(84435639, 7) == 776161080;
    assert Squarings(1439956124, 8) == 776161080;
    assert Squarings(792745678, 9) == 776161080;
  }

  lemma ThirdNineSquarings()
    ensures Squarings(776161080, 9) == 1
  {
    assert Mul(776161080, 776161080) == 1900691439;
    assert Mul(1900691439, 1900691439) == 288289890;
    assert Mul(288289890, 288289890) == 772607190;
    assert Mul(772607190, 772607190) == 78945800;
    assert Mul(78945800, 78945800) == 211723194;
    assert Mul(211723194, 211723194) == 284861408;
    assert Mul(284861408, 284861408) == 2013265920;
    assert Mul(2013265920, 2013265920) == 1;
    assert Mul(1, 1) == 1;
    assert Squarings(1, 0) == 1;
    assert Squarings(1, 1) == 1;
    assert Squarings(2013265920, 2) == 1;
    assert Squarings(284861408, 3) == 1;
    assert Squarings(211723194, 4) == 1;
    assert Squarings(78945800, 5) == 1;
    assert Squarings(772607190, 6) == 1;
    assert Squarings(288289890, 7) == 1;
    assert Squarings(1900691439, 8) == 1;
    assert Squarings(776161080, 9) == 1;
  }

  /** The `inv` smoke test: 5 * inv(5) == 1 (and so inv(5) == 1610612737). */
  lemma InvOfFive()
    ensures Mul(Inv(5), 5) == 1
    ensures Inv(5) == 1610612737
  {
    FermatAtFive();
    InverseByFermat(5);
    assert Mul(5, 1610612737) == 1;
    InverseIsUnique(5, Inv(5), 1610612737);
  }

  /** Whenever x^(P-1) == 1 (Fermat's little theorem, for x != 0), the
      exponent P - 2 used by `inv` gives the multiplicative inverse. */
  lemma InverseByFermat(x: Elem)
    requires Power(x, P - 1) % P == 1
    ensures Mul(Inv(x), x) == 1
  {
    var y: int := x;
    PowerAdd(y, P - 2, 1);
    MulCong(Power(y, P - 2) % P, y, Power(y, P - 2), y);
  }

  /** An element has at most one inverse modulo P. */
  lemma InverseIsUnique(x: Elem, y: Elem, z: Elem)
    requires Mul(y, x) == 1 && Mul(x, z) == 1
    ensures y == z
  {
    var a: int, b: int, c: int := x, y, z;
    calc {
      b;
      (b * 1) % P;
      { MulCong(b, 1, b, a * c); }
      (b * (a * c)) % P;
      { assert b * (a * c) == (b * a) * c; }
      ((b * a) * c) % P;
      { MulCong(b * a, c, 1, c); }
      c;
    }
  }

  /** The cut-off of rejection sampling: the largest multiple of P that
      fits in 32 bits. */
  const REJECT_CUTOFF: U32 := (U32_MAX / P) * P

  /** The elements produced, in order, by the draws that pass the rejection
      test. */
  function Accepted(draws: seq<U32>): (r: seq<Elem>)
    ensures |r| <= |draws|
  {
    if |draws| == 0 then []
    else if draws[0] < REJECT_CUTOFF then [FromU32(draws[0])] + Accepted(draws[1..])
    else Accepted(draws[1..])
  }

  /** Every residue has exactly two preimages below the cut-off, so the
      accepted draws are uniform when the raw draws are. */
  lemma RejectionIsUniform(r: Elem, v: U32)
    ensures REJECT_CUTOFF == 2 * P
    ensures v < REJECT_CUTOFF ==> (FromU32(v) == r <==> v == r || v == r + P)
  {
  }

  /** `Elem::random`: the generator is a sequence of raw 32-bit draws; draws
      at or above the cut-off are rejected and the first accepted draw is
      reduced. `rest` is what the generator still holds afterwards. */
  method Random(draws: seq<U32>) returns (r: Elem, rest: seq<U32>)
    requires |Accepted(draws)| > 0
    ensures r == Accepted(draws)[0]
    ensures Accepted(rest) == Accepted(draws)[1..]
    ensures |rest| < |draws| && rest == draws[|draws| - |rest|..]
    ensures draws[|draws| - |rest| - 1] < REJECT_CUTOFF
    ensures forall j | 0 <= j < |draws| - |rest| - 1 :: draws[j] >= REJECT_CUTOFF
    ensures r == FromU32(draws[|draws| - |rest| - 1])
  {
    var i := 0;
    var val := draws[0];
    while val >= REJECT_CUTOFF
      invariant i < |draws| && val == draws[i]
      invariant forall j | 0 <= j < i :: draws[j] >= REJECT_CUTOFF
      invariant Accepted(draws[i..]) == Accepted(draws)
      decreases |draws| - i
    {
      assert draws[i..][1..] == draws[i + 1..];
      i := i + 1;
      val := draws[i];
    }
    assert draws[i..][1..] == draws[i + 1..];
    r := FromU32(val);
    rest := draws[i + 1..];
  }
}
