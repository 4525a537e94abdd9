/** The quartic extension of the BabyBear field: four base-field
    coefficients, multiplied as polynomials and reduced by X^4 == -11 (that
    is, modulo X^4 + 11, the reduction the multiplication and inversion
    routines perform with NBETA == P - 11).

    An `ExtElem` value is a sequence of four canonical coefficients. The
    assign operators of the implementation update the coefficient array of
    their left operand in place; they are methods on an `array` of length 4.
    The operators that return a new value copy their left operand into a
    fresh array and call the matching assign operator, as the implementation
    does. The meaning of every operation is given by a specification
    function: the canonical residues of the integer polynomial operation of
    the `Quartic` module. */
module BabyBearExt {
  import opened ModP
  import opened Quartic
  import F = BabyBear

  /** The number of base-field coefficients. */
  const EXT_SIZE: nat := 4

  type ExtElem = s: seq<F.Elem> | |s| == EXT_SIZE witness [0, 0, 0, 0]

  const BETA: F.Elem := F.New(11)
  const NBETA: F.Elem := F.New(P - 11)

  const Zero: ExtElem := [0, 0, 0, 0]
  const One: ExtElem := [1, 0, 0, 0]

  // ---------------------------------------------------------------------
  // Construction

  /** `ExtElem::new`. */
  function New(x0: F.Elem, x1: F.Elem, x2: F.Elem, x3: F.Elem): ExtElem
  {
    [x0, x1, x2, x3]
  }

  /** `ExtElem::from_fp`, `From<Elem>` and `from_subfield`: the embedding of
      the base field as constant polynomials. */
  function FromFp(x: F.Elem): ExtElem
  {
    [x, F.New(0), F.New(0), F.New(0)]
  }

  /** `ExtElem::from_u32`, through `Elem::new`. */
  function FromU32(x0: F.U32): ExtElem
  {
    [F.New(x0), F.New(0), F.New(0), F.New(0)]
  }

  /** `From<u32> for ExtElem`, through `Elem::from`. */
  function FromU32Value(x: F.U32): ExtElem
  {
    [F.FromU32(x), F.ZERO, F.ZERO, F.ZERO]
  }

  /** `ExtElem::const_part`. */
  function ConstPart(x: ExtElem): F.Elem
  {
    x[0]
  }

  /** All the constructors from a base-field value agree, keep the value as
      the constant part, and give the zero and one of the extension. */
  lemma ConstructorsAgree(x: F.U32, e: F.Elem)
    ensures FromU32(x) == FromU32Value(x) == FromFp(F.New(x))
    ensures ConstPart(FromFp(e)) == e
    ensures FromFp(e) == New(e, 0, 0, 0)
    ensures FromU32(0) == Zero && FromU32(1) == One
  {
  }

  // ---------------------------------------------------------------------
  // Specification functions

  /** The canonical residues of an integer polynomial. */
  function Canon(q: Quad): ExtElem
  {
    [q[0] % P, q[1] % P, q[2] % P, q[3] % P]
  }

  function Sum(x: ExtElem, y: ExtElem): ExtElem
  {
    Canon(QAdd(x, y))
  }

  function Diff(x: ExtElem, y: ExtElem): ExtElem
  {
    Canon(QSub(x, y))
  }

  function Scale(x: ExtElem, s: F.Elem): ExtElem
  {
    Canon(QScale(s, x))
  }

  function Product(x: ExtElem, y: ExtElem): ExtElem
  {
    Canon(QMul(x, y))
  }

  /** x^n by repeated multiplication. */
  function ExtPower(x: ExtElem, n: nat): ExtElem
  {
    if n == 0 then One else Product(x, ExtPower(x, n - 1))
  }

  // ---------------------------------------------------------------------
  // Reduction modulo P commutes with the polynomial operations

  lemma CanonOfCanonical(x: ExtElem)
    ensures Canon(x) == x
  {
  }

  /** The quotients of the coefficients by P. */
  function Quotients(u: Quad): Quad
  {
    [u[0] / P, u[1] / P, u[2] / P, u[3] / P]
  }

  lemma SplitResidues(u: Quad)
    ensures u == QAdd(Canon(u), QScale(P, Quotients(u)))
  {
  }

  lemma CanonAbsorbs(q: Quad, r: Quad)
    ensures Canon(QAdd(q, QScale(P, r))) == Canon(q)
  {
    ModOfMultiple(q[0], r[0]);
    ModOfMultiple(q[1], r[1]);
    ModOfMultiple(q[2], r[2]);
    ModOfMultiple(q[3], r[3]);
  }

  /** Reducing the left factor first does not change the reduced product. */
  lemma MulCanonLeft(u: Quad, v: Quad)
    ensures Canon(QMul(Canon(u), v)) == Canon(QMul(u, v))
  {
    var d := Quotients(u);
    SplitResidues(u);
    MulAddLeft(Canon(u), QScale(P, d), v);
    MulScaleLeft(P, d, v);
    CanonAbsorbs(QMul(Canon(u), v), QMul(d, v));
  }

  lemma MulCanonRight(u: Quad, v: Quad)
    ensures Canon(QMul(u, Canon(v))) == Canon(QMul(u, v))
  {
    MulCommutes(u, Canon(v));
    MulCanonLeft(v, u);
    MulCommutes(v, u);
  }

  lemma AddCanon(u: Quad, v: Quad)
    ensures Canon(QAdd(Canon(u), Canon(v))) == Canon(QAdd(u, v))
  {
    ModAdd(u[0], v[0]);
    ModAdd(u[1], v[1]);
    ModAdd(u[2], v[2]);
    ModAdd(u[3], v[3]);
  }

  // ---------------------------------------------------------------------
  // Ring laws

  lemma SumCommutes(a: ExtElem, b: ExtElem)
    ensures Sum(a, b) == Sum(b, a)
  {
  }

  lemma SumAssociates(a: ExtElem, b: ExtElem, c: ExtElem)
    ensures Sum(a, Sum(b, c)) == Sum(Sum(a, b), c)
  {
    AddCanon(a, QAdd(b, c));
    AddCanon(QAdd(a, b), c);
    CanonOfCanonical(a);
    CanonOfCanonical(c);
    assert QAdd(a, QAdd(b, c)) == QAdd(QAdd(a, b), c);
  }

  lemma ZeroIsAdditiveIdentity(a: ExtElem)
    ensures Sum(a, Zero) == a
  {
  }

  /** `-a` is `ZERO - a`, and `a + (-a) == ZERO`. */
  lemma NegIsAdditiveInverse(a: ExtElem)
    ensures Sum(a, Diff(Zero, a)) == Zero
  {
    NegCancels(a[0]);
    NegCancels(a[1]);
    NegCancels(a[2]);
    NegCancels(a[3]);
  }

  lemma NegCancels(x: int)
    requires 0 <= x < P
    ensures (x + (0 - x) % P) % P == 0
  {
    ModAdd(x, -x);
  }

  /** Adding back what was subtracted restores the minuend. */
  lemma SumUndoesDiff(a: ExtElem, b: ExtElem)
    ensures Sum(Diff(a, b), b) == a
  {
    AddBackCancels(a[0], b[0]);
    AddBackCancels(a[1], b[1]);
    AddBackCancels(a[2], b[2]);
    AddBackCancels(a[3], b[3]);
  }

  lemma AddBackCancels(x: int, y: int)
    requires 0 <= x < P
    ensures ((x - y) % P + y) % P == x
  {
    ModAdd(x - y, y);
  }

  lemma ProductCommutes(a: ExtElem, b: ExtElem)
    ensures Product(a, b) == Product(b, a)
  {
    MulCommutes(a, b);
  }

  lemma ProductAssociates(a: ExtElem, b: ExtElem, c: ExtElem)
    ensures Product(a, Product(b, c)) == Product(Product(a, b), c)
  {
    MulCanonRight(a, QMul(b, c));
    MulCanonLeft(QMul(a, b), c);
    MulAssociates(a, b, c);
  }

  lemma ProductDistributes(a: ExtElem, b: ExtElem, c: ExtElem)
    ensures Product(a, Sum(b, c)) == Sum(Product(a, b), Product(a, c))
  {
    MulCanonRight(a, QAdd(b, c));
    MulDistributes(a, b, c);
    AddCanon(QMul(a, b), QMul(a, c));
  }

  lemma OneIsMultiplicativeIdentity(a: ExtElem)
    ensures Product(One, a) == a
    ensures Product(a, One) == a
  {
    OneIsIdentity(a);
    CanonOfCanonical(a);
  }

  // ---------------------------------------------------------------------
  // The base field as a subfield

  lemma FromFpAdds(x: F.Elem, y: F.Elem)
    ensures Sum(FromFp(x), FromFp(y)) == FromFp(F.Add(x, y))
  {
  }

  lemma FromFpMultiplies(x: F.Elem, y: F.Elem)
    ensures Product(FromFp(x), FromFp(y)) == FromFp(F.Mul(x, y))
  {
    ConstantTimes(x, FromFp(y));
  }

  /** Multiplying by a base-field scalar, on either side, is multiplying by
      its embedding. */
  lemma ScaleIsProduct(a: ExtElem, s: F.Elem)
    ensures Scale(a, s) == Product(FromFp(s), a)
    ensures Scale(a, s) == Product(a, FromFp(s))
  {
    ConstantTimes(s, a);
    MulCommutes(a, FromFp(s));
  }

  /** Powers of an embedded element are the embedded powers. */
  lemma {:induction false} ExtPowerOfFromFp(x: F.Elem, n: nat)
    ensures ExtPower(FromFp(x), n) == FromFp(Power(x, n) % P)
  {
    if n > 0 {
      var y: F.Elem := Power(x, n - 1) % P;
      calc {
        ExtPower(FromFp(x), n);
        Product(FromFp(x), ExtPower(FromFp(x), n - 1));
        { ExtPowerOfFromFp(x, n - 1); }
        Product(FromFp(x), FromFp(y));
        { FromFpMultiplies(x, y); }
        FromFp(F.Mul(x, y));
        { F.MulResidues(x, y, x, Power(x, n - 1)); }
        FromFp(Power(x, n) % P);
      }
    }
  }


  // ---------------------------------------------------------------------
  // The reduction polynomial

  const X: ExtElem := [0, 1, 0, 0]

  /** X^4 is -11 (the element NBETA): the quotient is by X^4 + 11. */
  lemma XToTheFourth()
    ensures ExtPower(X, 4) == FromFp(NBETA)
  {
    OneIsMultiplicativeIdentity(X);
    XSquared();
    XCubed();
    XFourth();
  }

  lemma XSquared()
    ensures Product(X, X) == [0, 0, 1, 0]
  {
  }

  lemma XCubed()
    ensures Product(X, [0, 0, 1, 0]) == [0, 0, 0, 1]
  {
  }

  lemma XFourth()
    ensures Product(X, [0, 0, 0, 1]) == FromFp(NBETA)
  {
    assert QMul(X, [0, 0, 0, 1]) == [-BETA_INT, 0, 0, 0];
  }



  // ---------------------------------------------------------------------
  // Coefficient-wise assign operators

  /** `AddAssign for ExtElem`: add `rhs` into `lhs` coefficient by
      coefficient. */
  method AddAssign(lhs: array<F.Elem>, rhs: ExtElem)
    requires lhs.Length == EXT_SIZE
    modifies lhs
    ensures lhs[..] == Sum(old(lhs[..]), rhs)
  {
    for i := 0 to lhs.Length
      invariant forall j | 0 <= j < i :: lhs[j] == (old(lhs[j]) + rhs[j]) % P
      invariant forall j | i <= j < lhs.Length :: lhs[j] == old(lhs[j])
    {
      lhs[i] := F.Add(lhs[i], rhs[i]);
    }
  }

  /** `SubAssign for ExtElem`. */
  method SubAssign(lhs: array<F.Elem>, rhs: ExtElem)
    requires lhs.Length == EXT_SIZE
    modifies lhs
    ensures lhs[..] == Diff(old(lhs[..]), rhs)
  {
    for i := 0 to lhs.Length
      invariant forall j | 0 <= j < i :: lhs[j] == (old(lhs[j]) - rhs[j]) % P
      invariant forall j | i <= j < lhs.Length :: lhs[j] == old(lhs[j])
    {
      lhs[i] := F.Sub(lhs[i], rhs[i]);
    }
  }

  /** `MulAssign<Elem> for ExtElem`: scale every coefficient. */
  method MulAssignElem(lhs: array<F.Elem>, rhs: F.Elem)
    requires lhs.Length == EXT_SIZE
    modifies lhs
    ensures lhs[..] == Scale(old(lhs[..]), rhs)
  {
    for i := 0 to lhs.Length
      invariant forall j | 0 <= j < i :: lhs[j] == F.Mul(old(lhs[j]), rhs)
      invariant forall j | i <= j < lhs.Length :: lhs[j] == old(lhs[j])
    {
      lhs[i] := F.Mul(lhs[i], rhs);
    }
    ScaleIsCoefficientwise(old(lhs[..]), rhs, lhs[..]);
  }

  /** Multiplying each coefficient by s is the scalar product. */
  lemma ScaleIsCoefficientwise(x: ExtElem, s: F.Elem, y: seq<F.Elem>)
    requires |y| == EXT_SIZE
    requires forall j | 0 <= j < EXT_SIZE :: y[j] == F.Mul(x[j], s)
    ensures y == Scale(x, s)
  {
    var q: Quad := x;
    var t: int := s;
    forall j | 0 <= j < EXT_SIZE
      ensures y[j] == (t * q[j]) % P
    {
      assert y[j] == (q[j] * t) % P;
    }
  }


  // ---------------------------------------------------------------------
  // Full multiplication

  /** The four coefficients exactly as the multiplication routine writes
      them, with base-field operations and NBETA. */
  function MulForms(a: ExtElem, b: ExtElem): ExtElem
  {
    [F.Add(F.Mul(a[0], b[0]), F.Mul(NBETA, F.Add(F.Add(F.Mul(a[1], b[3]), F.Mul(a[2], b[2])), F.Mul(a[3], b[1])))),
     F.Add(F.Add(F.Mul(a[0], b[1]), F.Mul(a[1], b[0])), F.Mul(NBETA, F.Add(F.Mul(a[2], b[3]), F.Mul(a[3], b[2])))),
     F.Add(F.Add(F.Add(F.Mul(a[0], b[2]), F.Mul(a[1], b[1])), F.Mul(a[2], b[0])), F.Mul(NBETA, F.Mul(a[3], b[3]))),
     F.Add(F.Add(F.Add(F.Mul(a[0], b[3]), F.Mul(a[1], b[2])), F.Mul(a[2], b[1])), F.Mul(a[3], b[0]))]
  }

  /** The hand-written forms compute the product reduced modulo X^4 + 11. */
  lemma MulFormsAreProduct(a: ExtElem, b: ExtElem)
    ensures MulForms(a, b) == Product(a, b)
  {
    MulIsReducedSchoolbook(a, b);
    MulForm0(a, b);
    MulForm1(a, b);
    MulForm2(a, b);
    MulForm3(a, b);
  }

  lemma NbetaIsMinusBeta()
    ensures NBETA == (-BETA_INT) % P
  {
  }

  lemma MulForm0(a: ExtElem, b: ExtElem)
    ensures MulForms(a, b)[0] == Form0(a, b) % P
  {
    var x: Quad, y: Quad := a, b;
    var m13, m22, m31 := F.Mul(a[1], b[3]), F.Mul(a[2], b[2]), F.Mul(a[3], b[1]);
    var s := F.Add(m13, m22);
    var t := F.Add(s, m31);
    F.AddResidues(m13, m22, x[1] * y[3], x[2] * y[2]);
    F.AddResidues(s, m31, x[1] * y[3] + x[2] * y[2], x[3] * y[1]);
    NbetaIsMinusBeta();
    F.MulResidues(NBETA, t, -BETA_INT, x[1] * y[3] + x[2] * y[2] + x[3] * y[1]);
    F.AddResidues(F.Mul(a[0], b[0]), F.Mul(NBETA, t), x[0] * y[0],
                  -BETA_INT * (x[1] * y[3] + x[2] * y[2] + x[3] * y[1]));
  }

  lemma MulForm1(a: ExtElem, b: ExtElem)
    ensures MulForms(a, b)[1] == Form1(a, b) % P
  {
    var x: Quad, y: Quad := a, b;
    var m01, m10 := F.Mul(a[0], b[1]), F.Mul(a[1], b[0]);
    var m23, m32 := F.Mul(a[2], b[3]), F.Mul(a[3], b[2]);
    F.AddResidues(m01, m10, x[0] * y[1], x[1] * y[0]);
    F.AddResidues(m23, m32, x[2] * y[3], x[3] * y[2]);
    NbetaIsMinusBeta();
    F.MulResidues(NBETA, F.Add(m23, m32), -BETA_INT, x[2] * y[3] + x[3] * y[2]);
    F.AddResidues(F.Add(m01, m10), F.Mul(NBETA, F.Add(m23, m32)), x[0] * y[1] + x[1] * y[0],
                  -BETA_INT * (x[2] * y[3] + x[3] * y[2]));
  }

  lemma MulForm2(a: ExtElem, b: ExtElem)
    ensures MulForms(a, b)[2] == Form2(a, b) % P
  {
    var x: Quad, y: Quad := a, b;
    var m02, m11, m20 := F.Mul(a[0], b[2]), F.Mul(a[1], b[1]), F.Mul(a[2], b[0]);
    var s := F.Add(m02, m11);
    F.AddResidues(m02, m11, x[0] * y[2], x[1] * y[1]);
    F.AddResidues(s, m20, x[0] * y[2] + x[1] * y[1], x[2] * y[0]);
    NbetaIsMinusBeta();
    F.MulResidues(NBETA, F.Mul(a[3], b[3]), -BETA_INT, x[3] * y[3]);
    F.AddResidues(F.Add(s, m20), F.Mul(NBETA, F.Mul(a[3], b[3])), x[0] * y[2] + x[1] * y[1] + x[2] * y[0],
                  -BETA_INT * (x[3] * y[3]));
  }

  lemma MulForm3(a: ExtElem, b: ExtElem)
    ensures MulForms(a, b)[3] == Form3(a, b) % P
  {
    var x: Quad, y: Quad := a, b;
    var m03, m12, m21, m30 := F.Mul(a[0], b[3]), F.Mul(a[1], b[2]), F.Mul(a[2], b[1]), F.Mul(a[3], b[0]);
    var s := F.Add(m03, m12);
    var t := F.Add(s, m21);
    F.AddResidues(m03, m12, x[0] * y[3], x[1] * y[2]);
    F.AddResidues(s, m21, x[0] * y[3] + x[1] * y[2], x[2] * y[1]);
    F.AddResidues(t, m30, x[0] * y[3] + x[1] * y[2] + x[2] * y[1], x[3] * y[0]);
  }

  /** `MulAssign for ExtElem`: overwrite the coefficients of `lhs` with the
      product, all four computed from the old coefficients. */
  method MulAssign(lhs: array<F.Elem>, rhs: ExtElem)
    requires lhs.Length == EXT_SIZE
    modifies lhs
    ensures lhs[..] == Product(old(lhs[..]), rhs)
  {
    var c := MulForms(lhs[..], rhs);
    MulFormsAreProduct(lhs[..], rhs);
    lhs[0], lhs[1], lhs[2], lhs[3] := c[0], c[1], c[2], c[3];
    assert lhs[..] == c;
  }

  // ---------------------------------------------------------------------
  // Value operators: copy the left operand, then apply the assign operator

  /** A fresh coefficient array holding `x` (`let mut lhs = self`). */
  method ToArray(x: ExtElem) returns (a: array<F.Elem>)
    ensures fresh(a) && a.Length == EXT_SIZE && a[..] == x
  {
    a := new F.Elem[EXT_SIZE];
    a[0], a[1], a[2], a[3] := x[0], x[1], x[2], x[3];
    assert a[..] == x;
  }

  /** `Add for ExtElem`. */
  method Add(x: ExtElem, rhs: ExtElem) returns (r: ExtElem)
    ensures r == Sum(x, rhs)
  {
    var lhs := ToArray(x);
    AddAssign(lhs, rhs);
    r := lhs[..];
  }

  /** `Sub for ExtElem`. */
  method Sub(x: ExtElem, rhs: ExtElem) returns (r: ExtElem)
    ensures r == Diff(x, rhs)
  {
    var lhs := ToArray(x);
    SubAssign(lhs, rhs);
    r := lhs[..];
  }

  /** `Neg for ExtElem`: `ZERO - self`, the additive inverse. */
  method Neg(x: ExtElem) returns (r: ExtElem)
    ensures r == Diff(Zero, x)
    ensures Sum(x, r) == Zero
  {
    r := Sub(Zero, x);
    NegIsAdditiveInverse(x);
  }

  /** `Mul<Elem> for ExtElem`. */
  method MulElem(x: ExtElem, rhs: F.Elem) returns (r: ExtElem)
    ensures r == Scale(x, rhs)
  {
    var lhs := ToArray(x);
    MulAssignElem(lhs, rhs);
    r := lhs[..];
  }

  /** `Mul<ExtElem> for Elem`: the same as multiplying on the right. */
  method ElemMul(s: F.Elem, rhs: ExtElem) returns (r: ExtElem)
    ensures r == Scale(rhs, s)
  {
    r := MulElem(rhs, s);
  }

  /** `Mul for ExtElem`. */
  method Mul(x: ExtElem, rhs: ExtElem) returns (r: ExtElem)
    ensures r == Product(x, rhs)
  {
    var lhs := ToArray(x);
    MulAssign(lhs, rhs);
    r := lhs[..];
  }

  // ---------------------------------------------------------------------
  // Exponentiation

  lemma {:induction false} ExtPowerAdd(x: ExtElem, a: nat, b: nat)
    ensures Product(ExtPower(x, a), ExtPower(x, b)) == ExtPower(x, a + b)
    decreases a
  {
    if a == 0 {
      OneIsMultiplicativeIdentity(ExtPower(x, b));
    } else {
      ExtPowerAdd(x, a - 1, b);
      ProductAssociates(x, ExtPower(x, a - 1), ExtPower(x, b));
    }
  }

  /** (x * x)^k == x^(2k). */
  lemma {:induction false} ExtPowerOfSquare(x: ExtElem, k: nat)
    ensures ExtPower(Product(x, x), k) == ExtPower(x, 2 * k)
    decreases k
  {
    if k > 0 {
      ExtPowerOfSquare(x, k - 1);
      ProductAssociates(x, x, ExtPower(x, 2 * k - 2));
      assert ExtPower(x, 2 * k) == Product(x, Product(x, ExtPower(x, 2 * k - 2)));
    }
  }

  /** One iteration of the `pow` loop keeps tot * x^n fixed. */
  lemma PowLoopStep(tot: ExtElem, y: ExtElem, m: nat)
    requires m > 0
    ensures Product(if m % 2 == 1 then Product(tot, y) else tot, ExtPower(Product(y, y), m / 2))
            == Product(tot, ExtPower(y, m))
  {
    ExtPowerOfSquare(y, m / 2);
    if m % 2 == 1 {
      ProductAssociates(tot, y, ExtPower(y, m - 1));
      assert m - 1 == 2 * (m / 2);
    } else {
      assert m == 2 * (m / 2);
    }
  }

  /** `pow for ExtElem`: square-and-multiply; `tot` collects the factors for
      the odd bits of `n` while `y` runs through x, x^2, x^4, ... */
  method Pow(x: ExtElem, n: nat) returns (r: ExtElem)
    ensures r == ExtPower(x, n)
  {
    var m := n;
    var tot := ToArray(One);
    var y := ToArray(x);
    OneIsMultiplicativeIdentity(ExtPower(x, n));
    while m != 0
      invariant tot != y && tot.Length == EXT_SIZE && y.Length == EXT_SIZE
      invariant Product(tot[..], ExtPower(y[..], m)) == ExtPower(x, n)
      modifies tot, y
    {
      PowLoopStep(tot[..], y[..], m);
      if m % 2 == 1 {
        MulAssign(tot, y[..]);
      }
      m := m / 2;
      MulAssign(y, y[..]);
    }
    OneIsMultiplicativeIdentity(tot[..]);
    r := tot[..];
  }

  // ---------------------------------------------------------------------
  // Inversion

  /** b0 of the inversion routine: the constant coefficient of a times its
      conjugate. */
  function InvB0(a: ExtElem): F.Elem
  {
    F.Add(F.Mul(a[0], a[0]), F.Mul(BETA, F.Sub(F.Mul(a[1], F.Add(a[3], a[3])), F.Mul(a[2], a[2]))))
  }

  /** b2 of the inversion routine: the X^2 coefficient of a times its
      conjugate. */
  function InvB2(a: ExtElem): F.Elem
  {
    F.Add(F.Sub(F.Mul(a[0], F.Add(a[2], a[2])), F.Mul(a[1], a[1])), F.Mul(BETA, F.Mul(a[3], a[3])))
  }

  /** c = b0^2 + 11 b2^2, the base-field norm that is inverted. */
  function InvNorm(a: ExtElem): F.Elem
  {
    var b0, b2 := InvB0(a), InvB2(a);
    F.Add(F.Mul(b0, b0), F.Mul(F.Mul(BETA, b2), b2))
  }

  /** `inv for ExtElem`: the conjugate combination scaled by b0 / c and
      b2 / c. */
  function Inv(a: ExtElem): ExtElem
  {
    var ic := F.Inv(InvNorm(a));
    var b0 := F.Mul(InvB0(a), ic);
    var b2 := F.Mul(InvB2(a), ic);
    [F.Add(F.Mul(a[0], b0), F.Mul(F.Mul(BETA, a[2]), b2)),
     F.Add(F.Mul(F.Neg(a[1]), b0), F.Mul(F.Mul(NBETA, a[3]), b2)),
     F.Add(F.Mul(F.Neg(a[0]), b2), F.Mul(a[2], b0)),
     F.Sub(F.Mul(a[1], b2), F.Mul(a[3], b0))]
  }

  /** When the norm c is zero, `ic` is zero and so is the result. */
  lemma InverseOfZeroNorm(a: ExtElem)
    requires InvNorm(a) == 0
    ensures Inv(a) == Zero
  {
    assert F.Inv(InvNorm(a)) == 0;
    assert F.Mul(InvB0(a), 0) == 0 && F.Mul(InvB2(a), 0) == 0;
  }

  /** The inverse of zero is zero. */
  lemma InverseOfZero()
    ensures Inv(Zero) == Zero
  {
    assert InvB0(Zero) == 0 && InvB2(Zero) == 0;
    InverseOfZeroNorm(Zero);
  }

  lemma NegResidue(x: F.Elem)
    ensures F.Neg(x) == (-(x as int)) % P
  {
    ModOfMultiple(-(x as int), 1);
  }

  /** The result of `inv` is the conjugate combination of a with weights
      b0 * ic and b2 * ic, reduced. */
  lemma InvIsConjTimes(a: ExtElem)
    ensures Inv(a) == Canon(ConjTimes(a, F.Mul(InvB0(a), F.Inv(InvNorm(a))), F.Mul(InvB2(a), F.Inv(InvNorm(a)))))
  {
    var ic := F.Inv(InvNorm(a));
    var u, v := F.Mul(InvB0(a), ic), F.Mul(InvB2(a), ic);
    InvCoefficients(a, u, v);
  }

  /** The four output coefficients of `inv`, for weights u and v. */
  lemma InvCoefficients(a: ExtElem, u: F.Elem, v: F.Elem)
    ensures F.Add(F.Mul(a[0], u), F.Mul(F.Mul(BETA, a[2]), v)) == ConjTimes(a, u, v)[0] % P
    ensures F.Add(F.Mul(F.Neg(a[1]), u), F.Mul(F.Mul(NBETA, a[3]), v)) == ConjTimes(a, u, v)[1] % P
    ensures F.Add(F.Mul(F.Neg(a[0]), v), F.Mul(a[2], u)) == ConjTimes(a, u, v)[2] % P
    ensures F.Sub(F.Mul(a[1], v), F.Mul(a[3], u)) == ConjTimes(a, u, v)[3] % P
  {
    InvCoefficient0(a, u, v);
    InvCoefficient1(a, u, v);
    InvCoefficient2(a, u, v);
    var x: Quad := a;
    F.SubResidues(F.Mul(a[1], v), F.Mul(a[3], u), x[1] * v, x[3] * u);
  }

  lemma InvCoefficient0(a: ExtElem, u: F.Elem, v: F.Elem)
    ensures F.Add(F.Mul(a[0], u), F.Mul(F.Mul(BETA, a[2]), v)) == ConjTimes(a, u, v)[0] % P
  {
    var x: Quad := a;
    F.MulResidues(BETA, a[2], BETA_INT, x[2]);
    F.MulResidues(F.Mul(BETA, a[2]), v, BETA_INT * x[2], v);
    F.AddResidues(F.Mul(a[0], u), F.Mul(F.Mul(BETA, a[2]), v), x[0] * u, BETA_INT * x[2] * v);
  }

  lemma InvCoefficient1(a: ExtElem, u: F.Elem, v: F.Elem)
    ensures F.Add(F.Mul(F.Neg(a[1]), u), F.Mul(F.Mul(NBETA, a[3]), v)) == ConjTimes(a, u, v)[1] % P
  {
    var x: Quad := a;
    var w: int := a[3];
    NegResidue(a[1]);
    NbetaIsMinusBeta();
    F.MulResidues(NBETA, a[3], -BETA_INT, w);
    SumOfProducts(F.Neg(a[1]), u, F.Mul(NBETA, a[3]), v, -x[1], u, -BETA_INT * w, v);
    ConjTimesSecond(x, u, v);
  }

  lemma ConjTimesSecond(x: Quad, u: int, v: int)
    ensures ConjTimes(x, u, v)[1] == (-x[1]) * u + (-BETA_INT * x[3]) * v
  {
  }

  lemma InvCoefficient2(a: ExtElem, u: F.Elem, v: F.Elem)
    ensures F.Add(F.Mul(F.Neg(a[0]), v), F.Mul(a[2], u)) == ConjTimes(a, u, v)[2] % P
  {
    var x: Quad := a;
    NegResidue(a[0]);
    SumOfProducts(F.Neg(a[0]), v, a[2], u, -x[0], v, x[2], u);
  }

  /** Add(Mul(p, q), Mul(r, s)) only sees its operands modulo P. */
  lemma SumOfProducts(p: F.Elem, q: F.Elem, r: F.Elem, s: F.Elem, pi: int, qi: int, ri: int, si: int)
    requires p == pi % P && q == qi % P && r == ri % P && s == si % P
    ensures F.Add(F.Mul(p, q), F.Mul(r, s)) == (pi * qi + ri * si) % P
  {
    F.MulResidues(p, q, pi, qi);
    F.MulResidues(r, s, ri, si);
    F.AddResidues(F.Mul(p, q), F.Mul(r, s), pi * qi, ri * si);
  }

  lemma InvPartsAreResidues(a: ExtElem)
    ensures InvB0(a) == NormB0(a) % P
    ensures InvB2(a) == NormB2(a) % P
    ensures InvNorm(a) == (InvB0(a) * InvB0(a) + BETA_INT * InvB2(a) * InvB2(a)) % P
  {
    InvB0IsResidue(a);
    InvB2IsResidue(a);
    NormIsResidue(InvB0(a), InvB2(a));
  }

  lemma NormIsResidue(b0: F.Elem, b2: F.Elem)
    ensures F.Add(F.Mul(b0, b0), F.Mul(F.Mul(BETA, b2), b2)) == (b0 * b0 + BETA_INT * b2 * b2) % P
  {
    var x0: int, x2: int := b0, b2;
    F.MulResidues(BETA, b2, BETA_INT, x2);
    SumOfProducts(b0, b0, F.Mul(BETA, b2), b2, x0, x0, BETA_INT * x2, x2);
  }

  lemma InvB0IsResidue(a: ExtElem)
    ensures InvB0(a) == NormB0(a) % P
  {
    var x: Quad := a;
    var d3 := F.Add(a[3], a[3]);
    var m := F.Mul(a[1], d3);
    var sq := F.Mul(a[2], a[2]);
    F.AddResidues(a[3], a[3], x[3], x[3]);
    F.MulResidues(a[1], d3, x[1], x[3] + x[3]);
    F.SubResidues(m, sq, x[1] * (x[3] + x[3]), x[2] * x[2]);
    F.MulResidues(BETA, F.Sub(m, sq), BETA_INT, x[1] * (x[3] + x[3]) - x[2] * x[2]);
    F.AddResidues(F.Mul(a[0], a[0]), F.Mul(BETA, F.Sub(m, sq)),
                  x[0] * x[0], BETA_INT * (x[1] * (x[3] + x[3]) - x[2] * x[2]));
  }

  lemma InvB2IsResidue(a: ExtElem)
    ensures InvB2(a) == NormB2(a) % P
  {
    var x: Quad := a;
    var d2 := F.Add(a[2], a[2]);
    var m := F.Mul(a[0], d2);
    var sq := F.Mul(a[1], a[1]);
    F.AddResidues(a[2], a[2], x[2], x[2]);
    F.MulResidues(a[0], d2, x[0], x[2] + x[2]);
    F.SubResidues(m, sq, x[0] * (x[2] + x[2]), x[1] * x[1]);
    F.MulResidues(BETA, F.Mul(a[3], a[3]), BETA_INT, x[3] * x[3]);
    F.AddResidues(F.Sub(m, sq), F.Mul(BETA, F.Mul(a[3], a[3])),
                  x[0] * (x[2] + x[2]) - x[1] * x[1], BETA_INT * (x[3] * x[3]));
  }

  /** The arithmetic behind the inverse: with u == b0 ic, v == b2 ic and
      c ic == 1, the even coefficients of (conjugate combination) * a are
      1 and 0 modulo P. */
  lemma InverseCoefficients(b0: F.Elem, b2: F.Elem, ic: F.Elem, u: F.Elem, v: F.Elem, n0: int, n2: int, c: F.Elem)
    requires u == F.Mul(b0, ic) && v == F.Mul(b2, ic)
    requires b0 == n0 % P && b2 == n2 % P
    requires c == (b0 * b0 + BETA_INT * b2 * b2) % P && F.Mul(c, ic) == 1
    ensures Canon([u * n0 + BETA_INT * v * n2, 0, u * n2 - v * n0, 0]) == One
  {
    InverseArithmetic(b0, b2, ic, u, v, n0, n2, c);
    CanonOfOne([u * n0 + BETA_INT * v * n2, 0, u * n2 - v * n0, 0]);
  }

  lemma InverseArithmetic(b0: int, b2: int, ic: int, u: int, v: int, n0: int, n2: int, c: int)
    requires u % P == (b0 * ic) % P && v % P == (b2 * ic) % P
    requires n0 % P == b0 % P && n2 % P == b2 % P
    requires c % P == (b0 * b0 + BETA_INT * b2 * b2) % P && (c * ic) % P == 1
    ensures (u * n0 + BETA_INT * v * n2) % P == 1
    ensures (u * n2 - v * n0) % P == 0
  {
    MulCong(u, n0, b0 * ic, b0);
    MulCong(v, n2, b2 * ic, b2);
    MulCong(BETA_INT, v * n2, BETA_INT, b2 * ic * b2);
    assert BETA_INT * (v * n2) == BETA_INT * v * n2;
    AddCong(u * n0, BETA_INT * v * n2, b0 * ic * b0, BETA_INT * (b2 * ic * b2));
    assert b0 * ic * b0 + BETA_INT * (b2 * ic * b2) == (b0 * b0 + BETA_INT * b2 * b2) * ic;
    MulCong(b0 * b0 + BETA_INT * b2 * b2, ic, c, ic);
    MulCong(u, n2, b0 * ic, b2);
    MulCong(v, n0, b2 * ic, b0);
    SubCong(u * n2, v * n0, b0 * ic * b2, b2 * ic * b0);
    assert b0 * ic * b2 - b2 * ic * b0 == 0;
  }

  /** `inv(a) * a == ONE` whenever the base-field inverse of the norm c is
      its inverse (which Fermat's little theorem gives for every c != 0). */
  lemma InverseTimesSelf(a: ExtElem)
    requires F.Mul(InvNorm(a), F.Inv(InvNorm(a))) == 1
    ensures Product(Inv(a), a) == One
  {
    var c := InvNorm(a);
    var ic := F.Inv(c);
    var b0, b2 := InvB0(a), InvB2(a);
    var u, v := F.Mul(b0, ic), F.Mul(b2, ic);
    InvPartsAreResidues(a);
    InverseCoefficients(b0, b2, ic, u, v, NormB0(a), NormB2(a), c);
    InvIsConjTimes(a);
    ConjProduct(a, u, v);
  }


  lemma CanonOfOne(q: Quad)
    requires q[0] % P == 1 && q[1] % P == 0 && q[2] % P == 0 && q[3] % P == 0
    ensures Canon(q) == One
  {
  }

  /** The product of the reduced conjugate combination with a. */
  lemma ConjProduct(a: ExtElem, u: int, v: int)
    ensures Product(Canon(ConjTimes(a, u, v)), a)
      == Canon([u * NormB0(a) + BETA_INT * v * NormB2(a), 0, u * NormB2(a) - v * NormB0(a), 0])
  {
    MulCanonLeft(ConjTimes(a, u, v), a);
    ConjTimesProduct(a, u, v);
  }

  // ---------------------------------------------------------------------
  // Random elements

  /** `random for ExtElem`: four base-field draws in coefficient order. */
  method Random(draws: seq<F.U32>) returns (r: ExtElem, rest: seq<F.U32>)
    requires |F.Accepted(draws)| >= EXT_SIZE
    ensures r == F.Accepted(draws)[..EXT_SIZE]
    ensures F.Accepted(rest) == F.Accepted(draws)[EXT_SIZE..]
    ensures |rest| < |draws| && rest == draws[|draws| - |rest|..]
    ensures draws[|draws| - |rest| - 1] < F.REJECT_CUTOFF
  {
    var e0, d1 := F.Random(draws);
    var e1, d2 := F.Random(d1);
    var e2, d3 := F.Random(d2);
    var e3, d4 := F.Random(d3);
    r := [e0, e1, e2, e3];
    rest := d4;
    SuffixOfSuffix(draws, d1, d2);
    SuffixOfSuffix(draws, d2, d3);
    SuffixOfSuffix(draws, d3, d4);
    assert d3[|d3| - |d4| - 1] == draws[|draws| - |d4| - 1];
  }

  lemma SuffixOfSuffix<T>(a: seq<T>, b: seq<T>, c: seq<T>)
    requires |b| <= |a| && b == a[|a| - |b|..]
    requires |c| <= |b| && c == b[|b| - |c|..]
    ensures |c| <= |a| && c == a[|a| - |c|..]
  {
  }
}
