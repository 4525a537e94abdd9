/** Polynomials of degree below 4 over the integers, multiplied modulo
    X^4 + 11 (so that X^4 is replaced by -11). This is the integer ring the
    extension field is a quotient of: an extension element is the vector of
    canonical residues of such a polynomial, and every identity proved here
    carries over to it by reducing modulo P. */
module Quartic {

  /** Coefficients of 1, X, X^2, X^3. */
  type Quad = s: seq<int> | |s| == 4 witness [0, 0, 0, 0]

  /** The reduction constant: X^4 == -BETA_INT. */
  const BETA_INT: int := 11

  function QAdd(x: Quad, y: Quad): Quad
  {
    [x[0] + y[0], x[1] + y[1], x[2] + y[2], x[3] + y[3]]
  }

  function QSub(x: Quad, y: Quad): Quad
  {
    [x[0] - y[0], x[1] - y[1], x[2] - y[2], x[3] - y[3]]
  }

  /** Multiplication by an integer constant. */
  function QScale(s: int, x: Quad): Quad
  {
    [s * x[0], s * x[1], s * x[2], s * x[3]]
  }

  /** Multiplication by X: every coefficient moves up one place and the
      coefficient of X^3 wraps round to the constant term as X^4 == -11. */
  function Shift(x: Quad): Quad
  {
    [-BETA_INT * x[3], x[0], x[1], x[2]]
  }

  /** The sum of x[i] * y[k - i] over i >= from: coefficient k of the
      schoolbook product when from == 0. */
  function ConvFrom(x: Quad, y: Quad, k: nat, from: nat): int
    decreases 4 - from
  {
    if from >= 4 then 0
    else (if from <= k < from + 4 then x[from] * y[k - from] else 0) + ConvFrom(x, y, k, from + 1)
  }

  /** The unreduced product: seven coefficients, of X^0 to X^6. */
  function Schoolbook(x: Quad, y: Quad): (c: seq<int>)
    ensures |c| == 7
  {
    seq(7, k requires 0 <= k < 7 => ConvFrom(x, y, k, 0))
  }

  /** Reduction modulo X^4 + 11: the coefficient of X^(k+4) is folded onto
      X^k with factor -11. */
  function Reduce(c: seq<int>): Quad
    requires |c| == 7
  {
    [c[0] - BETA_INT * c[4], c[1] - BETA_INT * c[5], c[2] - BETA_INT * c[6], c[3]]
  }


  /** The four bilinear forms of the reduced product. */
  function Form0(x: Quad, y: Quad): int
  {
    x[0] * y[0] - BETA_INT * (x[1] * y[3] + x[2] * y[2] + x[3] * y[1])
  }

  function Form1(x: Quad, y: Quad): int
  {
    x[0] * y[1] + x[1] * y[0] - BETA_INT * (x[2] * y[3] + x[3] * y[2])
  }

  function Form2(x: Quad, y: Quad): int
  {
    x[0] * y[2] + x[1] * y[1] + x[2] * y[0] - BETA_INT * (x[3] * y[3])
  }

  function Form3(x: Quad, y: Quad): int
  {
    x[0] * y[3] + x[1] * y[2] + x[2] * y[1] + x[3] * y[0]
  }

  /** Multiplication in Z[X]/(X^4 + 11), written as the four bilinear forms
      that the multiplication routine hand-writes. */
  function QMul(x: Quad, y: Quad): Quad
  {
    [Form0(x, y), Form1(x, y), Form2(x, y), Form3(x, y)]
  }

  /** The four forms are the schoolbook product reduced modulo X^4 + 11. */
  lemma MulIsReducedSchoolbook(x: Quad, y: Quad)
    ensures QMul(x, y) == Reduce(Schoolbook(x, y))
  {
    var c := Schoolbook(x, y);
    assert c[0] == x[0] * y[0] by { Unfold(x, y, 0); }
    assert c[1] == x[0] * y[1] + x[1] * y[0] by { Unfold(x, y, 1); }
    assert c[2] == x[0] * y[2] + x[1] * y[1] + x[2] * y[0] by { Unfold(x, y, 2); }
    assert c[3] == x[0] * y[3] + x[1] * y[2] + x[2] * y[1] + x[3] * y[0] by { Unfold(x, y, 3); }
    assert c[4] == x[1] * y[3] + x[2] * y[2] + x[3] * y[1] by { Unfold(x, y, 4); }
    assert c[5] == x[2] * y[3] + x[3] * y[2] by { Unfold(x, y, 5); }
    assert c[6] == x[3] * y[3] by { Unfold(x, y, 6); }
  }

  /** ConvFrom(x, y, k, 0) as an explicit sum of its four terms. */
  lemma Unfold(x: Quad, y: Quad, k: nat)
    requires k < 7
    ensures ConvFrom(x, y, k, 0) ==
      (if k < 4 then x[0] * y[k] else 0) +
      (if 1 <= k < 5 then x[1] * y[k - 1] else 0) +
      (if 2 <= k < 6 then x[2] * y[k - 2] else 0) +
      (if 3 <= k then x[3] * y[k - 3] else 0)
  {
    assert ConvFrom(x, y, k, 4) == 0;
    assert ConvFrom(x, y, k, 3) == (if 3 <= k then x[3] * y[k - 3] else 0);
  }

  const QOne: Quad := [1, 0, 0, 0]

  lemma MulCommutes(x: Quad, y: Quad)
    ensures QMul(x, y) == QMul(y, x)
  {
  }

  lemma OneIsIdentity(x: Quad)
    ensures QMul(QOne, x) == x
    ensures QMul(x, QOne) == x
  {
  }

  /** Multiplying by a constant polynomial s is scaling by s. */
  lemma ConstantTimes(s: int, x: Quad)
    ensures QMul([s, 0, 0, 0], x) == QScale(s, x)
  {
  }

  /** Multiplication is additive in its left operand. */
  lemma MulAddLeft(u: Quad, v: Quad, c: Quad)
    ensures QMul(QAdd(u, v), c) == QAdd(QMul(u, c), QMul(v, c))
  {
    FormsAddLeft(u, v, c);
  }

  lemma FormsAddLeft(u: Quad, v: Quad, c: Quad)
    ensures Form0(QAdd(u, v), c) == Form0(u, c) + Form0(v, c)
    ensures Form1(QAdd(u, v), c) == Form1(u, c) + Form1(v, c)
    ensures Form2(QAdd(u, v), c) == Form2(u, c) + Form2(v, c)
    ensures Form3(QAdd(u, v), c) == Form3(u, c) + Form3(v, c)
  {
  }

  /** Multiplication commutes with scaling of its left operand. */
  lemma MulScaleLeft(s: int, u: Quad, c: Quad)
    ensures QMul(QScale(s, u), c) == QScale(s, QMul(u, c))
  {
    FormsScaleLeft(s, u, c);
  }

  lemma FormsScaleLeft(s: int, u: Quad, c: Quad)
    ensures Form0(QScale(s, u), c) == s * Form0(u, c)
    ensures Form1(QScale(s, u), c) == s * Form1(u, c)
    ensures Form2(QScale(s, u), c) == s * Form2(u, c)
    ensures Form3(QScale(s, u), c) == s * Form3(u, c)
  {
    ScaleLeft0(s, u, c);
    ScaleLeft1(s, u, c);
    ScaleLeft2(s, u, c);
    ScaleLeft3(s, u, c);
  }

  lemma ScaleLeft0(s: int, u: Quad, c: Quad)
    ensures Form0(QScale(s, u), c) == s * Form0(u, c)
  {
  }

  lemma ScaleLeft1(s: int, u: Quad, c: Quad)
    ensures Form1(QScale(s, u), c) == s * Form1(u, c)
  {
  }

  lemma ScaleLeft2(s: int, u: Quad, c: Quad)
    ensures Form2(QScale(s, u), c) == s * Form2(u, c)
  {
  }

  lemma ScaleLeft3(s: int, u: Quad, c: Quad)
    ensures Form3(QScale(s, u), c) == s * Form3(u, c)
  {
  }

  /** Multiplying by X first, or afterwards, gives the same product. */
  lemma MulShiftLeft(u: Quad, c: Quad)
    ensures QMul(Shift(u), c) == Shift(QMul(u, c))
  {
    FormsShiftLeft(u, c);
  }

  lemma FormsShiftLeft(u: Quad, c: Quad)
    ensures Form0(Shift(u), c) == -BETA_INT * Form3(u, c)
    ensures Form1(Shift(u), c) == Form0(u, c)
    ensures Form2(Shift(u), c) == Form1(u, c)
    ensures Form3(Shift(u), c) == Form2(u, c)
  {
  }

  /** Left multiplication by a = a0 + a1 X + a2 X^2 + a3 X^3, as the sum of
      the scaled shifts of the right operand. */
  function Expand(a: Quad, b: Quad): Quad
  {
    QAdd(QAdd(QScale(a[0], b), QScale(a[1], Shift(b))),
         QAdd(QScale(a[2], Shift(Shift(b))), QScale(a[3], Shift(Shift(Shift(b))))))
  }

  lemma MulIsExpand(a: Quad, b: Quad)
    ensures QMul(a, b) == Expand(a, b)
  {
    var e := Expand(a, b);
    var s1, s2, s3 := Shift(b), Shift(Shift(b)), Shift(Shift(Shift(b)));
    assert s2 == [-BETA_INT * b[2], -BETA_INT * b[3], b[0], b[1]];
    assert s3 == [-BETA_INT * b[1], -BETA_INT * b[2], -BETA_INT * b[3], b[0]];
    assert e[0] == a[0] * b[0] + a[1] * (-BETA_INT * b[3]) + a[2] * (-BETA_INT * b[2]) + a[3] * (-BETA_INT * b[1]);
    assert e[1] == a[0] * b[1] + a[1] * b[0] + a[2] * (-BETA_INT * b[3]) + a[3] * (-BETA_INT * b[2]);
    assert e[2] == a[0] * b[2] + a[1] * b[1] + a[2] * b[0] + a[3] * (-BETA_INT * b[3]);
    assert e[3] == a[0] * b[3] + a[1] * b[2] + a[2] * b[1] + a[3] * b[0];
    ExpandForms(a[0], a[1], a[2], a[3], b[0], b[1], b[2], b[3]);
  }

  /** MulIsExpand on plain integers, where the products are easy to match. */
  lemma ExpandForms(a0: int, a1: int, a2: int, a3: int, b0: int, b1: int, b2: int, b3: int)
    ensures a0 * b0 + a1 * (-BETA_INT * b3) + a2 * (-BETA_INT * b2) + a3 * (-BETA_INT * b1)
         == a0 * b0 - BETA_INT * (a1 * b3 + a2 * b2 + a3 * b1)
    ensures a0 * b1 + a1 * b0 + a2 * (-BETA_INT * b3) + a3 * (-BETA_INT * b2)
         == a0 * b1 + a1 * b0 - BETA_INT * (a2 * b3 + a3 * b2)
    ensures a0 * b2 + a1 * b1 + a2 * b0 + a3 * (-BETA_INT * b3)
         == a0 * b2 + a1 * b1 + a2 * b0 - BETA_INT * (a3 * b3)
  {
  }

  /** Multiplying the expansion of a * b by c on the right is the expansion
      of a * (b * c). */
  lemma ExpandTimes(a: Quad, b: Quad, c: Quad)
    ensures QMul(Expand(a, b), c) == Expand(a, QMul(b, c))
  {
    var s1, s2, s3 := Shift(b), Shift(Shift(b)), Shift(Shift(Shift(b)));
    var bc := QMul(b, c);
    MulShiftLeft(b, c);
    MulShiftLeft(s1, c);
    MulShiftLeft(s2, c);
    var t0, t1, t2, t3 := QScale(a[0], b), QScale(a[1], s1), QScale(a[2], s2), QScale(a[3], s3);
    MulAddLeft(QAdd(t0, t1), QAdd(t2, t3), c);
    MulAddLeft(t0, t1, c);
    MulAddLeft(t2, t3, c);
    MulScaleLeft(a[0], b, c);
    MulScaleLeft(a[1], s1, c);
    MulScaleLeft(a[2], s2, c);
    MulScaleLeft(a[3], s3, c);
  }

  lemma MulAssociates(a: Quad, b: Quad, c: Quad)
    ensures QMul(QMul(a, b), c) == QMul(a, QMul(b, c))
  {
    MulIsExpand(a, b);
    ExpandTimes(a, b, c);
    MulIsExpand(a, QMul(b, c));
  }

  lemma MulDistributes(a: Quad, b: Quad, c: Quad)
    ensures QMul(a, QAdd(b, c)) == QAdd(QMul(a, b), QMul(a, c))
  {
    MulCommutes(a, QAdd(b, c));
    MulAddLeft(b, c, a);
    MulCommutes(b, a);
    MulCommutes(c, a);
  }

  /** The conjugate used for inversion, times u, plus the conjugate shifted
      by two places, times v. */
  function ConjTimes(a: Quad, u: int, v: int): Quad
  {
    [a[0] * u + BETA_INT * a[2] * v, -a[1] * u - BETA_INT * a[3] * v, -a[0] * v + a[2] * u, a[1] * v - a[3] * u]
  }

  /** The quantities b0 and b2 of the inversion routine, over the integers. */
  function NormB0(a: Quad): int
  {
    a[0] * a[0] + 11 * (a[1] * (a[3] + a[3]) - a[2] * a[2])
  }

  function NormB2(a: Quad): int
  {
    a[0] * (a[2] + a[2]) - a[1] * a[1] + 11 * (a[3] * a[3])
  }

  /** a(-X), the conjugate that negates the odd coefficients. */
  function Conj(a: Quad): Quad
  {
    [a[0], -a[1], a[2], -a[3]]
  }

  /** The conjugate times -X^2. */
  function ConjShifted(a: Quad): Quad
  {
    [BETA_INT * a[2], -BETA_INT * a[3], -a[0], a[1]]
  }

  lemma ConjTimesSplit(a: Quad, u: int, v: int)
    ensures ConjTimes(a, u, v) == QAdd(QScale(u, Conj(a)), QScale(v, ConjShifted(a)))
  {
    SplitTerms(a[0], a[1], a[2], a[3], u, v);
  }

  lemma SplitTerms(a0: int, a1: int, a2: int, a3: int, u: int, v: int)
    ensures a0 * u + BETA_INT * a2 * v == u * a0 + v * (BETA_INT * a2)
    ensures -a1 * u - BETA_INT * a3 * v == u * -a1 + v * (-BETA_INT * a3)
    ensures -a0 * v + a2 * u == u * a2 + v * -a0
    ensures a1 * v - a3 * u == u * -a3 + v * a1
  {
  }

  /** a times its conjugate has only even coefficients, b0 and b2. */
  lemma NormOfConj(a: Quad)
    ensures QMul(Conj(a), a) == [NormB0(a), 0, NormB2(a), 0]
  {
    NormForms(a[0], a[1], a[2], a[3]);
  }

  lemma NormForms(a0: int, a1: int, a2: int, a3: int)
    ensures a0 * a0 - 11 * ((-a1) * a3 + a2 * a2 + (-a3) * a1) == a0 * a0 + 11 * (a1 * (a3 + a3) - a2 * a2)
    ensures a0 * a1 + (-a1) * a0 - 11 * (a2 * a3 + (-a3) * a2) == 0
    ensures a0 * a2 + (-a1) * a1 + a2 * a0 - 11 * ((-a3) * a3) == a0 * (a2 + a2) - a1 * a1 + 11 * (a3 * a3)
    ensures a0 * a3 + (-a1) * a2 + a2 * a1 + (-a3) * a0 == 0
  {
  }

  lemma NormOfConjShifted(a: Quad)
    ensures QMul(ConjShifted(a), a) == [BETA_INT * NormB2(a), 0, -NormB0(a), 0]
  {
    ShiftedNormForms(a[0], a[1], a[2], a[3]);
  }

  lemma ShiftedNormForms(a0: int, a1: int, a2: int, a3: int)
    ensures (11 * a2) * a0 - 11 * ((-11 * a3) * a3 + (-a0) * a2 + a1 * a1)
         == 11 * (a0 * (a2 + a2) - a1 * a1 + 11 * (a3 * a3))
    ensures (11 * a2) * a1 + (-11 * a3) * a0 - 11 * ((-a0) * a3 + a1 * a2) == 0
    ensures (11 * a2) * a2 + (-11 * a3) * a1 + (-a0) * a0 - 11 * (a1 * a3)
         == -(a0 * a0 + 11 * (a1 * (a3 + a3) - a2 * a2))
    ensures (11 * a2) * a3 + (-11 * a3) * a2 + (-a0) * a1 + a1 * a0 == 0
  {
  }

  /** Multiplying a by the conjugate combination kills the odd coefficients
      and leaves combinations of b0 and b2 in the even ones. */
  lemma ConjTimesProduct(a: Quad, u: int, v: int)
    ensures QMul(ConjTimes(a, u, v), a)
      == [u * NormB0(a) + BETA_INT * v * NormB2(a), 0, u * NormB2(a) - v * NormB0(a), 0]
  {
    ConjTimesSplit(a, u, v);
    NormOfConj(a);
    NormOfConjShifted(a);
    MulAddLeft(QScale(u, Conj(a)), QScale(v, ConjShifted(a)), a);
    MulScaleLeft(u, Conj(a), a);
    MulScaleLeft(v, ConjShifted(a), a);
    ScaleTerms(v, NormB0(a), NormB2(a));
  }

  lemma ScaleTerms(v: int, b0: int, b2: int)
    ensures v * (BETA_INT * b2) == BETA_INT * v * b2
    ensures v * -b0 == -(v * b0)
  {
  }
}
