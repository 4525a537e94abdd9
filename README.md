# BabyBear field arithmetic

A Dafny model of the BabyBear finite field of the RISC Zero proof system
(`risc0/zkp/rust/src/field/baby_bear.rs`), with proofs about it.

- **`ModP`** (`mod_p.dfy`): integer facts about the prime
  P = 15 · 2^27 + 1 = 2013265921 and about exponentiation.
- **`BabyBear`** (`baby_bear.dfy`): the base field `Elem`, a 32-bit word
  kept strictly below P. The module covers:
  - construction from `u32` and `u64`;
  - the `add`, `sub` and `mul` helpers, with their 32-bit wrap-around and
    64-bit widening written out explicitly;
  - `neg`, `pow` (a square-and-multiply loop) and `inv` (`x^(P-2)`);
  - rejection sampling, over an explicit sequence of raw draws.
- **`Quartic`** (`quartic.dfy`): integer polynomials of degree below 4,
  multiplied modulo X^4 + 11. The ring laws (commutativity,
  associativity, distributivity, identity) are proved here. So is the
  conjugate identity behind inversion.
- **`BabyBearExt`** (`ext_elem.dfy`): the degree-4 extension `ExtElem`, a
  sequence of four canonical coefficients.
  - The assign operators (`+=`, `-=`, `*= Elem`, `*=`) are methods that
    update a four-element `array` in place.
  - The value operators copy their left operand into a fresh array and
    call the assign operator, as the implementation does.
  - Every operation is proved equal to a specification function: the
    canonical residues of the `Quartic` operation.
  - The ring laws carry over to those specification functions, and so does
    the embedding of the base field.
- **`RootsOfUnity`** (`roots_of_unity.dfy`): the constants `MAX_ROU_PO2`,
  `ROU_FWD` and `ROU_REV`. Each table is proved to be a squaring chain from
  1 and −1. So entry i has order exactly 2^i, and the reverse entry is
  `inv` of the forward entry.

The reduction polynomial follows the code rather than its comments. The
comments on `ExtElem` (baby_bear.rs:210-217) and on its multiplication
(baby_bear.rs:409-411) call the ring `F_p[X]/(X^4 - 11)`. But both the
multiplication (baby_bear.rs:421-423) and the inversion (baby_bear.rs:287)
fold X^4 onto `NBETA = P - 11`, that is onto −11, so the ring the code
computes in is `F_p[X]/(X^4 + 11)`. The model computes what the code does,
and `BabyBearExt.XToTheFourth` states it. The inversion formula is
consistent with X^4 + 11: `BabyBearExt.InverseTimesSelf` proves it
correct for that ring.

The helpers `add` and `sub` take raw `u32` values, but they are only
reached through `Elem`, whose value is always below P. The model states
that invariant as their precondition.

## Model

| member | source | states |
|---|---|---|
| `ModP.P` | risc0/zkp/rust/src/field/baby_bear.rs:53 | the modulus 15 · 2^27 + 1; `RootsOfUnity.TwoAdicity` proves P − 1 is 15 · 2^27 with 15 odd |
| `BabyBear.ZERO` | risc0/zkp/rust/src/field/baby_bear.rs:58 | `Elem::new(0)`; `BabyBear.Neg` proves a + (−a) == ZERO |
| `BabyBear.ONE` | risc0/zkp/rust/src/field/baby_bear.rs:60 | `Elem::new(1)`; `BabyBear.Pow` returns it for n == 0, and `BabyBear.InverseByFermat` is stated against it |
| `BabyBear.New` | risc0/zkp/rust/src/field/baby_bear.rs:112-114 | `Elem::new(x)` is canonical (below P), congruent to x, and equal to x when x is already below P |
| `BabyBear.FromU32` | risc0/zkp/rust/src/field/baby_bear.rs:181-185 | `From<u32>` is canonical, congruent to its input, and agrees with `From<u64>` on every 32-bit input |
| `BabyBear.FromU64` | risc0/zkp/rust/src/field/baby_bear.rs:187-191 | reducing in 64 bits and truncating to 32 bits loses nothing: the result is the canonical residue of the 64-bit input |
| `BabyBear.ConversionRoundTrip` | risc0/zkp/rust/src/field/baby_bear.rs:163-191 | converting an element to `u32` or `u64` and back gives the same element |
| `BabyBear.ToU32` | risc0/zkp/rust/src/field/baby_bear.rs:163-173 | reading the word out of an element; `BabyBear.ConversionRoundTrip` proves `From<u32>` gives the element back |
| `BabyBear.ToU64` | risc0/zkp/rust/src/field/baby_bear.rs:175-179 | widening the word to 64 bits; `BabyBear.ConversionRoundTrip` proves `From<u64>` gives the element back |
| `BabyBear.Add` | risc0/zkp/rust/src/field/baby_bear.rs:193-196 | for canonical operands the 32-bit sum cannot overflow, and one conditional subtraction gives (lhs + rhs) mod P, below P |
| `BabyBear.Sub` | risc0/zkp/rust/src/field/baby_bear.rs:198-201 | the wrapping subtraction followed by a wrapping add of P gives (lhs − rhs) mod P, below P, which is also (lhs + (P − rhs)) mod P |
| `BabyBear.SubWraps` | risc0/zkp/rust/src/field/baby_bear.rs:198-201 | `sub` has two cases. When lhs ≥ rhs nothing wraps and the difference is below P. Otherwise the wrapped difference is above P, and adding P wraps back to lhs − rhs + P |
| `BabyBear.Mul` | risc0/zkp/rust/src/field/baby_bear.rs:203-205 | widening to 64 bits, reducing and narrowing gives (lhs · rhs) mod P, below P |
| `BabyBear.ProductFitsU64` | risc0/zkp/rust/src/field/baby_bear.rs:204 | the product of two 32-bit words never overflows the 64-bit multiplication |
| `BabyBear.AddResidues` | risc0/zkp/rust/src/field/baby_bear.rs:117-122 | `+` on elements congruent to u and v gives the canonical residue of u + v |
| `BabyBear.SubResidues` | risc0/zkp/rust/src/field/baby_bear.rs:198-201 | `-` on elements congruent to u and v gives the canonical residue of u − v |
| `BabyBear.MulResidues` | risc0/zkp/rust/src/field/baby_bear.rs:203-205 | `*` on elements congruent to u and v gives the canonical residue of u · v |
| `BabyBear.AgreesWithNative` | risc0/zkp/rust/src/field/baby_bear.rs:525-529 | for all canonical a and b, the field `+`, `-` and `*` equal `Elem::from` of the native 64-bit a + b, a + (P − b) and a · b, and a · b fits in 64 bits |
| `BabyBear.Neg` | risc0/zkp/rust/src/field/baby_bear.rs:156-161 | `0 - a` is the additive inverse: a + (−a) == 0, and −a == (P − a) mod P |
| `BabyBear.Pow` | risc0/zkp/rust/src/field/baby_bear.rs:243-255 | the square-and-multiply loop returns x^n mod P, and ONE for n == 0. The loop invariant is tot · y^m ≡ x^n |
| `BabyBear.PowLoopStep` | risc0/zkp/rust/src/field/baby_bear.rs:247-253 | one iteration of the loop (multiply `tot` on an odd bit, halve `n`, square `x`) keeps tot · x^n fixed modulo P |
| `BabyBear.Inv` | risc0/zkp/rust/src/field/baby_bear.rs:62-71 | `inv` maps zero to zero |
| `BabyBear.InverseByFermat` | risc0/zkp/rust/src/field/baby_bear.rs:62-71 | whenever x^(P−1) ≡ 1 (Fermat's little theorem), inv(x) · x == 1 |
| `BabyBear.InverseIsUnique` | risc0/zkp/rust/src/field/baby_bear.rs:62-71 | a left inverse and a right inverse of the same element are equal, so `inv` is the only inverse |
| `BabyBear.SquaringsArePowers` | risc0/zkp/rust/src/field/baby_bear.rs:247-253 | k successive field squarings of x give x^(2^k) mod P |
| `BabyBear.PowOfFive` | risc0/zkp/rust/src/field/baby_bear.rs:509-513 | 5^0, 5^1, 5^2 and 5^1000 modulo P are 1, 5, 25 and 589699054 |
| `BabyBear.FermatAtFive` | risc0/zkp/rust/src/field/baby_bear.rs:515 | 5^(P−1) ≡ 1 modulo P |
| `BabyBear.InvOfFive` | risc0/zkp/rust/src/field/baby_bear.rs:503 | inv(5) · 5 == 1, and inv(5) == 1610612737 (the same fact as 5^(P−2) · 5 == 1, baby_bear.rs:514) |
| `BabyBear.RejectionIsUniform` | risc0/zkp/rust/src/field/baby_bear.rs:74-76 | `REJECT_CUTOFF` is 2P, and below it every residue r has exactly the two preimages r and r + P |
| `BabyBear.REJECT_CUTOFF` | risc0/zkp/rust/src/field/baby_bear.rs:76 | `(u32::MAX / P) * P`; `BabyBear.RejectionIsUniform` proves it is 2P and that it makes every residue equally likely |
| `BabyBear.Accepted` | risc0/zkp/rust/src/field/baby_bear.rs:77-82 | the draws that pass the rejection test yield at most one element each |
| `BabyBear.Random` | risc0/zkp/rust/src/field/baby_bear.rs:73-83 | the re-drawing loop returns the reduction of the first draw below the cut-off. It consumes exactly the draws up to that one: every draw before it is at or above the cut-off, `rest` is the suffix after it, and the elements still to come are the rest of the accepted sequence |
| `Quartic.MulIsReducedSchoolbook` | risc0/zkp/rust/src/field/baby_bear.rs:409-427 | the four hand-written bilinear forms are the schoolbook product with the coefficients of X^4..X^6 folded back with factor −11 |
| `Quartic.MulCommutes` | risc0/zkp/rust/src/field/baby_bear.rs:485 | the reduced polynomial product commutes |
| `Quartic.OneIsIdentity` | risc0/zkp/rust/src/field/baby_bear.rs:335-337 | the polynomial 1 is a two-sided identity |
| `Quartic.ConstantTimes` | risc0/zkp/rust/src/field/baby_bear.rs:385-400 | multiplying by a constant polynomial scales every coefficient |
| `Quartic.MulAddLeft` | risc0/zkp/rust/src/field/baby_bear.rs:490 | the product is additive in its left operand |
| `Quartic.MulScaleLeft` | risc0/zkp/rust/src/field/baby_bear.rs:490 | scaling the left operand scales the product |
| `Quartic.MulShiftLeft` | risc0/zkp/rust/src/field/baby_bear.rs:409-414 | multiplying by X before or after the product gives the same result (X · X^3 == −11) |
| `Quartic.MulIsExpand` | risc0/zkp/rust/src/field/baby_bear.rs:409-427 | a · b is a0·b + a1·(X·b) + a2·(X²·b) + a3·(X³·b) |
| `Quartic.ExpandTimes` | risc0/zkp/rust/src/field/baby_bear.rs:488 | that expansion of a · b, times c, is the expansion of a · (b · c) |
| `Quartic.MulAssociates` | risc0/zkp/rust/src/field/baby_bear.rs:488 | the reduced polynomial product is associative |
| `Quartic.MulDistributes` | risc0/zkp/rust/src/field/baby_bear.rs:490 | the product distributes over addition |
| `Quartic.ConjTimesSplit` | risc0/zkp/rust/src/field/baby_bear.rs:285-290 | the four outputs of `inv` are u times the conjugate a(−X) plus v times the conjugate times −X² |
| `Quartic.NormOfConj` | risc0/zkp/rust/src/field/baby_bear.rs:260-269 | a(−X) · a(X) has zero odd coefficients, and its even coefficients are exactly the b0 and b2 of `inv` |
| `Quartic.NormOfConjShifted` | risc0/zkp/rust/src/field/baby_bear.rs:270-273 | (−X² · a(−X)) · a(X) is 11·b2 − b0·X² |
| `Quartic.ConjTimesProduct` | risc0/zkp/rust/src/field/baby_bear.rs:270-290 | the combination of `inv`, times a, is u·b0 + 11·v·b2 plus (u·b2 − v·b0)·X² |
| `BabyBearExt.EXT_SIZE` | risc0/zkp/rust/src/field/baby_bear.rs:208 | 4, the number of coefficients; every `ExtElem` and coefficient array has this length |
| `BabyBearExt.BETA` | risc0/zkp/rust/src/field/baby_bear.rs:310 | `Elem::new(11)`, used by `inv`; `BabyBearExt.InvPartsAreResidues` proves b0, b2 and c are the integer formulas with factor 11 |
| `BabyBearExt.NBETA` | risc0/zkp/rust/src/field/baby_bear.rs:311 | `Elem::new(P - 11)`, the folding constant of the multiplication; `BabyBearExt.NbetaIsMinusBeta` proves it is −11 mod P and `BabyBearExt.XToTheFourth` that X^4 == NBETA |
| `BabyBearExt.Zero` | risc0/zkp/rust/src/field/baby_bear.rs:229 | `ExtElem::ZERO`; `BabyBearExt.ConstructorsAgree` proves it is `from_u32(0)` and `BabyBearExt.ZeroIsAdditiveIdentity` that it is the additive identity |
| `BabyBearExt.One` | risc0/zkp/rust/src/field/baby_bear.rs:230 | `ExtElem::ONE`; `BabyBearExt.ConstructorsAgree` proves it is `from_u32(1)` and `BabyBearExt.OneIsMultiplicativeIdentity` that it is the multiplicative identity |
| `BabyBearExt.ConstructorsAgree` | risc0/zkp/rust/src/field/baby_bear.rs:315-342 | `from_u32`, `From<u32>` and `from_fp ∘ new` agree. `const_part` recovers the embedded element, and `from_u32(0)` and `from_u32(1)` are ZERO and ONE |
| `BabyBearExt.New` | risc0/zkp/rust/src/field/baby_bear.rs:314-317 | the element with the four given coefficients; `BabyBearExt.ConstructorsAgree` relates it to `from_fp` |
| `BabyBearExt.FromFp` | risc0/zkp/rust/src/field/baby_bear.rs:319-322 | the embedding of `Elem` (also `from_subfield`, baby_bear.rs:299-301, and `From<Elem>`, baby_bear.rs:451-455); it respects addition and multiplication (`BabyBearExt.FromFpAdds`, `BabyBearExt.FromFpMultiplies`) and powers (`BabyBearExt.ExtPowerOfFromFp`) |
| `BabyBearExt.FromU32` | risc0/zkp/rust/src/field/baby_bear.rs:324-337 | `from_u32` through `Elem::new`; `BabyBearExt.ConstructorsAgree` proves it is the embedding of `Elem::new(x)` and gives ZERO and ONE for 0 and 1 |
| `BabyBearExt.FromU32Value` | risc0/zkp/rust/src/field/baby_bear.rs:445-449 | `From<u32>` through `Elem::from`; `BabyBearExt.ConstructorsAgree` proves it equals `from_u32` |
| `BabyBearExt.ConstPart` | risc0/zkp/rust/src/field/baby_bear.rs:339-342 | the constant coefficient; `BabyBearExt.ConstructorsAgree` proves it recovers an embedded element |
| `BabyBearExt.CanonOfCanonical` | risc0/zkp/rust/src/field/baby_bear.rs:220 | reducing an `ExtElem` modulo P leaves it unchanged: its coefficients are canonical |
| `BabyBearExt.MulCanonLeft` | risc0/zkp/rust/src/field/baby_bear.rs:415-427 | reducing the left factor modulo P first does not change the reduced product |
| `BabyBearExt.MulCanonRight` | risc0/zkp/rust/src/field/baby_bear.rs:415-427 | reducing the right factor modulo P first does not change the reduced product |
| `BabyBearExt.AddCanon` | risc0/zkp/rust/src/field/baby_bear.rs:359-365 | reducing the summands first does not change the reduced sum |
| `BabyBearExt.SumCommutes` | risc0/zkp/rust/src/field/baby_bear.rs:484 | a + b == b + a |
| `BabyBearExt.SumAssociates` | risc0/zkp/rust/src/field/baby_bear.rs:487 | a + (b + c) == (a + b) + c |
| `BabyBearExt.ZeroIsAdditiveIdentity` | risc0/zkp/rust/src/field/baby_bear.rs:330-332 | a + ZERO == a |
| `BabyBearExt.NegIsAdditiveInverse` | risc0/zkp/rust/src/field/baby_bear.rs:495-496 | a + (ZERO − a) == ZERO |
| `BabyBearExt.SumUndoesDiff` | risc0/zkp/rust/src/field/baby_bear.rs:367-382 | (a − b) + b == a |
| `BabyBearExt.ProductCommutes` | risc0/zkp/rust/src/field/baby_bear.rs:485 | a · b == b · a |
| `BabyBearExt.ProductAssociates` | risc0/zkp/rust/src/field/baby_bear.rs:488 | a · (b · c) == (a · b) · c |
| `BabyBearExt.ProductDistributes` | risc0/zkp/rust/src/field/baby_bear.rs:490 | a · (b + c) == a · b + a · c |
| `BabyBearExt.OneIsMultiplicativeIdentity` | risc0/zkp/rust/src/field/baby_bear.rs:335-337 | ONE · a == a == a · ONE |
| `BabyBearExt.FromFpAdds` | risc0/zkp/rust/src/field/baby_bear.rs:451-455 | the embedding of `Elem` respects addition |
| `BabyBearExt.FromFpMultiplies` | risc0/zkp/rust/src/field/baby_bear.rs:451-455 | the embedding respects multiplication: from(x) · from(y) == from(x · y) |
| `BabyBearExt.ScaleIsProduct` | risc0/zkp/rust/src/field/baby_bear.rs:384-407 | multiplying by an `Elem` on either side is multiplying by its embedding, so `Elem * ExtElem == ExtElem * Elem` |
| `BabyBearExt.ExtPowerOfFromFp` | risc0/zkp/rust/src/field/baby_bear.rs:210-217 | powers of an embedded element are the embedded base-field powers |
| `BabyBearExt.XToTheFourth` | risc0/zkp/rust/src/field/baby_bear.rs:409-427 | in the ring the code computes in, X^4 == NBETA == −11, so the modulus is X^4 + 11 |
| `BabyBearExt.AddAssign` | risc0/zkp/rust/src/field/baby_bear.rs:359-365 | the loop adds `rhs` coefficient by coefficient. Slot i changes at step i only, and the array ends as the sum |
| `BabyBearExt.SubAssign` | risc0/zkp/rust/src/field/baby_bear.rs:376-382 | the loop subtracts coefficient by coefficient, and the array ends as the difference |
| `BabyBearExt.MulAssignElem` | risc0/zkp/rust/src/field/baby_bear.rs:385-391 | the loop multiplies every coefficient by `rhs`, and the array ends as the scalar product |
| `BabyBearExt.ScaleIsCoefficientwise` | risc0/zkp/rust/src/field/baby_bear.rs:385-391 | multiplying each coefficient by s in the base field is the scalar product |
| `BabyBearExt.MulForms` | risc0/zkp/rust/src/field/baby_bear.rs:420-425 | the four coefficients exactly as the multiplication writes them, with NBETA; `BabyBearExt.MulFormsAreProduct` proves they are the reduced polynomial product |
| `BabyBearExt.MulFormsAreProduct` | risc0/zkp/rust/src/field/baby_bear.rs:420-425 | the four hand-written forms with NBETA, in base-field arithmetic, equal the reduced polynomial product |
| `BabyBearExt.MulAssign` | risc0/zkp/rust/src/field/baby_bear.rs:415-427 | the array is overwritten with the product of its old value and `rhs`. All four coefficients come from the old coefficients |
| `BabyBearExt.ToArray` | risc0/zkp/rust/src/field/baby_bear.rs:353 | a fresh four-element array holding the value |
| `BabyBearExt.Add` | risc0/zkp/rust/src/field/baby_bear.rs:350-357 | copy then `+=` gives the sum |
| `BabyBearExt.Sub` | risc0/zkp/rust/src/field/baby_bear.rs:367-374 | copy then `-=` gives the difference |
| `BabyBearExt.Neg` | risc0/zkp/rust/src/field/baby_bear.rs:438-443 | −a is ZERO − a, and a + (−a) == ZERO |
| `BabyBearExt.MulElem` | risc0/zkp/rust/src/field/baby_bear.rs:393-400 | copy then `*= Elem` gives the scalar product |
| `BabyBearExt.ElemMul` | risc0/zkp/rust/src/field/baby_bear.rs:402-407 | `Elem * ExtElem` is the same scalar product |
| `BabyBearExt.Mul` | risc0/zkp/rust/src/field/baby_bear.rs:429-436 | copy then `*=` gives the product |
| `BabyBearExt.ExtPowerAdd` | risc0/zkp/rust/src/field/baby_bear.rs:243-255 | x^a · x^b == x^(a+b) |
| `BabyBearExt.ExtPowerOfSquare` | risc0/zkp/rust/src/field/baby_bear.rs:252 | (x · x)^k == x^(2k) |
| `BabyBearExt.PowLoopStep` | risc0/zkp/rust/src/field/baby_bear.rs:247-253 | one iteration of the `pow` loop keeps tot · x^n fixed |
| `BabyBearExt.Pow` | risc0/zkp/rust/src/field/baby_bear.rs:243-255 | the square-and-multiply loop over two coefficient arrays returns x^n, and ONE for n == 0 |
| `BabyBearExt.InverseOfZeroNorm` | risc0/zkp/rust/src/field/baby_bear.rs:276-279 | when c == 0, `ic` is zero and `inv` returns ZERO |
| `BabyBearExt.InverseOfZero` | risc0/zkp/rust/src/field/baby_bear.rs:277-279 | the inverse of ZERO is ZERO |
| `BabyBearExt.InvB0` | risc0/zkp/rust/src/field/baby_bear.rs:268 | b0 in base-field arithmetic; `BabyBearExt.InvPartsAreResidues` proves it is the constant coefficient of a(−X) · a(X) |
| `BabyBearExt.InvB2` | risc0/zkp/rust/src/field/baby_bear.rs:269 | b2 in base-field arithmetic; `BabyBearExt.InvPartsAreResidues` proves it is the X² coefficient of a(−X) · a(X) |
| `BabyBearExt.InvNorm` | risc0/zkp/rust/src/field/baby_bear.rs:273 | c = b0² + 11·b2² in base-field arithmetic; `BabyBearExt.InvPartsAreResidues` proves it is the residue of that integer |
| `BabyBearExt.Inv` | risc0/zkp/rust/src/field/baby_bear.rs:258-291 | `ExtElem::inv`: ZERO maps to ZERO (`BabyBearExt.InverseOfZero`), and inv(a) · a == ONE whenever the base-field `inv` inverts the norm c (`BabyBearExt.InverseTimesSelf`) |
| `BabyBearExt.InvIsConjTimes` | risc0/zkp/rust/src/field/baby_bear.rs:283-290 | the output of `inv` is the reduced conjugate combination with weights b0 · ic and b2 · ic |
| `BabyBearExt.InvCoefficients` | risc0/zkp/rust/src/field/baby_bear.rs:285-290 | each of the four output coefficients, computed in the base field, is the residue of the matching integer coefficient |
| `BabyBearExt.InvPartsAreResidues` | risc0/zkp/rust/src/field/baby_bear.rs:268-273 | b0, b2 and c, computed in the base field, are the residues of the integer norm b0, b2 and of b0² + 11·b2² |
| `BabyBearExt.InverseCoefficients` | risc0/zkp/rust/src/field/baby_bear.rs:273-284 | when c · ic == 1, the even coefficients of the product come out as 1 and 0 |
| `BabyBearExt.InverseTimesSelf` | risc0/zkp/rust/src/field/baby_bear.rs:258-291 | whenever `inv` on the norm c returns its inverse, inv(a) · a == ONE |
| `BabyBearExt.ConjProduct` | risc0/zkp/rust/src/field/baby_bear.rs:263-273 | the reduced conjugate combination times a has only the two even coefficients u·b0 + 11·v·b2 and u·b2 − v·b0 |
| `BabyBearExt.Random` | risc0/zkp/rust/src/field/baby_bear.rs:233-240 | four base-field draws in coefficient order. The result is the first four accepted elements, `rest` is the suffix of the draws after the fourth accepted one (the draw just before it is below the cut-off), and the rest of the accepted sequence remains |
| `RootsOfUnity.TwoAdicity` | risc0/zkp/rust/src/field/baby_bear.rs:93 | 2^27 divides P − 1 and 2^28 does not, so `MAX_ROU_PO2` == 27 is the largest possible |
| `RootsOfUnity.MAX_ROU_PO2` | risc0/zkp/rust/src/field/baby_bear.rs:93 | 27; `RootsOfUnity.TwoAdicity` proves 2^27 is the largest power of two dividing P − 1 |
| `RootsOfUnity.ROU_FWD` | risc0/zkp/rust/src/field/baby_bear.rs:95-100 | the 28 forward roots, each literal already below P so `Elem::new` keeps it; `RootsOfUnity.ForwardRootOrder` proves entry i is a primitive 2^i-th root of unity |
| `RootsOfUnity.ROU_REV` | risc0/zkp/rust/src/field/baby_bear.rs:102-107 | the 28 reverse roots; `RootsOfUnity.ReverseIsInverse` proves entry i is `inv` of the forward entry |
| `RootsOfUnity.TableSizes` | risc0/zkp/rust/src/field/baby_bear.rs:93-107 | both tables have `MAX_ROU_PO2 + 1` == 28 entries |
| `RootsOfUnity.ForwardTimesReverse` | risc0/zkp/rust/src/field/baby_bear.rs:95-107 | ROU_FWD[i] · ROU_REV[i] == 1 for every i in 0..=27 |
| `RootsOfUnity.ForwardIsSquaringChain` | risc0/zkp/rust/src/field/baby_bear.rs:95-100 | ROU_FWD starts 1, −1 and every entry squares to the one before it |
| `RootsOfUnity.ReverseIsSquaringChain` | risc0/zkp/rust/src/field/baby_bear.rs:102-107 | ROU_REV starts 1, −1 and every entry squares to the one before it |
| `RootsOfUnity.ChainSquarings` | risc0/zkp/rust/src/field/baby_bear.rs:95-107 | k squarings walk k steps down a squaring chain |
| `RootsOfUnity.ChainOrder` | risc0/zkp/rust/src/field/baby_bear.rs:95-107 | entry i of a squaring chain raised to 2^i is 1, and raised to 2^(i−1) it is −1: its order is exactly 2^i |
| `RootsOfUnity.ForwardRootOrder` | risc0/zkp/rust/src/field/baby_bear.rs:95-100 | ROU_FWD[i] is a primitive 2^i-th root of unity |
| `RootsOfUnity.ReverseRootOrder` | risc0/zkp/rust/src/field/baby_bear.rs:102-107 | ROU_REV[i] is a primitive 2^i-th root of unity |
| `RootsOfUnity.OrderLifts` | risc0/zkp/rust/src/field/baby_bear.rs:93 | if x^(2^k) ≡ 1 then x^(2^n) ≡ 1 for every n ≥ k |
| `RootsOfUnity.FermatFromOrder` | risc0/zkp/rust/src/field/baby_bear.rs:62-71 | an element whose order divides 2^k, for k ≤ 27, satisfies x^(P−1) ≡ 1 |
| `RootsOfUnity.InverseFromOrder` | risc0/zkp/rust/src/field/baby_bear.rs:62-71 | for such an element, `inv` gives its inverse |
| `RootsOfUnity.ReverseIsInverse` | risc0/zkp/rust/src/field/baby_bear.rs:95-107 | ROU_REV[i] is exactly inv(ROU_FWD[i]) |
| `RootsOfUnity.ReverseEntryInverse` | risc0/zkp/rust/src/field/baby_bear.rs:102-107 | `inv` also inverts every reverse root: inv(ROU_REV[i]) · ROU_REV[i] == 1 |

## Left out

- `risc0/zkvm/sdk/rust/guest/src/io.rs` is not part of this model. It is memory-mapped I/O through raw pointers and a global cursor, with no arithmetic worth modelling.
- The random number generator is not modelled. Both `random` functions take the raw 32-bit draws as an explicit sequence and return what remains of it.
- `BabyBear.Random`: requires that some draw in the sequence is accepted. The source would loop until the generator produces one.
- `BabyBear.Inv`: only states inv(0) == 0. That inv(x) · x == 1 for every x ≠ 0 is Fermat's little theorem, which needs P to be prime, and the primality of P is not proved. The model proves the conditional form (`BabyBear.InverseByFermat`) and concrete instances: 5, and every entry of the roots-of-unity tables.
- `BabyBearExt.Inv` / `BabyBearExt.InverseTimesSelf`: inv(a) · a == ONE is proved only under the condition that the base-field `inv` inverts the norm c. Two facts that would discharge it for every a ≠ 0 are not proved: that X^4 + 11 is irreducible modulo P, so that c ≠ 0 whenever a ≠ 0; and Fermat's little theorem, so that inv(c) · c == 1 for c ≠ 0. The source's assertion "inv(a) · a == ONE for a ≠ 0" (baby_bear.rs:492-494) is therefore covered only through this condition.
- `Elem::pow` is not defined in baby_bear.rs. It is the default method of the `field::Elem` trait, which is not part of this model. `BabyBear.Pow` is written with the same loop as `ExtElem::pow` (baby_bear.rs:243-255).
- The generic tests in `field::test` (`test_roots_of_unity`, `test_field_ops`) are not part of this model. The roots-of-unity properties are proved directly about the tables instead.
- The `Elem` operator impls (`+`, `-`, `*` and their assign forms, baby_bear.rs:117-154) only wrap the `add`, `sub` and `mul` helpers, so the helpers are what is modelled.
- Trait plumbing without behaviour is left out: `Default`, `Debug`, `Pod`/`Zeroable`, `elems()`, and the `field::ExtElem` associated items beyond `from_subfield`.
- Integers are unbounded, with the machine ranges as subtypes `U32` and `U64`. Overflow panics are therefore not modelled; for canonical operands the model proves that `add` and `mul` cannot overflow.
