/** The roots-of-unity tables of the BabyBear field. ROU_FWD[i] is a
    primitive 2^i-th root of unity and ROU_REV[i] is its inverse; the
    largest power of two dividing P - 1 is 2^27, so the tables stop at
    index MAX_ROU_PO2 = 27. */
module RootsOfUnity {
  import opened ModP
  import F = BabyBear

  const MAX_ROU_PO2: nat := 27

  /** The `rou_array!` macro passes every literal through `Elem::new`; each
      literal is already below P, so the entries are the literals. The
      array literals are written here as four rows of seven joined by `+`,
      which keeps indexing into them cheap for the verifier. */
  const ROU_FWD: seq<F.Elem> :=
    [1, 2013265920, 284861408, 1801542727, 567209306, 740045640, 918899846]
    + [1881002012, 1453957774, 65325759, 1538055801, 515192888, 483885487, 157393079]
    + [1695124103, 2005211659, 1540072241, 88064245, 1542985445, 1269900459, 1461624142]
    + [825701067, 682402162, 1311873874, 1164520853, 352275361, 18769, 137]

  const ROU_REV: seq<F.Elem> :=
    [1, 2013265920, 1728404513, 1592366214, 196396260, 1253260071, 72041623]
    + [1091445674, 145223211, 1446820157, 1030796471, 2010749425, 1827366325, 1239938613]
    + [246299276, 596347512, 1893145354, 246074437, 1525739923, 1194341128, 1463599021]
    + [704606912, 95395244, 15672543, 647517488, 584175179, 137728885, 749463956]

  /** A table whose entry i squares to entry i - 1, starting from 1 and -1:
      entry i is then a primitive 2^i-th root of unity. */
  predicate SquaringChain(t: seq<F.Elem>)
  {
    && |t| == MAX_ROU_PO2 + 1
    && t[0] == 1
    && t[1] == P - 1
    && forall i :: 1 <= i < |t| ==> F.Mul(t[i], t[i]) == t[i - 1]
  }

  /** 2^MAX_ROU_PO2 is the largest power of two dividing P - 1, so no
      element of the field has order 2^28. */
  lemma TwoAdicity()
    ensures (P - 1) % Pow2(MAX_ROU_PO2) == 0
    ensures ((P - 1) / Pow2(MAX_ROU_PO2)) % 2 == 1
  {
    F.SmallPowers();
    assert (P - 1) / Pow2(MAX_ROU_PO2) == 15;
  }

  lemma TableSizes()
    ensures |ROU_FWD| == MAX_ROU_PO2 + 1
    ensures |ROU_REV| == MAX_ROU_PO2 + 1
  {
  }

  // The entries of the tables, and the products between them that the
  // solver evaluates on the literals.

  lemma ForwardEntries()
    ensures ROU_FWD[0] == 1
    ensures ROU_FWD[1] == 2013265920
    ensures ROU_FWD[2] == 284861408
    ensures ROU_FWD[3] == 1801542727
    ensures ROU_FWD[4] == 567209306
    ensures ROU_FWD[5] == 740045640
    ensures ROU_FWD[6] == 918899846
    ensures ROU_FWD[7] == 1881002012
    ensures ROU_FWD[8] == 1453957774
    ensures ROU_FWD[9] == 65325759
    ensures ROU_FWD[10] == 1538055801
    ensures ROU_FWD[11] == 515192888
    ensures ROU_FWD[12] == 483885487
    ensures ROU_FWD[13] == 157393079
    ensures ROU_FWD[14] == 1695124103
    ensures ROU_FWD[15] == 2005211659
    ensures ROU_FWD[16] == 1540072241
    ensures ROU_FWD[17] == 88064245
    ensures ROU_FWD[18] == 1542985445
    ensures ROU_FWD[19] == 1269900459
    ensures ROU_FWD[20] == 1461624142
    ensures ROU_FWD[21] == 825701067
    ensures ROU_FWD[22] == 682402162
    ensures ROU_FWD[23] == 1311873874
    ensures ROU_FWD[24] == 1164520853
    ensures ROU_FWD[25] == 352275361
    ensures ROU_FWD[26] == 18769
    ensures ROU_FWD[27] == 137
  {
  }

  lemma ReverseEntries()
    ensures ROU_REV[0] == 1
    ensures ROU_REV[1] == 2013265920
    ensures ROU_REV[2] == 1728404513
    ensures ROU_REV[3] == 1592366214
    ensures ROU_REV[4] == 196396260
    ensures ROU_REV[5] == 1253260071
    ensures ROU_REV[6] == 72041623
    ensures ROU_REV[7] == 1091445674
    ensures ROU_REV[8] == 145223211
    ensures ROU_REV[9] == 1446820157
    ensures ROU_REV[10] == 1030796471
    ensures ROU_REV[11] == 2010749425
    ensures ROU_REV[12] == 1827366325
    ensures ROU_REV[13] == 1239938613
    ensures ROU_REV[14] == 246299276
    ensures ROU_REV[15] == 596347512
    ensures ROU_REV[16] == 1893145354
    ensures ROU_REV[17] == 246074437
    ensures ROU_REV[18] == 1525739923
    ensures ROU_REV[19] == 1194341128
    ensures ROU_REV[20] == 1463599021
    ensures ROU_REV[21] == 704606912
    ensures ROU_REV[22] == 95395244
    ensures ROU_REV[23] == 15672543
    ensures ROU_REV[24] == 647517488
    ensures ROU_REV[25] == 584175179
    ensures ROU_REV[26] == 137728885
    ensures ROU_REV[27] == 749463956
  {
  }

  lemma ForwardSquareValues()
    ensures F.Mul(2013265920, 2013265920) == 1
    ensures F.Mul(284861408, 284861408) == 2013265920
    ensures F.Mul(1801542727, 1801542727) == 284861408
    ensures F.Mul(567209306, 567209306) == 1801542727
    ensures F.Mul(740045640, 740045640) == 567209306
    ensures F.Mul(918899846, 918899846) == 740045640
    ensures F.Mul(1881002012, 1881002012) == 918899846
    ensures F.Mul(1453957774, 1453957774) == 1881002012
    ensures F.Mul(65325759, 65325759) == 1453957774
    ensures F.Mul(1538055801, 1538055801) == 65325759
    ensures F.Mul(515192888, 515192888) == 1538055801
    ensures F.Mul(483885487, 483885487) == 515192888
    ensures F.Mul(157393079, 157393079) == 483885487
    ensures F.Mul(1695124103, 1695124103) == 157393079
    ensures F.Mul(2005211659, 2005211659) == 1695124103
    ensures F.Mul(1540072241, 1540072241) == 2005211659
    ensures F.Mul(88064245, 88064245) == 1540072241
    ensures F.Mul(1542985445, 1542985445) == 88064245
    ensures F.Mul(1269900459, 1269900459) == 1542985445
    ensures F.Mul(1461624142, 1461624142) == 1269900459
    ensures F.Mul(825701067, 825701067) == 1461624142
    ensures F.Mul(682402162, 682402162) == 825701067
    ensures F.Mul(1311873874, 1311873874) == 682402162
    ensures F.Mul(1164520853, 1164520853) == 1311873874
    ensures F.Mul(352275361, 352275361) == 1164520853
    ensures F.Mul(18769, 18769) == 352275361
    ensures F.Mul(137, 137) == 18769
  {
  }

  lemma ReverseSquareValues()
    ensures F.Mul(2013265920, 2013265920) == 1
    ensures F.Mul(1728404513, 1728404513) == 2013265920
    ensures F.Mul(1592366214, 1592366214) == 1728404513
    ensures F.Mul(196396260, 196396260) == 1592366214
    ensures F.Mul(1253260071, 1253260071) == 196396260
    ensures F.Mul(72041623, 72041623) == 1253260071
    ensures F.Mul(1091445674, 1091445674) == 72041623
    ensures F.Mul(145223211, 145223211) == 1091445674
    ensures F.Mul(1446820157, 1446820157) == 145223211
    ensures F.Mul(1030796471, 1030796471) == 1446820157
    ensures F.Mul(2010749425, 2010749425) == 1030796471
    ensures F.Mul(1827366325, 1827366325) == 2010749425
    ensures F.Mul(1239938613, 1239938613) == 1827366325
    ensures F.Mul(246299276, 246299276) == 1239938613
    ensures F.Mul(596347512, 596347512) == 246299276
    ensures F.Mul(1893145354, 1893145354) == 596347512
    ensures F.Mul(246074437, 246074437) == 1893145354
    ensures F.Mul(1525739923, 1525739923) == 246074437
    ensures F.Mul(1194341128, 1194341128) == 1525739923
    ensures F.Mul(1463599021, 1463599021) == 1194341128
    ensures F.Mul(704606912, 704606912) == 1463599021
    ensures F.Mul(95395244, 95395244) == 704606912
    ensures F.Mul(15672543, 15672543) == 95395244
    ensures F.Mul(647517488, 647517488) == 15672543
    ensures F.Mul(584175179, 584175179) == 647517488
    ensures F.Mul(137728885, 137728885) == 584175179
    ensures F.Mul(749463956, 749463956) == 137728885
  {
  }

  lemma PairValues()
    ensures F.Mul(1, 1) == 1
    ensures F.Mul(2013265920, 2013265920) == 1
    ensures F.Mul(284861408, 1728404513) == 1
    ensures F.Mul(1801542727, 1592366214) == 1
    ensures F.Mul(567209306, 196396260) == 1
    ensures F.Mul(740045640, 1253260071) == 1
    ensures F.Mul(918899846, 72041623) == 1
    ensures F.Mul(1881002012, 1091445674) == 1
    ensures F.Mul(1453957774, 145223211) == 1
    ensures F.Mul(65325759, 1446820157) == 1
    ensures F.Mul(1538055801, 1030796471) == 1
    ensures F.Mul(515192888, 2010749425) == 1
    ensures F.Mul(483885487, 1827366325) == 1
    ensures F.Mul(157393079, 1239938613) == 1
    ensures F.Mul(1695124103, 246299276) == 1
    ensures F.Mul(2005211659, 596347512) == 1
    ensures F.Mul(1540072241, 1893145354) == 1
    ensures F.Mul(88064245, 246074437) == 1
    ensures F.Mul(1542985445, 1525739923) == 1
    ensures F.Mul(1269900459, 1194341128) == 1
    ensures F.Mul(1461624142, 1463599021) == 1
    ensures F.Mul(825701067, 704606912) == 1
    ensures F.Mul(682402162, 95395244) == 1
    ensures F.Mul(1311873874, 15672543) == 1
    ensures F.Mul(1164520853, 647517488) == 1
    ensures F.Mul(352275361, 584175179) == 1
    ensures F.Mul(18769, 137728885) == 1
    ensures F.Mul(137, 749463956) == 1
  {
  }

  /** Every forward root times the reverse root at the same index is one. */
  lemma ForwardTimesReverse()
    ensures forall i :: 0 <= i <= MAX_ROU_PO2 ==> F.Mul(ROU_FWD[i], ROU_REV[i]) == 1
  {
    ForwardEntries();
    ReverseEntries();
    PairValues();
    forall i | 0 <= i <= MAX_ROU_PO2
      ensures F.Mul(ROU_FWD[i], ROU_REV[i]) == 1
    {
      // One empty branch per index: each branch lets the verifier replace i
      // by a literal and look the entries up in the facts above.
      if i == 0 {
      } else if i == 1 {
      } else if i == 2 {
      } else if i == 3 {
      } else if i == 4 {
      } else if i == 5 {
      } else if i == 6 {
      } else if i == 7 {
      } else if i == 8 {
      } else if i == 9 {
      } else if i == 10 {
      } else if i == 11 {
      } else if i == 12 {
      } else if i == 13 {
      } else if i == 14 {
      } else if i == 15 {
      } else if i == 16 {
      } else if i == 17 {
      } else if i == 18 {
      } else if i == 19 {
      } else if i == 20 {
      } else if i == 21 {
      } else if i == 22 {
      } else if i == 23 {
      } else if i == 24 {
      } else if i == 25 {
      } else if i == 26 {
      }
    }
  }

  lemma ForwardIsSquaringChain()
    ensures SquaringChain(ROU_FWD)
  {
    ForwardEntries();
    ForwardSquareValues();
    forall i | 1 <= i < |ROU_FWD|
      ensures F.Mul(ROU_FWD[i], ROU_FWD[i]) == ROU_FWD[i - 1]
    {
      // One empty branch per index: each branch lets the verifier replace i
      // by a literal and look the entries up in the facts above.
      if i == 1 {
      } else if i == 2 {
      } else if i == 3 {
      } else if i == 4 {
      } else if i == 5 {
      } else if i == 6 {
      } else if i == 7 {
      } else if i == 8 {
      } else if i == 9 {
      } else if i == 10 {
      } else if i == 11 {
      } else if i == 12 {
      } else if i == 13 {
      } else if i == 14 {
      } else if i == 15 {
      } else if i == 16 {
      } else if i == 17 {
      } else if i == 18 {
      } else if i == 19 {
      } else if i == 20 {
      } else if i == 21 {
      } else if i == 22 {
      } else if i == 23 {
      } else if i == 24 {
      } else if i == 25 {
      } else if i == 26 {
      }
    }
  }

  lemma ReverseIsSquaringChain()
    ensures SquaringChain(ROU_REV)
  {
    ReverseEntries();
    ReverseSquareValues();
    forall i | 1 <= i < |ROU_REV|
      ensures F.Mul(ROU_REV[i], ROU_REV[i]) == ROU_REV[i - 1]
    {
      // One empty branch per index: each branch lets the verifier replace i
      // by a literal and look the entries up in the facts above.
      if i == 1 {
      } else if i == 2 {
      } else if i == 3 {
      } else if i == 4 {
      } else if i == 5 {
      } else if i == 6 {
      } else if i == 7 {
      } else if i == 8 {
      } else if i == 9 {
      } else if i == 10 {
      } else if i == 11 {
      } else if i == 12 {
      } else if i == 13 {
      } else if i == 14 {
      } else if i == 15 {
      } else if i == 16 {
      } else if i == 17 {
      } else if i == 18 {
      } else if i == 19 {
      } else if i == 20 {
      } else if i == 21 {
      } else if i == 22 {
      } else if i == 23 {
      } else if i == 24 {
      } else if i == 25 {
      } else if i == 26 {
      }
    }
  }

  /** k squarings walk k steps down a squaring chain. */
  lemma {:induction false} ChainSquarings(t: seq<F.Elem>, i: nat, k: nat)
    requires SquaringChain(t)
    requires k <= i < |t|
    ensures F.Squarings(t[i], k) == t[i - k]
    decreases k
  {
    if k > 0 {
      ChainSquarings(t, i - 1, k - 1);
    }
  }

  /** Entry i of a squaring chain has order exactly 2^i: raised to 2^i it is
      one, and for i >= 1 raised to 2^(i-1) it is -1, not one. */
  lemma ChainOrder(t: seq<F.Elem>, i: nat)
    requires SquaringChain(t)
    requires i < |t|
    ensures Power(t[i], Pow2(i)) % P == 1
    ensures i >= 1 ==> Power(t[i], Pow2(i - 1)) % P == P - 1
  {
    ChainSquarings(t, i, i);
    F.SquaringsArePowers(t[i], i);
    if i >= 1 {
      ChainSquarings(t, i, i - 1);
      F.SquaringsArePowers(t[i], i - 1);
    }
  }

  /** ROU_FWD[i]^(2^i) == 1, and no smaller power of two gets there. */
  lemma ForwardRootOrder(i: nat)
    requires i <= MAX_ROU_PO2
    ensures Power(ROU_FWD[i], Pow2(i)) % P == 1
    ensures i >= 1 ==> Power(ROU_FWD[i], Pow2(i - 1)) % P == P - 1
  {
    ForwardIsSquaringChain();
    ChainOrder(ROU_FWD, i);
  }

  lemma ReverseRootOrder(i: nat)
    requires i <= MAX_ROU_PO2
    ensures Power(ROU_REV[i], Pow2(i)) % P == 1
    ensures i >= 1 ==> Power(ROU_REV[i], Pow2(i - 1)) % P == P - 1
  {
    ReverseIsSquaringChain();
    ChainOrder(ROU_REV, i);
  }

  lemma {:induction false} PowerOfOne(n: nat)
    ensures Power(1, n) == 1
    decreases n
  {
    if n > 0 {
      PowerOfOne(n - 1);
    }
  }

  /** If x^(2^k) == 1 then x^(2^n) == 1 for every n >= k. */
  lemma {:induction false} OrderLifts(x: int, k: nat, n: nat)
    requires k <= n
    requires Power(x, Pow2(k)) % P == 1
    ensures Power(x, Pow2(n)) % P == 1
    decreases n - k
  {
    if k < n {
      var y := Power(x, Pow2(k));
      PowerPow2Succ(x, k);
      MulCong(y, y, 1, 1);
      OrderLifts(x, k + 1, n);
    }
  }

  /** An element whose order divides 2^k, k <= 27, satisfies x^(P-1) == 1,
      because 2^k divides P - 1 = 15 * 2^27. */
  lemma FermatFromOrder(x: int, k: nat)
    requires k <= MAX_ROU_PO2
    requires Power(x, Pow2(k)) % P == 1
    ensures Power(x, P - 1) % P == 1
  {
    var a := Pow2(MAX_ROU_PO2);
    OrderLifts(x, k, MAX_ROU_PO2);
    F.SmallPowers();
    PowerMul(x, a, 15);
    PowerMod(Power(x, a), 15);
    PowerOfOne(15);
  }

  /** For such an element Fermat's exponent P - 2 in `inv` does give the
      inverse. */
  lemma InverseFromOrder(x: F.Elem, k: nat)
    requires k <= MAX_ROU_PO2
    requires Power(x, Pow2(k)) % P == 1
    ensures F.Mul(F.Inv(x), x) == 1
  {
    FermatFromOrder(x, k);
    F.InverseByFermat(x);
  }


  /** ROU_REV[i] is exactly the field inverse `inv` of ROU_FWD[i]. */
  lemma ReverseIsInverse(i: nat)
    requires i <= MAX_ROU_PO2
    ensures ROU_REV[i] == F.Inv(ROU_FWD[i])
  {
    ForwardRootOrder(i);
    InverseFromOrder(ROU_FWD[i], i);
    ForwardTimesReverse();
    F.InverseIsUnique(ROU_FWD[i], F.Inv(ROU_FWD[i]), ROU_REV[i]);
  }

  /** Every reverse root is also inverted by `inv`. */
  lemma ReverseEntryInverse(i: nat)
    requires i <= MAX_ROU_PO2
    ensures F.Mul(F.Inv(ROU_REV[i]), ROU_REV[i]) == 1
  {
    ReverseRootOrder(i);
    InverseFromOrder(ROU_REV[i], i);
  }
}
