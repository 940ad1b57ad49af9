/**
 The field GF(2^255 - 19) of curve25519 in its ten-limb form, as mathematical
 integers: limb k has weight 2^ceil(25.5 k).  The module holds the value of a
 limb vector, the bounds the implementation states in its comments, and the
 congruence that makes schoolbook multiplication with factors 2, 19 and 38 correct.
 */
module Field25519 {
  import opened Modular

  const P: int := 0x7FFF_FFFF_FFFF_FFFF_FFFF_FFFF_FFFF_FFFF_FFFF_FFFF_FFFF_FFFF_FFFF_FFFF_FFFF_FFED

  datatype Limbs = Limbs(l0: int, l1: int, l2: int, l3: int, l4: int, l5: int, l6: int, l7: int, l8: int, l9: int)

  /** The weight of limb k: 2^26 and 2^25 alternate. */
  function Weight(k: nat): int {
    if k == 0 then 1 else if k % 2 == 1 then 0x400_0000 * Weight(k - 1) else 0x200_0000 * Weight(k - 1)
  }

  function Limb(l: Limbs, k: nat): int
    requires k < 10
  {
    match k
    case 0 => l.l0 case 1 => l.l1 case 2 => l.l2 case 3 => l.l3 case 4 => l.l4
    case 5 => l.l5 case 6 => l.l6 case 7 => l.l7 case 8 => l.l8 case 9 => l.l9
  }

  /** The weighted sum of limbs 0 to k. */
  function Weighted(l: Limbs, k: nat): int
    requires k < 10
  {
    if k == 0 then l.l0 else Weighted(l, k - 1) + Weight(k) * Limb(l, k)
  }

  /** The number that ten limbs stand for. */
  function Value(l: Limbs): int {
    Weighted(l, 9)
  }

  /** The same number written out: l0 + 2^26 l1 + 2^51 l2 + ... + 2^230 l9. */
  function Expanded(l: Limbs): int {
    l.l0 + 0x400_0000 * l.l1 + 0x8_0000_0000_0000 * l.l2 + 0x2000_0000_0000_0000_0000 * l.l3 +
    0x40_0000_0000_0000_0000_0000_0000 * l.l4 + 0x1_0000_0000_0000_0000_0000_0000_0000_0000 * l.l5 +
    0x200_0000_0000_0000_0000_0000_0000_0000_0000_0000 * l.l6 +
    0x8_0000_0000_0000_0000_0000_0000_0000_0000_0000_0000_0000 * l.l7 +
    0x1000_0000_0000_0000_0000_0000_0000_0000_0000_0000_0000_0000_0000 * l.l8 +
    0x40_0000_0000_0000_0000_0000_0000_0000_0000_0000_0000_0000_0000_0000_0000 * l.l9
  }

  lemma Weights()
    ensures Weight(1) == 0x400_0000 && Weight(2) == 0x8_0000_0000_0000 && Weight(3) == 0x2000_0000_0000_0000_0000
            && Weight(4) == 0x40_0000_0000_0000_0000_0000_0000
    ensures Weight(5) == 0x1_0000_0000_0000_0000_0000_0000_0000_0000
            && Weight(6) == 0x200_0000_0000_0000_0000_0000_0000_0000_0000_0000
            && Weight(7) == 0x8_0000_0000_0000_0000_0000_0000_0000_0000_0000_0000_0000
            && Weight(8) == 0x1000_0000_0000_0000_0000_0000_0000_0000_0000_0000_0000_0000_0000
            && Weight(9) == 0x40_0000_0000_0000_0000_0000_0000_0000_0000_0000_0000_0000_0000_0000_0000
  {
  }

  lemma Expand(l: Limbs)
    ensures Value(l) == Expanded(l)
  {
    Weights();
    assert Weighted(l, 1) == Weighted(l, 0) + Weight(1) * l.l1;
    assert Weighted(l, 2) == Weighted(l, 1) + Weight(2) * l.l2;
    assert Weighted(l, 3) == Weighted(l, 2) + Weight(3) * l.l3;
    assert Weighted(l, 4) == Weighted(l, 3) + Weight(4) * l.l4;
    assert Weighted(l, 5) == Weighted(l, 4) + Weight(5) * l.l5;
    assert Weighted(l, 6) == Weighted(l, 5) + Weight(6) * l.l6;
    assert Weighted(l, 7) == Weighted(l, 6) + Weight(7) * l.l7;
    assert Weighted(l, 8) == Weighted(l, 7) + Weight(8) * l.l8;
    assert Weighted(l, 9) == Weighted(l, 8) + Weight(9) * l.l9;
  }

  predicate Within(x: int, b: int) { -b <= x <= b }

  /** Even limbs bounded by b, odd limbs by c. */
  predicate Bounded(l: Limbs, b: int, c: int) {
    && Within(l.l0, b) && Within(l.l1, c) && Within(l.l2, b) && Within(l.l3, c) && Within(l.l4, b)
    && Within(l.l5, c) && Within(l.l6, b) && Within(l.l7, c) && Within(l.l8, b) && Within(l.l9, c)
  }

  // 1.1 * 2^26, 1.1 * 2^25 and 1.1 * 2^24, rounded down.
  const B26: int := 73819750
  const B25: int := 36909875
  const B24: int := 18454937

  /** The bound on every input of a multiplication. */
  predicate Loose(l: Limbs) { Bounded(l, B26, B25) }

  /** The bound on every output of a multiplication. */
  predicate Tight(l: Limbs) { Bounded(l, B25, B24) }

  function Scale(c: int, l: Limbs): Limbs {
    Limbs(c * l.l0, c * l.l1, c * l.l2, c * l.l3, c * l.l4, c * l.l5, c * l.l6, c * l.l7, c * l.l8, c * l.l9)
  }

  function Add(x: Limbs, y: Limbs): Limbs {
    Limbs(x.l0 + y.l0, x.l1 + y.l1, x.l2 + y.l2, x.l3 + y.l3, x.l4 + y.l4,
          x.l5 + y.l5, x.l6 + y.l6, x.l7 + y.l7, x.l8 + y.l8, x.l9 + y.l9)
  }

  lemma ScaleValue(c: int, l: Limbs)
    ensures Value(Scale(c, l)) == c * Value(l)
  {
    Expand(l);
    Expand(Scale(c, l));
    ExpandedScale(c, l);
  }

  lemma ExpandedScale(c: int, l: Limbs)
    ensures Expanded(Scale(c, l)) == c * Expanded(l)
  {
  }

  lemma AddValue(x: Limbs, y: Limbs)
    ensures Value(Add(x, y)) == Value(x) + Value(y)
  {
    Expand(x);
    Expand(y);
    Expand(Add(x, y));
  }

  /** Multiplication by 2^26: one limb up; what leaves the top returns with weight 38. */
  function Times26(l: Limbs): Limbs {
    Limbs(38 * l.l9, l.l0, 2 * l.l1, l.l2, 2 * l.l3, l.l4, 2 * l.l5, l.l6, 2 * l.l7, l.l8)
  }

  /** Multiplication by 2^51: two limbs up; what leaves the top returns with weight 19. */
  function Times51(l: Limbs): Limbs {
    Limbs(19 * l.l8, 19 * l.l9, l.l0, l.l1, l.l2, l.l3, l.l4, l.l5, l.l6, l.l7)
  }

  lemma Times26Value(l: Limbs)
    ensures Cong(0x400_0000 * Value(l), Value(Times26(l)), P)
  {
    Expand(l);
    Expand(Times26(l));
    CongMultiple(0x400_0000 * Value(l), Value(Times26(l)), 2 * l.l9, P);
  }

  lemma Times51Value(l: Limbs)
    ensures Cong(0x8_0000_0000_0000 * Value(l), Value(Times51(l)), P)
  {
    Expand(l);
    Expand(Times51(l));
    CongMultiple(0x8_0000_0000_0000 * Value(l), Value(Times51(l)), l.l8 + 0x400_0000 * l.l9, P);
  }

  lemma NextRow(r: Limbs, w: int, v: int)
    requires Cong(Value(r), w * v, P)
    ensures Cong(Value(Times51(r)), 0x8_0000_0000_0000 * w * v, P)
  {
    CongMul(0x8_0000_0000_0000, 0x8_0000_0000_0000, Value(r), w * v, P);
    Times51Value(r);
  }

  /** x0 r0 + x1 r1 + ... + x9 r9, limb by limb. */
  function Combine(x: Limbs, r0: Limbs, r1: Limbs, r2: Limbs, r3: Limbs, r4: Limbs, r5: Limbs, r6: Limbs, r7: Limbs,
      r8: Limbs, r9: Limbs): Limbs {
    Add(Scale(x.l0, r0), Add(Scale(x.l1, r1), Add(Scale(x.l2, r2), Add(Scale(x.l3, r3), Add(Scale(x.l4, r4),
    Add(Scale(x.l5, r5), Add(Scale(x.l6, r6), Add(Scale(x.l7, r7), Add(Scale(x.l8, r8), Scale(x.l9, r9))))))))))
  }

  lemma CombineValue(x: Limbs, r0: Limbs, r1: Limbs, r2: Limbs, r3: Limbs, r4: Limbs, r5: Limbs, r6: Limbs,
      r7: Limbs, r8: Limbs, r9: Limbs)
    ensures Value(Combine(x, r0, r1, r2, r3, r4, r5, r6, r7, r8, r9)) ==
            x.l0 * Value(r0) + (x.l1 * Value(r1) + (x.l2 * Value(r2) + (x.l3 * Value(r3)
            + (x.l4 * Value(r4) + (x.l5 * Value(r5) + (x.l6 * Value(r6)
            + (x.l7 * Value(r7) + (x.l8 * Value(r8) + (x.l9 * Value(r9))))))))))
  {
    var a9 := Scale(x.l9, r9);
    ScaleValue(x.l9, r9);
    var a8 := Add(Scale(x.l8, r8), a9);
    ScaleValue(x.l8, r8);
    AddValue(Scale(x.l8, r8), a9);
    var a7 := Add(Scale(x.l7, r7), a8);
    ScaleValue(x.l7, r7);
    AddValue(Scale(x.l7, r7), a8);
    var a6 := Add(Scale(x.l6, r6), a7);
    ScaleValue(x.l6, r6);
    AddValue(Scale(x.l6, r6), a7);
    var a5 := Add(Scale(x.l5, r5), a6);
    ScaleValue(x.l5, r5);
    AddValue(Scale(x.l5, r5), a6);
    var a4 := Add(Scale(x.l4, r4), a5);
    ScaleValue(x.l4, r4);
    AddValue(Scale(x.l4, r4), a5);
    var a3 := Add(Scale(x.l3, r3), a4);
    ScaleValue(x.l3, r3);
    AddValue(Scale(x.l3, r3), a4);
    var a2 := Add(Scale(x.l2, r2), a3);
    ScaleValue(x.l2, r2);
    AddValue(Scale(x.l2, r2), a3);
    var a1 := Add(Scale(x.l1, r1), a2);
    ScaleValue(x.l1, r1);
    AddValue(Scale(x.l1, r1), a2);
    var a0 := Add(Scale(x.l0, r0), a1);
    ScaleValue(x.l0, r0);
    AddValue(Scale(x.l0, r0), a1);
  }

  /** Adding one more row to a partial sum, as congruences between numbers. */
  lemma AddRow(c: int, r: int, w: int, acc: int, u: int, v: int)
    requires Cong(r, w * v, P) && Cong(acc, u * v, P)
    ensures Cong(c * r + acc, (w * c + u) * v, P)
  {
    CongMul(c, c, r, w * v, P);
    CongAdd(c * r, c * (w * v), acc, u * v, P);
    assert c * (w * v) + u * v == (w * c + u) * v;
  }

  /** If row i is worth 2^ceil(25.5 i) v for every i, the combination of the rows by x is worth x v. */
  lemma SumRows(x: Limbs, v: int, r0: int, r1: int, r2: int, r3: int, r4: int, r5: int, r6: int, r7: int, r8: int,
      r9: int)
    requires Cong(r0, 1 * v, P) && Cong(r1, 0x400_0000 * v, P) && Cong(r2, 0x8_0000_0000_0000 * v, P)
             && Cong(r3, 0x2000_0000_0000_0000_0000 * v, P) && Cong(r4, 0x40_0000_0000_0000_0000_0000_0000 * v, P)
    requires Cong(r5, 0x1_0000_0000_0000_0000_0000_0000_0000_0000 * v, P)
             && Cong(r6, 0x200_0000_0000_0000_0000_0000_0000_0000_0000_0000 * v, P)
             && Cong(r7, 0x8_0000_0000_0000_0000_0000_0000_0000_0000_0000_0000_0000 * v, P)
             && Cong(r8, 0x1000_0000_0000_0000_0000_0000_0000_0000_0000_0000_0000_0000_0000 * v, P)
             && Cong(r9, 0x40_0000_0000_0000_0000_0000_0000_0000_0000_0000_0000_0000_0000_0000_0000 * v, P)
    ensures Cong(x.l0 * r0 + (x.l1 * r1 + (x.l2 * r2 + (x.l3 * r3 + (x.l4 * r4
            + (x.l5 * r5 + (x.l6 * r6 + (x.l7 * r7 + (x.l8 * r8 + (x.l9 * r9))))))))), Value(x) * v, P)
  {
    CongMul(x.l9, x.l9, r9, 0x40_0000_0000_0000_0000_0000_0000_0000_0000_0000_0000_0000_0000_0000_0000 * v, P);
    var a9, u9 := x.l9 * r9, 0x40_0000_0000_0000_0000_0000_0000_0000_0000_0000_0000_0000_0000_0000_0000 * x.l9;
    assert x.l9 * (0x40_0000_0000_0000_0000_0000_0000_0000_0000_0000_0000_0000_0000_0000_0000 * v) == u9 * v;
    AddRow(x.l8, r8, 0x1000_0000_0000_0000_0000_0000_0000_0000_0000_0000_0000_0000_0000, a9, u9, v);
    var a8, u8 := x.l8 * r8 + a9, 0x1000_0000_0000_0000_0000_0000_0000_0000_0000_0000_0000_0000_0000 * x.l8 + u9;
    AddRow(x.l7, r7, 0x8_0000_0000_0000_0000_0000_0000_0000_0000_0000_0000_0000, a8, u8, v);
    var a7, u7 := x.l7 * r7 + a8, 0x8_0000_0000_0000_0000_0000_0000_0000_0000_0000_0000_0000 * x.l7 + u8;
    AddRow(x.l6, r6, 0x200_0000_0000_0000_0000_0000_0000_0000_0000_0000, a7, u7, v);
    var a6, u6 := x.l6 * r6 + a7, 0x200_0000_0000_0000_0000_0000_0000_0000_0000_0000 * x.l6 + u7;
    AddRow(x.l5, r5, 0x1_0000_0000_0000_0000_0000_0000_0000_0000, a6, u6, v);
    var a5, u5 := x.l5 * r5 + a6, 0x1_0000_0000_0000_0000_0000_0000_0000_0000 * x.l5 + u6;
    AddRow(x.l4, r4, 0x40_0000_0000_0000_0000_0000_0000, a5, u5, v);
    var a4, u4 := x.l4 * r4 + a5, 0x40_0000_0000_0000_0000_0000_0000 * x.l4 + u5;
    AddRow(x.l3, r3, 0x2000_0000_0000_0000_0000, a4, u4, v);
    var a3, u3 := x.l3 * r3 + a4, 0x2000_0000_0000_0000_0000 * x.l3 + u4;
    AddRow(x.l2, r2, 0x8_0000_0000_0000, a3, u3, v);
    var a2, u2 := x.l2 * r2 + a3, 0x8_0000_0000_0000 * x.l2 + u3;
    AddRow(x.l1, r1, 0x400_0000, a2, u2, v);
    var a1, u1 := x.l1 * r1 + a2, 0x400_0000 * x.l1 + u2;
    AddRow(x.l0, r0, 1, a1, u1, v);
    var a0, u0 := x.l0 * r0 + a1, 1 * x.l0 + u1;
    Expand(x);
    assert u0 == Expanded(x);
  }

  lemma CombineCong(x: Limbs, v: int, r0: Limbs, r1: Limbs, r2: Limbs, r3: Limbs, r4: Limbs, r5: Limbs, r6: Limbs,
      r7: Limbs, r8: Limbs, r9: Limbs)
    requires Cong(Value(r0), 1 * v, P) && Cong(Value(r1), 0x400_0000 * v, P)
             && Cong(Value(r2), 0x8_0000_0000_0000 * v, P) && Cong(Value(r3), 0x2000_0000_0000_0000_0000 * v, P)
             && Cong(Value(r4), 0x40_0000_0000_0000_0000_0000_0000 * v, P)
    requires Cong(Value(r5), 0x1_0000_0000_0000_0000_0000_0000_0000_0000 * v, P)
             && Cong(Value(r6), 0x200_0000_0000_0000_0000_0000_0000_0000_0000_0000 * v, P)
             && Cong(Value(r7), 0x8_0000_0000_0000_0000_0000_0000_0000_0000_0000_0000_0000 * v, P)
             && Cong(Value(r8), 0x1000_0000_0000_0000_0000_0000_0000_0000_0000_0000_0000_0000_0000 * v, P)
             && Cong(Value(r9),
                             0x40_0000_0000_0000_0000_0000_0000_0000_0000_0000_0000_0000_0000_0000_0000 * v, P)
    ensures Cong(Value(Combine(x, r0, r1, r2, r3, r4, r5, r6, r7, r8, r9)), Value(x) * v, P)
  {
    CombineValue(x, r0, r1, r2, r3, r4, r5, r6, r7, r8, r9);
    SumRows(x, v, Value(r0), Value(r1), Value(r2), Value(r3), Value(r4), Value(r5), Value(r6), Value(r7), Value(r8),
        Value(r9));
  }

  /** The product as ten rows: limb i of x times y moved up by i limbs. */
  function Schoolbook(x: Limbs, y: Limbs): Limbs {
    var y1 := Times26(y);
    var y2, y3 := Times51(y), Times51(y1);
    var y4, y5 := Times51(y2), Times51(y3);
    var y6, y7 := Times51(y4), Times51(y5);
    var y8, y9 := Times51(y6), Times51(y7);
    Combine(x, y, y1, y2, y3, y4, y5, y6, y7, y8, y9)
  }

  lemma SchoolbookValue(x: Limbs, y: Limbs)
    ensures Cong(Value(Schoolbook(x, y)), Value(x) * Value(y), P)
  {
    var v := Value(y);
    var y1 := Times26(y);
    Times26Value(y);
    NextRow(y, 1, v);
    var y2 := Times51(y);
    NextRow(y1, 0x400_0000, v);
    var y3 := Times51(y1);
    NextRow(y2, 0x8_0000_0000_0000, v);
    var y4 := Times51(y2);
    NextRow(y3, 0x2000_0000_0000_0000_0000, v);
    var y5 := Times51(y3);
    NextRow(y4, 0x40_0000_0000_0000_0000_0000_0000, v);
    var y6 := Times51(y4);
    NextRow(y5, 0x1_0000_0000_0000_0000_0000_0000_0000_0000, v);
    var y7 := Times51(y5);
    NextRow(y6, 0x200_0000_0000_0000_0000_0000_0000_0000_0000_0000, v);
    var y8 := Times51(y6);
    NextRow(y7, 0x8_0000_0000_0000_0000_0000_0000_0000_0000_0000_0000_0000, v);
    var y9 := Times51(y7);
    CombineCong(x, v, y, y1, y2, y3, y4, y5, y6, y7, y8, y9);
  }

  /** The columns of the product as the implementation accumulates them. */
  function Product(x: Limbs, y: Limbs): Limbs {
    Limbs(
      (x.l0 * y.l0) + 38 * (x.l1 * y.l9) + 19 * (x.l2 * y.l8) + 38 * (x.l3 * y.l7) + 19 * (x.l4 * y.l6) +
      38 * (x.l5 * y.l5) + 19 * (x.l6 * y.l4) + 38 * (x.l7 * y.l3) + 19 * (x.l8 * y.l2) + 38 * (x.l9 * y.l1),
      (x.l0 * y.l1) + (x.l1 * y.l0) + 19 * (x.l2 * y.l9) + 19 * (x.l3 * y.l8) + 19 * (x.l4 * y.l7) +
      19 * (x.l5 * y.l6) + 19 * (x.l6 * y.l5) + 19 * (x.l7 * y.l4) + 19 * (x.l8 * y.l3) + 19 * (x.l9 * y.l2),
      (x.l0 * y.l2) + 2 * (x.l1 * y.l1) + (x.l2 * y.l0) + 38 * (x.l3 * y.l9) + 19 * (x.l4 * y.l8) +
      38 * (x.l5 * y.l7) + 19 * (x.l6 * y.l6) + 38 * (x.l7 * y.l5) + 19 * (x.l8 * y.l4) + 38 * (x.l9 * y.l3),
      (x.l0 * y.l3) + (x.l1 * y.l2) + (x.l2 * y.l1) + (x.l3 * y.l0) + 19 * (x.l4 * y.l9) + 19 * (x.l5 * y.l8) +
      19 * (x.l6 * y.l7) + 19 * (x.l7 * y.l6) + 19 * (x.l8 * y.l5) + 19 * (x.l9 * y.l4),
      (x.l0 * y.l4) + 2 * (x.l1 * y.l3) + (x.l2 * y.l2) + 2 * (x.l3 * y.l1) + (x.l4 * y.l0) +
      38 * (x.l5 * y.l9) + 19 * (x.l6 * y.l8) + 38 * (x.l7 * y.l7) + 19 * (x.l8 * y.l6) + 38 * (x.l9 * y.l5),
      (x.l0 * y.l5) + (x.l1 * y.l4) + (x.l2 * y.l3) + (x.l3 * y.l2) + (x.l4 * y.l1) + (x.l5 * y.l0) +
      19 * (x.l6 * y.l9) + 19 * (x.l7 * y.l8) + 19 * (x.l8 * y.l7) + 19 * (x.l9 * y.l6),
      (x.l0 * y.l6) + 2 * (x.l1 * y.l5) + (x.l2 * y.l4) + 2 * (x.l3 * y.l3) + (x.l4 * y.l2) +
      2 * (x.l5 * y.l1) + (x.l6 * y.l0) + 38 * (x.l7 * y.l9) + 19 * (x.l8 * y.l8) + 38 * (x.l9 * y.l7),
      (x.l0 * y.l7) + (x.l1 * y.l6) + (x.l2 * y.l5) + (x.l3 * y.l4) + (x.l4 * y.l3) + (x.l5 * y.l2) +
      (x.l6 * y.l1) + (x.l7 * y.l0) + 19 * (x.l8 * y.l9) + 19 * (x.l9 * y.l8),
      (x.l0 * y.l8) + 2 * (x.l1 * y.l7) + (x.l2 * y.l6) + 2 * (x.l3 * y.l5) + (x.l4 * y.l4) +
      2 * (x.l5 * y.l3) + (x.l6 * y.l2) + 2 * (x.l7 * y.l1) + (x.l8 * y.l0) + 38 * (x.l9 * y.l9),
      (x.l0 * y.l9) + (x.l1 * y.l8) + (x.l2 * y.l7) + (x.l3 * y.l6) + (x.l4 * y.l5) + (x.l5 * y.l4) +
      (x.l6 * y.l3) + (x.l7 * y.l2) + (x.l8 * y.l1) + (x.l9 * y.l0))
  }

  lemma ScaleTimes26(c: int, r: Limbs)
    ensures Scale(c, Times26(r)) == Times26(Scale(c, r))
  {
  }

  lemma ScaleTimes51(c: int, r: Limbs)
    ensures Scale(c, Times51(r)) == Times51(Scale(c, r))
  {
  }

  /** Column by column, the rows add up to what the implementation accumulates. */
  lemma ProductRows(x: Limbs, y: Limbs)
    ensures Product(x, y) ==
            Add(Scale(x.l0, y),
            Add(Times26(Scale(x.l1, y)),
            Add(Times51(Scale(x.l2, y)),
            Add(Times51(Times26(Scale(x.l3, y))),
            Add(Times51(Times51(Scale(x.l4, y))),
            Add(Times51(Times51(Times26(Scale(x.l5, y)))),
            Add(Times51(Times51(Times51(Scale(x.l6, y)))),
            Add(Times51(Times51(Times51(Times26(Scale(x.l7, y))))),
            Add(Times51(Times51(Times51(Times51(Scale(x.l8, y))))),
            Times51(Times51(Times51(Times51(Times26(Scale(x.l9, y)))))))))))))))
  {
  }

  /** The columns have the value of the product, modulo 2^255 - 19. */
  lemma ProductValue(x: Limbs, y: Limbs)
    ensures Product(x, y) == Schoolbook(x, y)
    ensures Cong(Value(Product(x, y)), Value(x) * Value(y), P)
  {
    ScaleTimes26(x.l1, y);
    ScaleTimes51(x.l2, y);
    ScaleTimes26(x.l3, y); ScaleTimes51(x.l3, Times26(y));
    ScaleTimes51(x.l4, y); ScaleTimes51(x.l4, Times51(y));
    ScaleTimes26(x.l5, y); ScaleTimes51(x.l5, Times26(y)); ScaleTimes51(x.l5, Times51(Times26(y)));
    ScaleTimes51(x.l6, y); ScaleTimes51(x.l6, Times51(y)); ScaleTimes51(x.l6, Times51(Times51(y)));
    ScaleTimes26(x.l7, y); ScaleTimes51(x.l7, Times26(y)); ScaleTimes51(x.l7, Times51(Times26(y)));
    ScaleTimes51(x.l7, Times51(Times51(Times26(y))));
    ScaleTimes51(x.l8, y); ScaleTimes51(x.l8, Times51(y)); ScaleTimes51(x.l8, Times51(Times51(y)));
    ScaleTimes51(x.l8, Times51(Times51(Times51(y))));
    ScaleTimes26(x.l9, y); ScaleTimes51(x.l9, Times26(y)); ScaleTimes51(x.l9, Times51(Times26(y)));
    ScaleTimes51(x.l9, Times51(Times51(Times26(y)))); ScaleTimes51(x.l9, Times51(Times51(Times51(Times26(y)))));
    ProductRows(x, y);
    SchoolbookValue(x, y);
  }

  /** The same for the residues that the factors stand for. */
  lemma ProductResidue(x: Limbs, y: Limbs, p: Limbs)
    requires p == Product(x, y)
    ensures Value(p) % P == ((Value(x) % P) * (Value(y) % P)) % P
  {
    ProductValue(x, y);
    MulResidue(Value(x), Value(y));
  }

  lemma MulResidue(a: int, b: int)
    ensures (a * b) % P == ((a % P) * (b % P)) % P
  {
    CongMul(a, a % P, b, b % P, P);
  }
}
