/**
 Field elements of curve25519 as the implementation holds them: ten 32-bit limbs in an array that
 every operation overwrites in place, with 64-bit accumulators in between.  The fixed-width types
 make Dafny check that no intermediate result overflows.
 */
module FieldElement {
  import opened Modular
  import opened Field25519
  import opened Bits

  newtype int32 = x: int | -0x8000_0000 <= x < 0x8000_0000
  newtype int64 = x: int | -0x8000_0000_0000_0000 <= x < 0x8000_0000_0000_0000

  /** A snapshot of the ten limbs of a fieldElement. */
  datatype Fe = Fe(e0: int32, e1: int32, e2: int32, e3: int32, e4: int32, e5: int32, e6: int32, e7: int32, e8: int32,
      e9: int32)

  /** The ten 64-bit accumulators of a multiplication. */
  datatype Wide = Wide(h0: int64, h1: int64, h2: int64, h3: int64, h4: int64, h5: int64, h6: int64, h7: int64,
      h8: int64, h9: int64)

  function Ints(f: Fe): Limbs {
    Limbs(f.e0 as int, f.e1 as int, f.e2 as int, f.e3 as int, f.e4 as int, f.e5 as int, f.e6 as int, f.e7 as int,
        f.e8 as int, f.e9 as int)
  }

  function WideInts(w: Wide): Limbs {
    Limbs(w.h0 as int, w.h1 as int, w.h2 as int, w.h3 as int, w.h4 as int, w.h5 as int, w.h6 as int, w.h7 as int,
        w.h8 as int, w.h9 as int)
  }

  lemma ProductBound(a: int, b: int, A: nat, B: nat)
    requires Within(a, A) && Within(b, B)
    ensures Within(a * b, A * B)
  {
  }

  /**
   The 64-bit product (c a)(d b) of two 32-bit factors, each a limb times a small constant.  The
   bounds A and B on the factors show that neither factor nor the product overflows.
   */
  function Mul64(c: int32, a: int32, d: int32, b: int32, ghost A: nat, ghost B: nat): (r: int64)
    requires Within(c as int * a as int, A) && Within(d as int * b as int, B)
    requires A < 0x8000_0000 && B < 0x8000_0000
    ensures r as int == (c as int * d as int) * (a as int * b as int)
    ensures Within(r as int, A * B)
  {
    ProductBound(c as int * a as int, d as int * b as int, A, B);
    ProductBound(A, B, 0x7FFF_FFFF, 0x7FFF_FFFF);
    Regroup(c as int, a as int, d as int, b as int);
    (c * a) as int64 * (d * b) as int64
  }

  lemma Regroup(c: int, a: int, d: int, b: int)
    ensures (c * a) * (d * b) == (c * d) * (a * b)
  {
    assert (c * a) * (d * b) == c * (a * (d * b)) == c * (d * (a * b));
  }

  // 1.2 * 2^59 and 1.5 * 2^58, rounded down.
  const EVEN_SUM: int := 691752902764108185
  const ODD_SUM: int := 432345564227567616

  method MulColumn0(f: Fe, g: Fe) returns (r: int64)
    requires Loose(Ints(f)) && Loose(Ints(g))
    ensures r as int == Product(Ints(f), Ints(g)).l0 && Within(r as int, EVEN_SUM)
  {
    r := Mul64(1, f.e0, 1, g.e0, B26, B26) + Mul64(2, f.e1, 19, g.e9, 2 * B25, 19 * B25) +
         Mul64(1, f.e2, 19, g.e8, B26, 19 * B26) + Mul64(2, f.e3, 19, g.e7, 2 * B25, 19 * B25) +
         Mul64(1, f.e4, 19, g.e6, B26, 19 * B26) + Mul64(2, f.e5, 19, g.e5, 2 * B25, 19 * B25) +
         Mul64(1, f.e6, 19, g.e4, B26, 19 * B26) + Mul64(2, f.e7, 19, g.e3, 2 * B25, 19 * B25) +
         Mul64(1, f.e8, 19, g.e2, B26, 19 * B26) + Mul64(2, f.e9, 19, g.e1, 2 * B25, 19 * B25);
  }

  method MulColumn1(f: Fe, g: Fe) returns (r: int64)
    requires Loose(Ints(f)) && Loose(Ints(g))
    ensures r as int == Product(Ints(f), Ints(g)).l1 && Within(r as int, ODD_SUM)
  {
    r := Mul64(1, f.e0, 1, g.e1, B26, B25) + Mul64(1, f.e1, 1, g.e0, B25, B26) +
         Mul64(1, f.e2, 19, g.e9, B26, 19 * B25) + Mul64(1, f.e3, 19, g.e8, B25, 19 * B26) +
         Mul64(1, f.e4, 19, g.e7, B26, 19 * B25) + Mul64(1, f.e5, 19, g.e6, B25, 19 * B26) +
         Mul64(1, f.e6, 19, g.e5, B26, 19 * B25) + Mul64(1, f.e7, 19, g.e4, B25, 19 * B26) +
         Mul64(1, f.e8, 19, g.e3, B26, 19 * B25) + Mul64(1, f.e9, 19, g.e2, B25, 19 * B26);
  }

  method MulColumn2(f: Fe, g: Fe) returns (r: int64)
    requires Loose(Ints(f)) && Loose(Ints(g))
    ensures r as int == Product(Ints(f), Ints(g)).l2 && Within(r as int, EVEN_SUM)
  {
    r := Mul64(1, f.e0, 1, g.e2, B26, B26) + Mul64(2, f.e1, 1, g.e1, 2 * B25, B25) +
         Mul64(1, f.e2, 1, g.e0, B26, B26) + Mul64(2, f.e3, 19, g.e9, 2 * B25, 19 * B25) +
         Mul64(1, f.e4, 19, g.e8, B26, 19 * B26) + Mul64(2, f.e5, 19, g.e7, 2 * B25, 19 * B25) +
         Mul64(1, f.e6, 19, g.e6, B26, 19 * B26) + Mul64(2, f.e7, 19, g.e5, 2 * B25, 19 * B25) +
         Mul64(1, f.e8, 19, g.e4, B26, 19 * B26) + Mul64(2, f.e9, 19, g.e3, 2 * B25, 19 * B25);
  }

  method MulColumn3(f: Fe, g: Fe) returns (r: int64)
    requires Loose(Ints(f)) && Loose(Ints(g))
    ensures r as int == Product(Ints(f), Ints(g)).l3 && Within(r as int, ODD_SUM)
  {
    r := Mul64(1, f.e0, 1, g.e3, B26, B25) + Mul64(1, f.e1, 1, g.e2, B25, B26) +
         Mul64(1, f.e2, 1, g.e1, B26, B25) + Mul64(1, f.e3, 1, g.e0, B25, B26) +
         Mul64(1, f.e4, 19, g.e9, B26, 19 * B25) + Mul64(1, f.e5, 19, g.e8, B25, 19 * B26) +
         Mul64(1, f.e6, 19, g.e7, B26, 19 * B25) + Mul64(1, f.e7, 19, g.e6, B25, 19 * B26) +
         Mul64(1, f.e8, 19, g.e5, B26, 19 * B25) + Mul64(1, f.e9, 19, g.e4, B25, 19 * B26);
  }

  method MulColumn4(f: Fe, g: Fe) returns (r: int64)
    requires Loose(Ints(f)) && Loose(Ints(g))
    ensures r as int == Product(Ints(f), Ints(g)).l4 && Within(r as int, EVEN_SUM)
  {
    r := Mul64(1, f.e0, 1, g.e4, B26, B26) + Mul64(2, f.e1, 1, g.e3, 2 * B25, B25) +
         Mul64(1, f.e2, 1, g.e2, B26, B26) + Mul64(2, f.e3, 1, g.e1, 2 * B25, B25) +
         Mul64(1, f.e4, 1, g.e0, B26, B26) + Mul64(2, f.e5, 19, g.e9, 2 * B25, 19 * B25) +
         Mul64(1, f.e6, 19, g.e8, B26, 19 * B26) + Mul64(2, f.e7, 19, g.e7, 2 * B25, 19 * B25) +
         Mul64(1, f.e8, 19, g.e6, B26, 19 * B26) + Mul64(2, f.e9, 19, g.e5, 2 * B25, 19 * B25);
  }

  method MulColumn5(f: Fe, g: Fe) returns (r: int64)
    requires Loose(Ints(f)) && Loose(Ints(g))
    ensures r as int == Product(Ints(f), Ints(g)).l5 && Within(r as int, ODD_SUM)
  {
    r := Mul64(1, f.e0, 1, g.e5, B26, B25) + Mul64(1, f.e1, 1, g.e4, B25, B26) +
         Mul64(1, f.e2, 1, g.e3, B26, B25) + Mul64(1, f.e3, 1, g.e2, B25, B26) +
         Mul64(1, f.e4, 1, g.e1, B26, B25) + Mul64(1, f.e5, 1, g.e0, B25, B26) +
         Mul64(1, f.e6, 19, g.e9, B26, 19 * B25) + Mul64(1, f.e7, 19, g.e8, B25, 19 * B26) +
         Mul64(1, f.e8, 19, g.e7, B26, 19 * B25) + Mul64(1, f.e9, 19, g.e6, B25, 19 * B26);
  }

  method MulColumn6(f: Fe, g: Fe) returns (r: int64)
    requires Loose(Ints(f)) && Loose(Ints(g))
    ensures r as int == Product(Ints(f), Ints(g)).l6 && Within(r as int, EVEN_SUM)
  {
    r := Mul64(1, f.e0, 1, g.e6, B26, B26) + Mul64(2, f.e1, 1, g.e5, 2 * B25, B25) +
         Mul64(1, f.e2, 1, g.e4, B26, B26) + Mul64(2, f.e3, 1, g.e3, 2 * B25, B25) +
         Mul64(1, f.e4, 1, g.e2, B26, B26) + Mul64(2, f.e5, 1, g.e1, 2 * B25, B25) +
         Mul64(1, f.e6, 1, g.e0, B26, B26) + Mul64(2, f.e7, 19, g.e9, 2 * B25, 19 * B25) +
         Mul64(1, f.e8, 19, g.e8, B26, 19 * B26) + Mul64(2, f.e9, 19, g.e7, 2 * B25, 19 * B25);
  }

  method MulColumn7(f: Fe, g: Fe) returns (r: int64)
    requires Loose(Ints(f)) && Loose(Ints(g))
    ensures r as int == Product(Ints(f), Ints(g)).l7 && Within(r as int, ODD_SUM)
  {
    r := Mul64(1, f.e0, 1, g.e7, B26, B25) + Mul64(1, f.e1, 1, g.e6, B25, B26) +
         Mul64(1, f.e2, 1, g.e5, B26, B25) + Mul64(1, f.e3, 1, g.e4, B25, B26) +
         Mul64(1, f.e4, 1, g.e3, B26, B25) + Mul64(1, f.e5, 1, g.e2, B25, B26) +
         Mul64(1, f.e6, 1, g.e1, B26, B25) + Mul64(1, f.e7, 1, g.e0, B25, B26) +
         Mul64(1, f.e8, 19, g.e9, B26, 19 * B25) + Mul64(1, f.e9, 19, g.e8, B25, 19 * B26);
  }

  method MulColumn8(f: Fe, g: Fe) returns (r: int64)
    requires Loose(Ints(f)) && Loose(Ints(g))
    ensures r as int == Product(Ints(f), Ints(g)).l8 && Within(r as int, EVEN_SUM)
  {
    r := Mul64(1, f.e0, 1, g.e8, B26, B26) + Mul64(2, f.e1, 1, g.e7, 2 * B25, B25) +
         Mul64(1, f.e2, 1, g.e6, B26, B26) + Mul64(2, f.e3, 1, g.e5, 2 * B25, B25) +
         Mul64(1, f.e4, 1, g.e4, B26, B26) + Mul64(2, f.e5, 1, g.e3, 2 * B25, B25) +
         Mul64(1, f.e6, 1, g.e2, B26, B26) + Mul64(2, f.e7, 1, g.e1, 2 * B25, B25) +
         Mul64(1, f.e8, 1, g.e0, B26, B26) + Mul64(2, f.e9, 19, g.e9, 2 * B25, 19 * B25);
  }

  method MulColumn9(f: Fe, g: Fe) returns (r: int64)
    requires Loose(Ints(f)) && Loose(Ints(g))
    ensures r as int == Product(Ints(f), Ints(g)).l9 && Within(r as int, ODD_SUM)
  {
    r := Mul64(1, f.e0, 1, g.e9, B26, B25) + Mul64(1, f.e1, 1, g.e8, B25, B26) +
         Mul64(1, f.e2, 1, g.e7, B26, B25) + Mul64(1, f.e3, 1, g.e6, B25, B26) +
         Mul64(1, f.e4, 1, g.e5, B26, B25) + Mul64(1, f.e5, 1, g.e4, B25, B26) +
         Mul64(1, f.e6, 1, g.e3, B26, B25) + Mul64(1, f.e7, 1, g.e2, B25, B26) +
         Mul64(1, f.e8, 1, g.e1, B26, B25) + Mul64(1, f.e9, 1, g.e0, B25, B26);
  }

  method SquareColumn0(f: Fe) returns (r: int64)
    requires Loose(Ints(f))
    ensures r as int == Product(Ints(f), Ints(f)).l0 && Within(r as int, EVEN_SUM)
  {
    r := Mul64(1, f.e0, 1, f.e0, B26, B26) + Mul64(2, f.e1, 38, f.e9, 2 * B25, 38 * B25) +
         Mul64(2, f.e2, 19, f.e8, 2 * B26, 19 * B26) + Mul64(2, f.e3, 38, f.e7, 2 * B25, 38 * B25) +
         Mul64(2, f.e4, 19, f.e6, 2 * B26, 19 * B26) + Mul64(1, f.e5, 38, f.e5, B25, 38 * B25);
  }

  method SquareColumn1(f: Fe) returns (r: int64)
    requires Loose(Ints(f))
    ensures r as int == Product(Ints(f), Ints(f)).l1 && Within(r as int, ODD_SUM)
  {
    r := Mul64(2, f.e0, 1, f.e1, 2 * B26, B25) + Mul64(1, f.e2, 38, f.e9, B26, 38 * B25) +
         Mul64(2, f.e3, 19, f.e8, 2 * B25, 19 * B26) + Mul64(1, f.e4, 38, f.e7, B26, 38 * B25) +
         Mul64(2, f.e5, 19, f.e6, 2 * B25, 19 * B26);
  }

  method SquareColumn2(f: Fe) returns (r: int64)
    requires Loose(Ints(f))
    ensures r as int == Product(Ints(f), Ints(f)).l2 && Within(r as int, EVEN_SUM)
  {
    r := Mul64(2, f.e0, 1, f.e2, 2 * B26, B26) + Mul64(2, f.e1, 1, f.e1, 2 * B25, B25) +
         Mul64(2, f.e3, 38, f.e9, 2 * B25, 38 * B25) + Mul64(2, f.e4, 19, f.e8, 2 * B26, 19 * B26) +
         Mul64(2, f.e5, 38, f.e7, 2 * B25, 38 * B25) + Mul64(1, f.e6, 19, f.e6, B26, 19 * B26);
  }

  method SquareColumn3(f: Fe) returns (r: int64)
    requires Loose(Ints(f))
    ensures r as int == Product(Ints(f), Ints(f)).l3 && Within(r as int, ODD_SUM)
  {
    r := Mul64(2, f.e0, 1, f.e3, 2 * B26, B25) + Mul64(2, f.e1, 1, f.e2, 2 * B25, B26) +
         Mul64(1, f.e4, 38, f.e9, B26, 38 * B25) + Mul64(2, f.e5, 19, f.e8, 2 * B25, 19 * B26) +
         Mul64(1, f.e6, 38, f.e7, B26, 38 * B25);
  }

  method SquareColumn4(f: Fe) returns (r: int64)
    requires Loose(Ints(f))
    ensures r as int == Product(Ints(f), Ints(f)).l4 && Within(r as int, EVEN_SUM)
  {
    r := Mul64(2, f.e0, 1, f.e4, 2 * B26, B26) + Mul64(2, f.e1, 2, f.e3, 2 * B25, 2 * B25) +
         Mul64(1, f.e2, 1, f.e2, B26, B26) + Mul64(2, f.e5, 38, f.e9, 2 * B25, 38 * B25) +
         Mul64(2, f.e6, 19, f.e8, 2 * B26, 19 * B26) + Mul64(1, f.e7, 38, f.e7, B25, 38 * B25);
  }

  method SquareColumn5(f: Fe) returns (r: int64)
    requires Loose(Ints(f))
    ensures r as int == Product(Ints(f), Ints(f)).l5 && Within(r as int, ODD_SUM)
  {
    r := Mul64(2, f.e0, 1, f.e5, 2 * B26, B25) + Mul64(2, f.e1, 1, f.e4, 2 * B25, B26) +
         Mul64(2, f.e2, 1, f.e3, 2 * B26, B25) + Mul64(1, f.e6, 38, f.e9, B26, 38 * B25) +
         Mul64(2, f.e7, 19, f.e8, 2 * B25, 19 * B26);
  }

  method SquareColumn6(f: Fe) returns (r: int64)
    requires Loose(Ints(f))
    ensures r as int == Product(Ints(f), Ints(f)).l6 && Within(r as int, EVEN_SUM)
  {
    r := Mul64(2, f.e0, 1, f.e6, 2 * B26, B26) + Mul64(2, f.e1, 2, f.e5, 2 * B25, 2 * B25) +
         Mul64(2, f.e2, 1, f.e4, 2 * B26, B26) + Mul64(2, f.e3, 1, f.e3, 2 * B25, B25) +
         Mul64(2, f.e7, 38, f.e9, 2 * B25, 38 * B25) + Mul64(1, f.e8, 19, f.e8, B26, 19 * B26);
  }

  method SquareColumn7(f: Fe) returns (r: int64)
    requires Loose(Ints(f))
    ensures r as int == Product(Ints(f), Ints(f)).l7 && Within(r as int, ODD_SUM)
  {
    r := Mul64(2, f.e0, 1, f.e7, 2 * B26, B25) + Mul64(2, f.e1, 1, f.e6, 2 * B25, B26) +
         Mul64(2, f.e2, 1, f.e5, 2 * B26, B25) + Mul64(2, f.e3, 1, f.e4, 2 * B25, B26) +
         Mul64(1, f.e8, 38, f.e9, B26, 38 * B25);
  }

  method SquareColumn8(f: Fe) returns (r: int64)
    requires Loose(Ints(f))
    ensures r as int == Product(Ints(f), Ints(f)).l8 && Within(r as int, EVEN_SUM)
  {
    r := Mul64(2, f.e0, 1, f.e8, 2 * B26, B26) + Mul64(2, f.e1, 2, f.e7, 2 * B25, 2 * B25) +
         Mul64(2, f.e2, 1, f.e6, 2 * B26, B26) + Mul64(2, f.e3, 2, f.e5, 2 * B25, 2 * B25) +
         Mul64(1, f.e4, 1, f.e4, B26, B26) + Mul64(1, f.e9, 38, f.e9, B25, 38 * B25);
  }

  method SquareColumn9(f: Fe) returns (r: int64)
    requires Loose(Ints(f))
    ensures r as int == Product(Ints(f), Ints(f)).l9 && Within(r as int, ODD_SUM)
  {
    r := Mul64(2, f.e0, 1, f.e9, 2 * B26, B25) + Mul64(2, f.e1, 1, f.e8, 2 * B25, B26) +
         Mul64(2, f.e2, 1, f.e7, 2 * B26, B25) + Mul64(2, f.e3, 1, f.e6, 2 * B25, B26) +
         Mul64(2, f.e4, 1, f.e5, 2 * B26, B25);
  }

  /** The carry out of an even limb: h / 2^26 rounded to nearest. */
  function Carry26(h: int64): (c: int64)
    requires Within(h as int, 0x2000_0000_0000_0000)
    ensures -0x200_0000 <= h as int - 0x400_0000 * c as int < 0x200_0000
  {
    (h + 0x200_0000) / 0x400_0000
  }

  /** The carry out of an odd limb: h / 2^25 rounded to nearest. */
  function Carry25(h: int64): (c: int64)
    requires Within(h as int, 0x2000_0000_0000_0000)
    ensures -0x100_0000 <= h as int - 0x200_0000 * c as int < 0x100_0000
  {
    (h + 0x100_0000) / 0x200_0000
  }

  // The intermediate bounds, from the comments of feMul: 1.51 * 2^58, 1.21 * 2^59, 1.52 * 2^33,
  // 1.01 * 2^24 and 1.8 * 2^37, rounded down.
  const ODD_CARRIED: int := 435227867989084733
  const EVEN_CARRIED: int := 697517510287142420
  const FOUR_AGAIN: int := 13056700579
  const ODD_AGAIN: int := 16944988
  const ZERO_AGAIN: int := 247390116249

  /** Limb k of w is bounded by the k-th number. */
  predicate Each(w: Wide, b0: int, b1: int, b2: int, b3: int, b4: int, b5: int, b6: int, b7: int, b8: int, b9: int) {
    Within(w.h0 as int, b0) && Within(w.h1 as int, b1) && Within(w.h2 as int, b2) && Within(w.h3 as int, b3)
    && Within(w.h4 as int, b4) && Within(w.h5 as int, b5) && Within(w.h6 as int, b6) && Within(w.h7 as int, b7)
    && Within(w.h8 as int, b8) && Within(w.h9 as int, b9)
  }

  /** Carries out of limbs 0 and 4. */
  method StageOne(w: Wide) returns (r: Wide)
    requires Each(w, EVEN_SUM, ODD_SUM, EVEN_SUM, ODD_SUM, EVEN_SUM, ODD_SUM, EVEN_SUM, ODD_SUM, EVEN_SUM, ODD_SUM)
    ensures Each(r, 0x200_0000, ODD_CARRIED, EVEN_SUM, ODD_SUM, 0x200_0000, ODD_CARRIED, EVEN_SUM, ODD_SUM, EVEN_SUM,
            ODD_SUM)
    ensures r.h8 == w.h8 && Value(WideInts(r)) == Value(WideInts(w))
  {
    var c0 := Carry26(w.h0);
    var c4 := Carry26(w.h4);
    r := w.(h0 := w.h0 - c0 * 0x400_0000, h1 := w.h1 + c0, h4 := w.h4 - c4 * 0x400_0000, h5 := w.h5 + c4);
    Expand(WideInts(w));
    Expand(WideInts(r));
  }

  /** Carries out of limbs 1 and 5. */
  method StageTwo(w: Wide) returns (r: Wide)
    requires Each(w, 0x200_0000, ODD_CARRIED, EVEN_SUM, ODD_SUM, 0x200_0000, ODD_CARRIED, EVEN_SUM, ODD_SUM,
             EVEN_SUM, ODD_SUM)
    ensures Each(r, 0x200_0000, 0x100_0000, EVEN_CARRIED, ODD_SUM, 0x200_0000, 0x100_0000, EVEN_CARRIED, ODD_SUM,
            EVEN_SUM, ODD_SUM)
    ensures r.h8 == w.h8 && Value(WideInts(r)) == Value(WideInts(w))
  {
    var c1 := Carry25(w.h1);
    var c5 := Carry25(w.h5);
    r := w.(h1 := w.h1 - c1 * 0x200_0000, h2 := w.h2 + c1, h5 := w.h5 - c5 * 0x200_0000, h6 := w.h6 + c5);
    Expand(WideInts(w));
    Expand(WideInts(r));
  }

  /** Carries out of limbs 2 and 6. */
  method StageThree(w: Wide) returns (r: Wide)
    requires Each(w, 0x200_0000, 0x100_0000, EVEN_CARRIED, ODD_SUM, 0x200_0000, 0x100_0000, EVEN_CARRIED, ODD_SUM,
             EVEN_SUM, ODD_SUM)
    ensures Each(r, 0x200_0000, 0x100_0000, 0x200_0000, ODD_CARRIED, 0x200_0000, 0x100_0000, 0x200_0000, ODD_CARRIED,
            EVEN_SUM, ODD_SUM)
    ensures r.h8 == w.h8 && Value(WideInts(r)) == Value(WideInts(w))
  {
    var c2 := Carry26(w.h2);
    var c6 := Carry26(w.h6);
    r := w.(h2 := w.h2 - c2 * 0x400_0000, h3 := w.h3 + c2, h6 := w.h6 - c6 * 0x400_0000, h7 := w.h7 + c6);
    Expand(WideInts(w));
    Expand(WideInts(r));
  }

  /** Carries out of limbs 3 and 7; limb 8 has not been reduced yet. */
  method StageFour(w: Wide) returns (r: Wide)
    requires Each(w, 0x200_0000, 0x100_0000, 0x200_0000, ODD_CARRIED, 0x200_0000, 0x100_0000, 0x200_0000,
             ODD_CARRIED, EVEN_SUM, ODD_SUM)
    ensures Each(r, 0x200_0000, 0x100_0000, 0x200_0000, 0x100_0000, FOUR_AGAIN, 0x100_0000, 0x200_0000, 0x100_0000,
            EVEN_CARRIED, ODD_SUM)
    ensures r.h8 == w.h8 + Carry25(w.h7) && Value(WideInts(r)) == Value(WideInts(w))
  {
    var c3 := Carry25(w.h3);
    var c7 := Carry25(w.h7);
    r := w.(h3 := w.h3 - c3 * 0x200_0000, h4 := w.h4 + c3, h7 := w.h7 - c7 * 0x200_0000, h8 := w.h8 + c7);
    Expand(WideInts(w));
    Expand(WideInts(r));
  }

  /** The second carry out of limb 4, and the one out of limb 8. */
  method StageFive(w: Wide) returns (r: Wide)
    requires Each(w, 0x200_0000, 0x100_0000, 0x200_0000, 0x100_0000, FOUR_AGAIN, 0x100_0000, 0x200_0000, 0x100_0000,
             EVEN_CARRIED, ODD_SUM)
    ensures Each(r, 0x200_0000, 0x100_0000, 0x200_0000, 0x100_0000, 0x200_0000, ODD_AGAIN, 0x200_0000, 0x100_0000,
            0x200_0000, ODD_CARRIED)
    ensures Value(WideInts(r)) == Value(WideInts(w))
  {
    var c4 := Carry26(w.h4);
    var c8 := Carry26(w.h8);
    r := w.(h4 := w.h4 - c4 * 0x400_0000, h5 := w.h5 + c4, h8 := w.h8 - c8 * 0x400_0000, h9 := w.h9 + c8);
    Expand(WideInts(w));
    Expand(WideInts(r));
  }

  /** The carry out of the top limb returns to limb 0 with weight 19. */
  method StageSix(w: Wide) returns (r: Wide)
    requires Each(w, 0x200_0000, 0x100_0000, 0x200_0000, 0x100_0000, 0x200_0000, ODD_AGAIN, 0x200_0000, 0x100_0000,
             0x200_0000, ODD_CARRIED)
    ensures Each(r, ZERO_AGAIN, 0x100_0000, 0x200_0000, 0x100_0000, 0x200_0000, ODD_AGAIN, 0x200_0000, 0x100_0000,
            0x200_0000, 0x100_0000)
    ensures Cong(Value(WideInts(r)), Value(WideInts(w)), P)
  {
    var c9 := Carry25(w.h9);
    r := w.(h0 := w.h0 + c9 * 19, h9 := w.h9 - c9 * 0x200_0000);
    Expand(WideInts(w));
    Expand(WideInts(r));
    CongMultiple(Value(WideInts(r)), Value(WideInts(w)), -(c9 as int), P);
  }

  /** The second carry out of limb 0. */
  method StageSeven(w: Wide) returns (r: Wide)
    requires Each(w, ZERO_AGAIN, 0x100_0000, 0x200_0000, 0x100_0000, 0x200_0000, ODD_AGAIN, 0x200_0000, 0x100_0000,
             0x200_0000, 0x100_0000)
    ensures Each(r, 0x200_0000, ODD_AGAIN, 0x200_0000, 0x100_0000, 0x200_0000, ODD_AGAIN, 0x200_0000, 0x100_0000,
            0x200_0000, 0x100_0000)
    ensures Value(WideInts(r)) == Value(WideInts(w))
  {
    var c0 := Carry26(w.h0);
    r := w.(h0 := w.h0 - c0 * 0x400_0000, h1 := w.h1 + c0);
    Expand(WideInts(w));
    Expand(WideInts(r));
  }

  /** The first eight carries of feMul and feSquare. */
  method CarryEight(w: Wide) returns (r: Wide)
    requires Bounded(WideInts(w), EVEN_SUM, ODD_SUM)
    ensures Each(r, 0x200_0000, 0x100_0000, 0x200_0000, 0x100_0000, FOUR_AGAIN, 0x100_0000, 0x200_0000, 0x100_0000,
            EVEN_CARRIED, ODD_SUM)
    ensures Value(WideInts(r)) == Value(WideInts(w)) && Within(r.h8 as int - w.h8 as int, FOUR_AGAIN)
  {
    r := StageOne(w);
    r := StageTwo(r);
    r := StageThree(r);
    r := StageFour(r);
  }

  /** The twelve carries of feMul and feSquare. */
  method CarryTwelve(w: Wide) returns (r: Wide)
    requires Bounded(WideInts(w), EVEN_SUM, ODD_SUM)
    ensures Tight(WideInts(r)) && Cong(Value(WideInts(r)), Value(WideInts(w)), P)
  {
    r := CarryEight(w);
    r := StageFive(r);
    r := StageSix(r);
    r := StageSeven(r);
  }

  method MulColumns(f: Fe, g: Fe) returns (w: Wide)
    requires Loose(Ints(f)) && Loose(Ints(g))
    ensures Bounded(WideInts(w), EVEN_SUM, ODD_SUM) && WideInts(w) == Product(Ints(f), Ints(g))
    ensures Value(WideInts(w)) % P == ((Value(Ints(f)) % P) * (Value(Ints(g)) % P)) % P
  {
    var h0 := MulColumn0(f, g);
    var h1 := MulColumn1(f, g);
    var h2 := MulColumn2(f, g);
    var h3 := MulColumn3(f, g);
    var h4 := MulColumn4(f, g);
    var h5 := MulColumn5(f, g);
    var h6 := MulColumn6(f, g);
    var h7 := MulColumn7(f, g);
    var h8 := MulColumn8(f, g);
    var h9 := MulColumn9(f, g);
    w := Wide(h0, h1, h2, h3, h4, h5, h6, h7, h8, h9);
    ProductResidue(Ints(f), Ints(g), WideInts(w));
  }

  /** Two operands within the bounds of feMul for which limb 8 is beyond 1.52 * 2^33 after the first eight carries. */
  method EightStaysWide() returns (f: Fe, g: Fe, w: Wide, r: Wide)
    ensures Loose(Ints(f)) && Loose(Ints(g)) && WideInts(w) == Product(Ints(f), Ints(g))
    ensures Each(r, 0x200_0000, 0x100_0000, 0x200_0000, 0x100_0000, FOUR_AGAIN, 0x100_0000, 0x200_0000, 0x100_0000,
            EVEN_CARRIED, ODD_SUM)
    ensures Value(WideInts(r)) == Value(WideInts(w)) && r.h8 as int > 300_000 * FOUR_AGAIN
  {
    f := Fe(0x400_0000, 0, 0, 0, 0, 0, 0, 0, 0, 0);
    g := Fe(0, 0, 0, 0, 0, 0, 0, 0, 0x400_0000, 0);
    w := MulColumns(f, g);
    r := CarryEight(w);
  }

  method SquareColumns(f: Fe) returns (w: Wide)
    requires Loose(Ints(f))
    ensures Bounded(WideInts(w), EVEN_SUM, ODD_SUM)
    ensures Value(WideInts(w)) % P == ((Value(Ints(f)) % P) * (Value(Ints(f)) % P)) % P
  {
    var h0 := SquareColumn0(f);
    var h1 := SquareColumn1(f);
    var h2 := SquareColumn2(f);
    var h3 := SquareColumn3(f);
    var h4 := SquareColumn4(f);
    var h5 := SquareColumn5(f);
    var h6 := SquareColumn6(f);
    var h7 := SquareColumn7(f);
    var h8 := SquareColumn8(f);
    var h9 := SquareColumn9(f);
    w := Wide(h0, h1, h2, h3, h4, h5, h6, h7, h8, h9);
    ProductResidue(Ints(f), Ints(f), WideInts(w));
  }

  // --------------------------------------------------------------------------
  // Field elements in memory
  // --------------------------------------------------------------------------

  function View(a: array<int32>): Fe
    requires a.Length == 10
    reads a
  {
    Fe(a[0], a[1], a[2], a[3], a[4], a[5], a[6], a[7], a[8], a[9])
  }

  /** The residue modulo 2^255 - 19 that a field element stands for. */
  function Residue(a: array<int32>): int
    requires a.Length == 10
    reads a
  {
    Value(Ints(View(a))) % P
  }

  method Store(h: array<int32>, w: Wide)
    requires h.Length == 10 && Tight(WideInts(w))
    modifies h
    ensures Ints(View(h)) == WideInts(w)
  {
    h[0] := w.h0 as int32; h[1] := w.h1 as int32; h[2] := w.h2 as int32; h[3] := w.h3 as int32;
    h[4] := w.h4 as int32; h[5] := w.h5 as int32; h[6] := w.h6 as int32; h[7] := w.h7 as int32;
    h[8] := w.h8 as int32; h[9] := w.h9 as int32;
  }

  /** h = f * g; h may be the same array as f or g. */
  method FeMul(h: array<int32>, f: array<int32>, g: array<int32>)
    requires h.Length == 10 && f.Length == 10 && g.Length == 10
    requires Loose(Ints(View(f))) && Loose(Ints(View(g)))
    modifies h
    ensures Tight(Ints(View(h)))
    ensures Residue(h) == old(Residue(f) * Residue(g)) % P
  {
    var x, y := View(f), View(g);
    var w := MulColumns(x, y);
    var r := CarryTwelve(w);
    Store(h, r);
  }

  /** h = f * f; h may be the same array as f. */
  method FeSquare(h: array<int32>, f: array<int32>)
    requires h.Length == 10 && f.Length == 10 && Loose(Ints(View(f)))
    modifies h
    ensures Tight(Ints(View(h)))
    ensures Residue(h) == old(Residue(f) * Residue(f)) % P
  {
    var x := View(f);
    var w := SquareColumns(x);
    var r := CarryTwelve(w);
    Store(h, r);
  }

  // 121666 times the bounds of a multiplication input.
  const SCALED_EVEN: int := 8981353703500
  const SCALED_ODD: int := 4490676851750

  /** The carries out of limbs 9, 1, 3, 5 and 7. */
  method OddCarries(w: Wide) returns (r: Wide)
    requires Bounded(WideInts(w), SCALED_EVEN, SCALED_ODD)
    ensures Bounded(WideInts(r), SCALED_EVEN + 2600000, 0x100_0000)
    ensures Cong(Value(WideInts(r)), Value(WideInts(w)), P)
  {
    var c9, c1, c3, c5, c7 := Carry25(w.h9), Carry25(w.h1), Carry25(w.h3), Carry25(w.h5), Carry25(w.h7);
    r := Wide(w.h0 + c9 * 19, w.h1 - c1 * 0x200_0000, w.h2 + c1, w.h3 - c3 * 0x200_0000, w.h4 + c3,
              w.h5 - c5 * 0x200_0000, w.h6 + c5, w.h7 - c7 * 0x200_0000, w.h8 + c7, w.h9 - c9 * 0x200_0000);
    Expand(WideInts(w));
    Expand(WideInts(r));
    CongMultiple(Value(WideInts(r)), Value(WideInts(w)), -(c9 as int), P);
  }

  /** The carries out of limbs 0, 2, 4, 6 and 8. */
  method EvenCarries(w: Wide) returns (r: Wide)
    requires Bounded(WideInts(w), SCALED_EVEN + 2600000, 0x100_0000)
    ensures Tight(WideInts(r)) && Value(WideInts(r)) == Value(WideInts(w))
  {
    var c0, c2, c4, c6, c8 := Carry26(w.h0), Carry26(w.h2), Carry26(w.h4), Carry26(w.h6), Carry26(w.h8);
    r := Wide(w.h0 - c0 * 0x400_0000, w.h1 + c0, w.h2 - c2 * 0x400_0000, w.h3 + c2, w.h4 - c4 * 0x400_0000,
              w.h5 + c4, w.h6 - c6 * 0x400_0000, w.h7 + c6, w.h8 - c8 * 0x400_0000, w.h9 + c8);
    Expand(WideInts(w));
    Expand(WideInts(r));
  }

  /** The ten carries of feMul121666 and feFromBytes. */
  method CarryTen(w: Wide) returns (r: Wide)
    requires Bounded(WideInts(w), SCALED_EVEN, SCALED_ODD)
    ensures Tight(WideInts(r)) && Cong(Value(WideInts(r)), Value(WideInts(w)), P)
  {
    r := OddCarries(w);
    r := EvenCarries(r);
  }

  /** h = 121666 f; h may be the same array as f. */
  method FeMul121666(h: array<int32>, f: array<int32>)
    requires h.Length == 10 && f.Length == 10 && Loose(Ints(View(f)))
    modifies h
    ensures Tight(Ints(View(h)))
    ensures Residue(h) == old(121666 * Residue(f)) % P
  {
    var x := View(f);
    var w := Wide(x.e0 as int64 * 121666, x.e1 as int64 * 121666, x.e2 as int64 * 121666, x.e3 as int64 * 121666,
                  x.e4 as int64 * 121666, x.e5 as int64 * 121666, x.e6 as int64 * 121666, x.e7 as int64 * 121666,
                  x.e8 as int64 * 121666, x.e9 as int64 * 121666);
    ScaleValue(121666, Ints(x));
    assert WideInts(w) == Scale(121666, Ints(x));
    var r := CarryTen(w);
    MulResidue(121666, Value(Ints(x)));
    Store(h, r);
  }

  lemma UnitValue(l: Limbs)
    requires l.l1 == 0 && l.l2 == 0 && l.l3 == 0 && l.l4 == 0 && l.l5 == 0
    requires l.l6 == 0 && l.l7 == 0 && l.l8 == 0 && l.l9 == 0 && 0 <= l.l0 <= 1
    ensures Tight(l) && Value(l) == l.l0 == Value(l) % P
  {
    Expand(l);
    var v := Value(l);
    assert v == l.l0;
    SmallMod(v, P);
  }

  method FeZero(fe: array<int32>)
    requires fe.Length == 10
    modifies fe
    ensures forall i :: 0 <= i < 10 ==> fe[i] == 0
  {
    for i := 0 to 10
      invariant forall j :: 0 <= j < i ==> fe[j] == 0
    {
      fe[i] := 0;
    }
  }

  method FeOne(fe: array<int32>)
    requires fe.Length == 10
    modifies fe
    ensures fe[0] == 1 && forall i :: 1 <= i < 10 ==> fe[i] == 0
  {
    FeZero(fe);
    fe[0] := 1;
  }

  method FeCopy(dst: array<int32>, src: array<int32>)
    requires dst.Length == 10 && src.Length == 10
    modifies dst
    ensures View(dst) == old(View(src))
  {
    for i := 0 to 10
      invariant forall j :: 0 <= j < i ==> dst[j] == old(src[j])
      invariant forall j :: i <= j < 10 ==> src[j] == old(src[j])
    {
      dst[i] := src[i];
    }
  }

  ghost predicate Small(a: array<int32>)
    reads a
  {
    a.Length == 10 && forall i :: 0 <= i < 10 ==> Within(a[i] as int, B25)
  }

  method AddLimbs(dst: array<int32>, a: array<int32>, b: array<int32>)
    requires dst.Length == 10 && Small(a) && Small(b)
    modifies dst
    ensures Ints(View(dst)) == Add(old(Ints(View(a))), old(Ints(View(b))))
  {
    for i := 0 to 10
      invariant forall j :: 0 <= j < i ==> dst[j] as int == old(a[j] as int) + old(b[j] as int)
      invariant forall j :: i <= j < 10 ==> a[j] == old(a[j]) && b[j] == old(b[j])
    {
      dst[i] := a[i] + b[i];
    }
  }

  method SubLimbs(dst: array<int32>, a: array<int32>, b: array<int32>)
    requires dst.Length == 10 && Small(a) && Small(b)
    modifies dst
    ensures Ints(View(dst)) == Add(old(Ints(View(a))), Scale(-1, old(Ints(View(b)))))
  {
    for i := 0 to 10
      invariant forall j :: 0 <= j < i ==> dst[j] as int == old(a[j] as int) - old(b[j] as int)
      invariant forall j :: i <= j < 10 ==> a[j] == old(a[j]) && b[j] == old(b[j])
    {
      dst[i] := a[i] - b[i];
    }
  }

  lemma AddResidue(a: int, b: int)
    ensures (a + b) % P == (a % P + b % P) % P && (a - b) % P == (a % P - b % P) % P
  {
    CongAdd(a, a % P, b, b % P, P);
  }

  lemma SumBounds(x: Limbs, y: Limbs)
    requires Tight(x) && Tight(y)
    ensures Loose(Add(x, y)) && Loose(Add(x, Scale(-1, y)))
  {
  }

  lemma SumValues(x: Limbs, y: Limbs)
    ensures Value(Add(x, y)) == Value(x) + Value(y)
    ensures Value(Add(x, Scale(-1, y))) == Value(x) - Value(y)
  {
    AddValue(x, y);
    ScaleValue(-1, y);
    AddValue(x, Scale(-1, y));
  }

  /** dst = a + b without carrying; dst may be the same array as a or b. */
  method FeAdd(dst: array<int32>, a: array<int32>, b: array<int32>)
    requires dst.Length == 10 && a.Length == 10 && b.Length == 10
    requires Tight(Ints(View(a))) && Tight(Ints(View(b)))
    modifies dst
    ensures Loose(Ints(View(dst)))
    ensures Residue(dst) == old(Residue(a) + Residue(b)) % P
  {
    ghost var x, y := Ints(View(a)), Ints(View(b));
    AddLimbs(dst, a, b);
    SumBounds(x, y);
    SumValues(x, y);
    AddResidue(Value(x), Value(y));
  }

  /** dst = a - b without carrying; dst may be the same array as a or b. */
  method FeSub(dst: array<int32>, a: array<int32>, b: array<int32>)
    requires dst.Length == 10 && a.Length == 10 && b.Length == 10
    requires Tight(Ints(View(a))) && Tight(Ints(View(b)))
    modifies dst
    ensures Loose(Ints(View(dst)))
    ensures Residue(dst) == old(Residue(a) - Residue(b)) % P
  {
    ghost var x, y := Ints(View(a)), Ints(View(b));
    SubLimbs(dst, a, b);
    SumBounds(x, y);
    SumValues(x, y);
    AddResidue(Value(x), Value(y));
  }

  /** The two's complement bit pattern of a 32-bit integer, and its inverse. */
  function Pattern(x: int32): nat { x as int % 0x1_0000_0000 }

  function Signed(u: nat): int32
    requires u < 0x1_0000_0000
  {
    if u < 0x8000_0000 then u as int32 else (u - 0x1_0000_0000) as int32
  }

  lemma Two32()
    ensures Pow(2, 32) == 0x1_0000_0000
  {
    assert Pow(2, 8) == 0x100;
    PowAdd(2, 8, 8);
    PowAdd(2, 16, 16);
  }

  function Xor32(a: int32, b: int32): int32 {
    Two32();
    XorBound(Pattern(a), Pattern(b), 32);
    Signed(Xor(Pattern(a), Pattern(b)))
  }

  function And32(a: int32, b: int32): int32 {
    var r := And(Pattern(a), Pattern(b));
    AndBound(Pattern(a), Pattern(b));
    Signed(r)
  }

  lemma SignedPattern(x: int32, u: nat)
    requires u < 0x1_0000_0000
    ensures Signed(Pattern(x)) == x && Pattern(Signed(u)) == u
  {
  }

  lemma XorPattern(f: int32, g: int32)
    ensures Pattern(Xor32(f, g)) == Xor(Pattern(f), Pattern(g))
  {
    Two32();
    XorBound(Pattern(f), Pattern(g), 32);
    SignedPattern(f, Xor(Pattern(f), Pattern(g)));
  }

  /** The mask 0 clears, and the mask -1 keeps, every bit. */
  lemma Masked(x: int32)
    ensures And32(0, x) == 0 && And32(-1, x) == x
  {
    Two32();
    AndMask(Pattern(x), 32);
    SignedPattern(x, 0);
  }

  /** Adding the difference exchanges two words; adding zero keeps one. */
  lemma Exchange(f: int32, g: int32)
    ensures Xor32(f, 0) == f && Xor32(f, Xor32(f, g)) == g
  {
    XorPattern(f, g);
    XorZero(Pattern(f));
    XorCancel(Pattern(f), Pattern(g));
    SignedPattern(f, 0);
    SignedPattern(g, 0);
  }

  lemma XorSymmetric(f: int32, g: int32)
    ensures Xor32(f, g) == Xor32(g, f)
  {
    XorCommutes(Pattern(f), Pattern(g));
  }

  method MaskedDifference(f: array<int32>, g: array<int32>, mask: int32) returns (x: array<int32>)
    requires f.Length == 10 && g.Length == 10
    ensures fresh(x) && x.Length == 10
    ensures forall j :: 0 <= j < 10 ==> x[j] == And32(mask, Xor32(f[j], g[j]))
  {
    x := new int32[10];
    for i := 0 to 10
      invariant forall j :: 0 <= j < i ==> x[j] == And32(mask, Xor32(f[j], g[j]))
    {
      x[i] := And32(mask, Xor32(f[i], g[i]));
    }
  }

  method XorInto(f: array<int32>, x: array<int32>)
    requires f.Length == 10 && x.Length == 10 && f != x
    modifies f
    ensures forall j :: 0 <= j < 10 ==> f[j] == Xor32(old(f[j]), x[j])
  {
    for i := 0 to 10
      invariant forall j :: 0 <= j < i ==> f[j] == Xor32(old(f[j]), x[j])
      invariant forall j :: i <= j < 10 ==> f[j] == old(f[j])
    {
      f[i] := Xor32(f[i], x[i]);
    }
  }

  /** Exchanges f and g when b is 1 and leaves them when b is 0, without branching. */
  method FeCSwap(f: array<int32>, g: array<int32>, b: int32)
    requires f.Length == 10 && g.Length == 10 && (b == 0 || b == 1)
    modifies f, g
    ensures b == 0 ==> View(f) == old(View(f)) && View(g) == old(View(g))
    ensures b == 1 ==> View(f) == old(View(g)) && View(g) == old(View(f))
  {
    var x := MaskedDifference(f, g, -b);
    forall j | 0 <= j < 10
      ensures Xor32(f[j], x[j]) == (if b == 0 then f[j] else g[j])
      ensures Xor32(g[j], x[j]) == (if b == 0 then g[j] else f[j])
    {
      Masked(Xor32(f[j], g[j]));
      Exchange(f[j], g[j]);
      Exchange(g[j], f[j]);
      XorSymmetric(f[j], g[j]);
    }
    XorInto(f, x);
    XorInto(g, x);
  }
}
