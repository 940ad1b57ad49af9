/**
 What the ladder of curve25519 is for: on the curves B y^2 = x^3 + 486662 x^2 + x it takes the coordinate
 of a point to the coordinate of a multiple of it.  The ladder is followed in any prime field, and then
 modulo 2^255 - 19.
 */
module CurveLadder {
  import opened Modular
  import opened Primes
  import opened Bits
  import opened ByteSeqs
  import opened MontgomeryCurve
  import Field25519
  import Ladder25519 = Curve25519

  const COEFFICIENT: int := 486662

  /** The curves with this coefficient, over any prime field: B chooses between a curve and its twist. */
  ghost predicate LadderCurve(e: Curve) {
    CurveOk(e) && e.a == COEFFICIENT
  }

  // --------------------------------------------------------------------------
  // One step
  // --------------------------------------------------------------------------

  /** The step of section 5 of RFC 7748 in any modulus, with the names that the RFC gives. */
  lemma StepDouble(p: nat, X: int, Z: int, a: int, b: int, aa: int, bb: int, e: int)
    requires p > 0 && Cong(a, X + Z, p) && Cong(b, X - Z, p)
    requires Cong(aa, a * a, p) && Cong(bb, b * b, p) && Cong(e, aa - bb, p)
    ensures Cong(aa * bb, DoubleX(X, Z), p) && Cong(e * (aa + 121665 * e), DoubleZ(COEFFICIENT, X, Z), p)
  {
    var s, d, f := (X + Z) * (X + Z), (X - Z) * (X - Z), 4 * (X * Z);
    CongMul(a, X + Z, a, X + Z, p);
    CongMul(b, X - Z, b, X - Z, p);
    CongMul(aa, s, bb, d, p);
    CongAdd(aa, s, bb, d, p);
    FourTimes(X, Z);
    CongMul(121665, 121665, e, f, p);
    CongAdd(aa, s, 121665 * e, 121665 * f, p);
    CongMul(e, f, aa + 121665 * e, s + 121665 * f, p);
    DoubleForms(X, Z);
  }

  lemma FourTimes(X: int, Z: int)
    ensures (X + Z) * (X + Z) - (X - Z) * (X - Z) == 4 * (X * Z)
  {
  }

  lemma DoubleForms(X: int, Z: int)
    ensures ((X + Z) * (X + Z)) * ((X - Z) * (X - Z)) == DoubleX(X, Z)
    ensures (4 * (X * Z)) * ((X + Z) * (X + Z) + 121665 * (4 * (X * Z))) == DoubleZ(COEFFICIENT, X, Z)
  {
    Exchange(X + Z, X + Z, X - Z, X - Z);
    assert (X + Z) * (X - Z) == X * X - Z * Z;
    var k := X * Z;
    assert (X + Z) * (X + Z) + 121665 * (4 * k) == X * X + COEFFICIENT * k + Z * Z;
    MulAssoc(4, k, X * X + COEFFICIENT * k + Z * Z);
  }

  lemma StepSum(p: nat, u: int, X: int, Z: int, U: int, V: int, da: int, cb: int, sum: int, diff: int)
    requires p > 0 && Cong(da, (U - V) * (X + Z), p) && Cong(cb, (U + V) * (X - Z), p)
    requires Cong(sum, da + cb, p) && Cong(diff, da - cb, p)
    ensures Cong(sum * sum, SumX(X, Z, U, V), p) && Cong(u * (diff * diff), SumZ(u, X, Z, U, V), p)
  {
    var m, n := X * U - Z * V, U * Z - V * X;
    CongAdd(da, (U - V) * (X + Z), cb, (U + V) * (X - Z), p);
    SumForms(X, Z, U, V);
    CongMul(sum, 2 * m, sum, 2 * m, p);
    CongMul(diff, 2 * n, diff, 2 * n, p);
    TwiceSquare(m);
    TwiceSquare(n);
    CongMul(u, u, diff * diff, 4 * (n * n), p);
  }

  lemma SumForms(X: int, Z: int, U: int, V: int)
    ensures (U - V) * (X + Z) + (U + V) * (X - Z) == 2 * (X * U - Z * V)
    ensures (U - V) * (X + Z) - (U + V) * (X - Z) == 2 * (U * Z - V * X)
  {
  }

  lemma TwiceSquare(m: int)
    ensures (2 * m) * (2 * m) == 4 * (m * m)
  {
  }

  lemma DoubleReduced(p: nat, X: int, Z: int)
    requires p > 0
    ensures var a, b := (X + Z) % p, (X - Z) % p;
            var aa, bb := (a * a) % p, (b * b) % p;
            var e := (aa - bb) % p;
            && Cong((aa * bb) % p, DoubleX(X, Z), p)
            && Cong((e * ((aa + (121665 * e) % p) % p)) % p, DoubleZ(COEFFICIENT, X, Z), p)
  {
    hide DoubleX, DoubleZ;
    var a, b := (X + Z) % p, (X - Z) % p;
    var aa, bb := (a * a) % p, (b * b) % p;
    var e := (aa - bb) % p;
    CongMod(X + Z, p);
    CongMod(X - Z, p);
    CongMod(a * a, p);
    CongMod(b * b, p);
    CongMod(aa - bb, p);
    StepDouble(p, X, Z, a, b, aa, bb, e);
    CongMod(aa * bb, p);
    LastProducts(p, 0, aa, e, 0);
  }

  lemma SumReduced(p: nat, u: int, X: int, Z: int, U: int, V: int)
    requires p > 0
    ensures var a, b, c, d := (X + Z) % p, (X - Z) % p, (U + V) % p, (U - V) % p;
            var da, cb := (d * a) % p, (c * b) % p;
            var sum, diff := (da + cb) % p, (da - cb) % p;
            && Cong((sum * sum) % p, SumX(X, Z, U, V), p)
            && Cong((u * ((diff * diff) % p)) % p, SumZ(u, X, Z, U, V), p)
  {
    hide SumX, SumZ;
    var a, b, c, d := (X + Z) % p, (X - Z) % p, (U + V) % p, (U - V) % p;
    var da, cb := (d * a) % p, (c * b) % p;
    var sum, diff := (da + cb) % p, (da - cb) % p;
    CongMod(X + Z, p);
    CongMod(X - Z, p);
    CongMod(U + V, p);
    CongMod(U - V, p);
    CongMod(d * a, p);
    CongMod(c * b, p);
    CongMul(d, U - V, a, X + Z, p);
    CongMul(c, U + V, b, X - Z, p);
    CongMod(da + cb, p);
    CongMod(da - cb, p);
    StepSum(p, u, X, Z, U, V, da, cb, sum, diff);
    CongMod(sum * sum, p);
    LastProducts(p, u, 0, 0, diff);
  }

  /** The step of the ladder in any modulus. */
  function StepModulo(p: nat, u: int, s: Ladder25519.Points): Ladder25519.Points
    requires p > 0
  {
    var a, b, c, d := (s.x2 + s.z2) % p, (s.x2 - s.z2) % p, (s.x3 + s.z3) % p, (s.x3 - s.z3) % p;
    var aa, bb, da, cb := (a * a) % p, (b * b) % p, (d * a) % p, (c * b) % p;
    var e, sum, diff := (aa - bb) % p, (da + cb) % p, (da - cb) % p;
    Ladder25519.Points((aa * bb) % p, (e * ((aa + (121665 * e) % p) % p)) % p,
                       (sum * sum) % p, (u * ((diff * diff) % p)) % p)
  }

  /** The step computes the projective formulas. */
  lemma StepForms(p: nat, u: int, s: Ladder25519.Points)
    requires p > 0
    ensures var t := StepModulo(p, u, s);
            && Cong(t.x2, DoubleX(s.x2, s.z2), p) && Cong(t.z2, DoubleZ(COEFFICIENT, s.x2, s.z2), p)
            && Cong(t.x3, SumX(s.x2, s.z2, s.x3, s.z3), p) && Cong(t.z3, SumZ(u, s.x2, s.z2, s.x3, s.z3), p)
  {
    hide DoubleX, DoubleZ, SumX, SumZ, Cong;
    DoubleReduced(p, s.x2, s.z2);
    SumReduced(p, u, s.x2, s.z2, s.x3, s.z3);
  }

  /** The reductions inside the last two products. */
  lemma LastProducts(p: nat, u: int, aa: int, e: int, diff: int)
    requires p > 0
    ensures Cong((e * ((aa + (121665 * e) % p) % p)) % p, e * (aa + 121665 * e), p)
    ensures Cong((u * ((diff * diff) % p)) % p, u * (diff * diff), p)
  {
    var f, g := (121665 * e) % p, (diff * diff) % p;
    CongMod(121665 * e, p);
    CongAdd(aa, aa, f, 121665 * e, p);
    CongMod(aa + f, p);
    CongMul(e, e, (aa + f) % p, aa + 121665 * e, p);
    CongMod(e * ((aa + f) % p), p);
    CongMod(diff * diff, p);
    CongMul(u, u, g, diff * diff, p);
    CongMod(u * g, p);
  }

  // --------------------------------------------------------------------------
  // The multiples of a point
  // --------------------------------------------------------------------------

  /** m |-> m Q for a finite point Q: what takes sums of integers to sums of points of the curve. */
  ghost predicate Multiples(e: Curve, q: int -> Point)
    requires e.p > 2
  {
    && q(0) == Infinity && q(1).Affine?
    && (forall m :: OnCurve(e, q(m)))
    && (forall m, n :: q(m + n) == Add(e, q(m), q(n)))
  }

  /** For example, the multiples of the point with coordinate zero. */
  function TwoCycle(m: int): Point {
    if m % 2 == 0 then Infinity else Affine(0, 0)
  }

  lemma OrderTwo(e: Curve)
    requires CurveOk(e)
    ensures Multiples(e, TwoCycle)
  {
    hide Add, Prime, TwoCycle, OnCurve;
    CycleStart();
    forall m
      ensures OnCurve(e, TwoCycle(m))
    {
      CycleSum(e, m, 0);
    }
    forall m, n
      ensures TwoCycle(m + n) == Add(e, TwoCycle(m), TwoCycle(n))
    {
      CycleSum(e, m, n);
    }
  }

  lemma CycleStart()
    ensures TwoCycle(0) == Infinity && TwoCycle(1) == Affine(0, 0)
  {
  }

  lemma CycleSum(e: Curve, m: int, n: int)
    requires e.p > 2
    ensures OnCurve(e, TwoCycle(m)) && TwoCycle(m + n) == Add(e, TwoCycle(m), TwoCycle(n))
  {
    hide Third, F;
    ZeroValue(e.a);
  }

  lemma Opposites(e: Curve, q: int -> Point, m: int)
    requires e.p > 2 && Multiples(e, q)
    ensures q(-m) == Neg(e, q(m))
  {
    hide Add, Neg, OnCurve;
    assert q(m + (-m)) == Add(e, q(m), q(-m));
    SumToNothing(e, q(m), q(-m));
  }

  lemma SumToNothing(e: Curve, q: Point, r: Point)
    requires e.p > 2 && OnCurve(e, q) && OnCurve(e, r) && Add(e, q, r) == Infinity
    ensures r == Neg(e, q)
  {
    hide Third, F;
    if q.Affine? {
      OppositeResidue(e.p, q.y, r.y);
    }
  }

  lemma OppositeResidue(p: nat, y: nat, z: nat)
    requires y < p && z < p && (y + z) % p == 0
    ensures z == (0 - y) % p
  {
    CongDifference(z, 0 - y, p);
    SmallResidue(z, p);
  }

  lemma Differences(e: Curve, q: int -> Point, m: int, n: int)
    requires e.p > 2 && Multiples(e, q)
    ensures q(n - m) == Add(e, q(n), Neg(e, q(m)))
  {
    hide Add, Neg;
    Opposites(e, q, m);
    assert q(n + (-m)) == Add(e, q(n), q(-m));
  }

  lemma SameResidues(e: Curve, X: int, Z: int, U: int, V: int, q: Point)
    requires e.p > 0 && Cong(X, U, e.p) && Cong(Z, V, e.p) && Represents(e, U, V, q)
    ensures Represents(e, X, Z, q)
  {
    if q.Affine? {
      CongMul(q.x, q.x, Z, V, e.p);
    }
  }

  ghost predicate Holds(e: Curve, s: Ladder25519.Points, q: Point, r: Point)
    requires e.p > 0
  {
    Represents(e, s.x2, s.z2, q) && Represents(e, s.x3, s.z3, r)
  }

  /** A step doubles the first point and adds the second to it, if they are neighbours. */
  lemma StepMultiplies(e: Curve, q: int -> Point, u: nat, s: Ladder25519.Points, m: int, n: int)
    requires LadderCurve(e) && Multiples(e, q) && Holds(e, s, q(m), q(n))
    requires u % e.p != 0 && q(1).x == u && (n - m == 1 || n - m == -1)
    ensures Holds(e, StepModulo(e.p, u, s), q(m + m), q(m + n))
  {
    hide CurveOk, Represents, DoubleX, DoubleZ, SumX, SumZ, Add, OnCurve, StepModulo;
    PrimeAbove(e);
    var t := StepModulo(e.p, u, s);
    StepForms(e.p, u, s);
    assert q(m + m) == Add(e, q(m), q(m)) && q(m + n) == Add(e, q(m), q(n));
    DoubleRepresents(e, s.x2, s.z2, q(m));
    SameResidues(e, t.x2, t.z2, DoubleX(s.x2, s.z2), DoubleZ(COEFFICIENT, s.x2, s.z2), q(m + m));
    Neighbours(e, q, m, n);
    SumRepresents(e, u, s.x2, s.z2, s.x3, s.z3, q(m), q(n));
    SameResidues(e, t.x3, t.z3, SumX(s.x2, s.z2, s.x3, s.z3), SumZ(u, s.x2, s.z2, s.x3, s.z3), q(m + n));
  }

  lemma PrimeAbove(e: Curve)
    requires CurveOk(e)
    ensures Prime(e.p) && e.p > 2
  {
  }

  lemma Neighbours(e: Curve, q: int -> Point, m: int, n: int)
    requires e.p > 2 && Multiples(e, q) && (n - m == 1 || n - m == -1)
    ensures var d := Add(e, q(n), Neg(e, q(m))); d.Affine? && d.x == q(1).x
  {
    hide Add;
    Differences(e, q, m, n);
    Opposites(e, q, 1);
  }

  // --------------------------------------------------------------------------
  // All steps
  // --------------------------------------------------------------------------

  /** The coordinate of a point, with zero for infinity. */
  function Coordinate(q: Point): nat {
    if q.Infinity? then 0 else q.x
  }

  lemma Halved(k: nat, t: nat)
    ensures Ladder25519.Shr(k, t + 1) == Ladder25519.Shr(k, t) / 2
  {
    Ladder25519.ShrAdd(k, t, 1);
    assert Ladder25519.Shr(Ladder25519.Shr(k, t), 1) == Ladder25519.Shr(k, t) / 2;
  }

  /** The ladder in any modulus. */
  function LadderModulo(p: nat, k: nat, u: int, t: nat): Ladder25519.Points
    requires p > 0
    decreases 255 - t
  {
    if t >= 255 then Ladder25519.Points(1, 0, u, 1) else
    var b := Ladder25519.Shr(k, t) % 2;
    Ladder25519.SwapIf(StepModulo(p, u, Ladder25519.SwapIf(LadderModulo(p, k, u, t + 1), b)), b)
  }

  function XModulo(p: nat, k: nat, u: int): int
    requires p > 2
  {
    var s := LadderModulo(p, k, u, 0);
    (s.x2 * (Pow(s.z2, p - 2) % p)) % p
  }

  /** After the bits of k down to t the ladder holds the multiple that they spell, and the next one. */
  lemma {:induction false} LadderHolds(e: Curve, q: int -> Point, u: nat, k: nat, t: nat)
    requires LadderCurve(e) && Multiples(e, q)
    requires u % e.p != 0 && q(1).x == u && t <= 255 && Ladder25519.Shr(k, 255) == 0
    ensures var m := Ladder25519.Shr(k, t); Holds(e, LadderModulo(e.p, k, u, t), q(m), q(m + 1))
    decreases 255 - t
  {
    hide CurveOk, Multiples, Ladder25519.Shr, StepModulo, Represents;
    PrimeAbove(e);
    if t == 255 {
      LadderStart(e, q, u);
    } else {
      LadderHolds(e, q, u, k, t + 1);
      Halved(k, t);
      var m, c := Ladder25519.Shr(k, t + 1), Ladder25519.Shr(k, t) % 2;
      var s := LadderModulo(e.p, k, u, t + 1);
      if c == 0 {
        StepMultiplies(e, q, u, s, m, m + 1);
      } else {
        StepMultiplies(e, q, u, Ladder25519.SwapIf(s, 1), m + 1, m);
      }
    }
  }

  lemma LadderStart(e: Curve, q: int -> Point, u: nat)
    requires CurveOk(e) && Multiples(e, q) && q(1).x == u
    ensures Holds(e, Ladder25519.Points(1, 0, u, 1), q(0), q(1))
  {
    hide Prime, Add, OnCurve;
    SmallResidue(1, e.p);
  }

  /** The division at the end. */
  lemma Quotient(e: Curve, X: int, Z: int, q: Point)
    requires Prime(e.p) && e.p > 2 && OnCurve(e, q) && Represents(e, X, Z, q)
    ensures (X * (Pow(Z, e.p - 2) % e.p)) % e.p == Coordinate(q)
  {
    hide Prime, Pow, F;
    if q.Infinity? {
      NoQuotient(e.p, X, Z);
    } else {
      QuotientCong(e.p, X, Z, q.x);
    }
  }

  lemma NoQuotient(p: nat, X: int, Z: int)
    requires p > 2 && Z % p == 0
    ensures (X * (Pow(Z, p - 2) % p)) % p == 0
  {
    PowCong(Z, 0, p - 2, p);
    assert Pow(0, p - 2) == 0 * Pow(0, p - 3);
    assert Pow(Z, p - 2) % p == 0;
    assert X * 0 == 0;
  }

  lemma QuotientCong(p: nat, X: int, Z: int, x: nat)
    requires Prime(p) && p > 2 && x < p && Z % p != 0 && Cong(X, x * Z, p)
    ensures (X * (Pow(Z, p - 2) % p)) % p == x
  {
    hide Prime, Pow;
    InverseLaw(p, Z);
    CongMod(Z, p);
    PowCong(Z, Z % p, p - 2, p);
    var i := Pow(Z, p - 2) % p;
    CongMul(X, x * Z, i, i, p);
    CongMul(x, x, Z * i, 1, p);
    MulAssoc(x, Z, i);
    SmallResidue(x, p);
  }

  /** With coordinate zero, nothing but zeros comes out. */
  lemma {:induction false} ZeroLadder(p: nat, k: nat, t: nat)
    requires p > 0 && t <= 255
    ensures var s := LadderModulo(p, k, 0, t);
            (s.x2 * s.z2) % p == 0 && (s.x3 * s.z3) % p == 0 && (t < 255 ==> s.z2 % p == 0)
    decreases 255 - t
  {
    hide Ladder25519.Shr, StepModulo;
    if t < 255 {
      ZeroLadder(p, k, t + 1);
      var s, c := LadderModulo(p, k, 0, t + 1), Ladder25519.Shr(k, t) % 2;
      ZeroStep(p, Ladder25519.SwapIf(s, c));
    }
  }

  lemma ZeroStep(p: nat, s: Ladder25519.Points)
    requires p > 0 && (s.x2 * s.z2) % p == 0
    ensures var t := StepModulo(p, 0, s);
            t.z2 % p == 0 && t.z3 % p == 0 && (t.x2 * t.z2) % p == 0 && (t.x3 * t.z3) % p == 0
  {
    hide StepModulo;
    var t := StepModulo(p, 0, s);
    StepForms(p, 0, s);
    var k := s.x2 * s.z2;
    ZeroTimes(p, k, s.x2 * s.x2 + COEFFICIENT * k + s.z2 * s.z2);
    ZeroTimes(p, k * (s.x2 * s.x2 + COEFFICIENT * k + s.z2 * s.z2), 4);
    ZeroTimes(p, t.z2, t.x2);
    ZeroTimes(p, t.z3, t.x3);
  }

  /** The point with coordinate zero is its own opposite. */
  lemma {:induction false} ZeroMultiples(e: Curve, q: int -> Point, m: nat)
    requires CurveOk(e) && Multiples(e, q) && q(1).x == 0
    ensures q(m) == Infinity || q(m) == Affine(0, 0)
  {
    hide Prime, Add, OnCurve;
    if m > 0 {
      ZeroMultiples(e, q, m - 1);
      assert q((m - 1) + 1) == Add(e, q(m - 1), q(1));
      ZeroPoint(e, q(1));
      ZeroSum(e, q(m - 1));
    }
  }

  lemma ZeroSum(e: Curve, r: Point)
    requires e.p > 2 && (r == Infinity || r == Affine(0, 0))
    ensures var s := Add(e, r, Affine(0, 0)); s == Infinity || s == Affine(0, 0)
  {
    hide Third;
  }

  lemma ZeroPoint(e: Curve, r: Point)
    requires CurveOk(e) && OnCurve(e, r) && r.Affine? && r.x == 0
    ensures r.y == 0
  {
    hide Prime, F;
    ZeroValue(e.a);
    if r.y != 0 {
      SmallResidue(r.y, e.p);
      NonZero(e.p, r.y, r.y);
      NonZero(e.p, e.b, r.y * r.y);
    }
  }

  lemma ZeroValue(a: int)
    ensures F(a, 0) == 0
  {
  }

  /**
   The ladder multiplies: for every point of the curve or its twist with the coordinate u, and every k of
   255 bits, it gives the coordinate of the k-th multiple, and zero for infinity.
   */
  lemma LadderMultiplies(e: Curve, q: int -> Point, k: nat)
    requires LadderCurve(e) && Multiples(e, q) && Ladder25519.Shr(k, 255) == 0
    ensures XModulo(e.p, k, q(1).x) == Coordinate(q(k))
  {
    hide Prime, Represents, F, Add, Pow, LadderModulo;
    var u := q(1).x;
    assert OnCurve(e, q(1)) && OnCurve(e, q(k));
    SmallResidue(u, e.p);
    var s := LadderModulo(e.p, k, u, 0);
    assert Ladder25519.Shr(k, 0) == k;
    if u == 0 {
      ZeroMultiples(e, q, k);
      ZeroOut(e.p, k);
    } else {
      LadderHolds(e, q, u, k, 0);
      Quotient(e, s.x2, s.z2, q(k));
    }
  }

  lemma ZeroOut(p: nat, k: nat)
    requires p > 2
    ensures XModulo(p, k, 0) == 0
  {
    hide Pow, LadderModulo;
    var s := LadderModulo(p, k, 0, 0);
    ZeroLadder(p, k, 0);
    NoQuotient(p, s.x2, s.z2);
  }

  // --------------------------------------------------------------------------
  // Agreement
  // --------------------------------------------------------------------------

  function Scaled(q: int -> Point, k: int): int -> Point {
    m => q(k * m)
  }

  /** The multiples of a finite multiple. */
  lemma ScaledMultiples(e: Curve, q: int -> Point, k: int)
    requires e.p > 2 && Multiples(e, q) && q(k).Affine?
    ensures Multiples(e, Scaled(q, k))
  {
    hide Add, OnCurve;
    var r := Scaled(q, k);
    assert r(0) == q(k * 0) && k * 0 == 0 && r(1) == q(k * 1) && k * 1 == k;
    forall m, n
      ensures r(m + n) == Add(e, r(m), r(n))
    {
      assert k * (m + n) == k * m + k * n;
      assert q(k * m + k * n) == Add(e, q(k * m), q(k * n));
    }
  }

  lemma {:induction false} NothingMultiplied(e: Curve, q: int -> Point, k: int, j: nat)
    requires e.p > 2 && Multiples(e, q) && q(k).Infinity?
    ensures q(k * j).Infinity?
  {
    hide Add, OnCurve;
    if j == 0 {
      assert k * j == 0;
    } else {
      NothingMultiplied(e, q, k, j - 1);
      assert k * j == k * (j - 1) + k;
      assert q(k * (j - 1) + k) == Add(e, q(k * (j - 1)), q(k));
      NothingAdded(e);
    }
  }

  lemma NothingAdded(e: Curve)
    requires e.p > 2
    ensures Add(e, Infinity, Infinity) == Infinity
  {
  }

  /** Multiplying a multiple. */
  lemma TwiceMultiplied(e: Curve, q: int -> Point, k: nat, j: nat)
    requires LadderCurve(e) && Multiples(e, q) && Ladder25519.Shr(k, 255) == 0 && Ladder25519.Shr(j, 255) == 0
    ensures XModulo(e.p, j, XModulo(e.p, k, q(1).x)) == Coordinate(q(k * j))
  {
    hide Multiples, XModulo, Ladder25519.Shr, Prime;
    LadderMultiplies(e, q, k);
    if q(k).Affine? {
      ScaledMultiples(e, q, k);
      LadderMultiplies(e, Scaled(q, k), j);
      assert k * 1 == k;
    } else {
      NothingMultiplied(e, q, k, j);
      ZeroOut(e.p, j);
    }
  }

  // --------------------------------------------------------------------------
  // curve25519
  // --------------------------------------------------------------------------

  lemma LadderIsModulo(u: int, s: Ladder25519.Points)
    ensures Ladder25519.LadderStep(u, s) == StepModulo(Field25519.P, u, s)
  {
  }

  lemma {:induction false} SameLadder(k: nat, u: int, t: nat)
    ensures Ladder25519.Ladder(k, u, t) == LadderModulo(Field25519.P, k, u, t)
    decreases 255 - t
  {
    hide StepModulo, Ladder25519.LadderStep, Ladder25519.Shr;
    if t < 255 {
      SameLadder(k, u, t + 1);
      LadderIsModulo(u, Ladder25519.SwapIf(Ladder25519.Ladder(k, u, t + 1), Ladder25519.Shr(k, t) % 2));
    }
  }

  /** The function that curve25519 computes is this ladder modulo 2^255 - 19. */
  lemma X25519IsModulo(k: nat, u: int)
    ensures Ladder25519.X25519(k, u) == XModulo(Field25519.P, k, u)
  {
    hide Ladder25519.Ladder, LadderModulo, Pow;
    SameLadder(k, u, 0);
  }

  lemma {:induction false} TwoAdd(m: nat, n: nat)
    ensures Two(m + n) == Two(m) * Two(n)
  {
    if m > 0 {
      TwoAdd(m - 1, n);
      MulAssoc(2, Two(m - 1), Two(n));
    }
  }

  lemma PrimeForm()
    ensures Field25519.P == Two(255) - 19
  {
    assert Two(4) == 16 && Two(256) == 2 * Two(255);
    hide Two;
    TwoSquared(4, 16);
    TwoSquared(8, 0x100);
    TwoSquared(16, 0x1_0000);
    TwoSquared(32, 0x1_0000_0000);
    TwoSquared(64, 0x1_0000_0000_0000_0000);
    TwoSquared(128, 0x1_0000_0000_0000_0000_0000_0000_0000_0000);
  }

  lemma TwoSquared(n: nat, v: nat)
    requires Two(n) == v
    ensures Two(n + n) == v * v
  {
    TwoAdd(n, n);
  }

  /** Two parties who multiply each other's multiple of a point get the same. */
  lemma Agreement(e: Curve, q: int -> Point, k: nat, j: nat)
    requires LadderCurve(e) && e.p == Two(255) - 19 && Multiples(e, q)
    requires Ladder25519.Shr(k, 255) == 0 && Ladder25519.Shr(j, 255) == 0
    ensures var u := q(1).x;
            Ladder25519.X25519(j, Ladder25519.X25519(k, u)) == Ladder25519.X25519(k, Ladder25519.X25519(j, u))
  {
    var u := q(1).x;
    hide CurveOk, Multiples, XModulo, Ladder25519.X25519, Ladder25519.Shr, Two;
    PrimeForm();
    X25519IsModulo(k, u);
    X25519IsModulo(j, u);
    X25519IsModulo(j, Ladder25519.X25519(k, u));
    X25519IsModulo(k, Ladder25519.X25519(j, u));
    TwiceMultiplied(e, q, k, j);
    TwiceMultiplied(e, q, j, k);
    assert k * j == j * k;
  }

  /** ScalarMult takes the coordinate of a point, as feFromBytes reads it, to that of its multiple. */
  method MultiplyPoint(out: array<byte>, scalar: array<byte>, base: array<byte>, ghost e: Curve,
                       ghost q: int -> Point)
    requires out.Length == 32 && scalar.Length == 32 && base.Length == 32
    requires LadderCurve(e) && e.p == Two(255) - 19 && Multiples(e, q) && Cong(q(1).x, Little(base[..]), e.p)
    modifies out
    ensures Little(out[..]) == Coordinate(q(Little(Ladder25519.Clamp(old(scalar[..])))))
    ensures q(8).Infinity? ==> Little(out[..]) == 0
  {
    hide CurveOk, XModulo, Ladder25519.X25519, Ladder25519.Shr, Ladder25519.Clamp, Little, Two, Add, F;
    ghost var k, u := Little(Ladder25519.Clamp(scalar[..])), Little(base[..]) % Field25519.P;
    PrimeForm();
    assert OnCurve(e, q(1));
    SmallResidue(q(1).x, e.p);
    ClampedBits(scalar[..]);
    X25519IsModulo(k, u);
    LadderMultiplies(e, q, k);
    if q(8).Infinity? {
      SmallOrder(e, q, scalar[..]);
    }
    Ladder25519.ScalarMult(out, scalar, base);
  }

  /** Clamped scalars have 255 bits. */
  lemma ClampedBits(s: seq<byte>)
    requires |s| == 32
    ensures Ladder25519.Shr(Little(Ladder25519.Clamp(s)), 255) == 0
  {
    hide Little, Ladder25519.Shr;
    var c := Ladder25519.Clamp(s);
    ShrBytes(c, 31);
    Ladder25519.ShrAdd(Little(c), 248, 7);
    LastBits(c);
  }

  /** A shift is a division by a power of two. */
  lemma {:induction false} ShrBounds(x: nat, n: nat)
    ensures Two(n) * Ladder25519.Shr(x, n) <= x < Two(n) * Ladder25519.Shr(x, n) + Two(n)
  {
    if n > 0 {
      ShrBounds(x / 2, n - 1);
      var t, y := Two(n - 1), Ladder25519.Shr(x / 2, n - 1);
      MulAssoc(2, t, y);
    }
  }

  lemma HighByte(b: byte, j: nat)
    requires j < 6
    ensures Ladder25519.Shr(b % 64 + 64, j) % 2 == Ladder25519.Shr(b, j) % 2
    ensures Ladder25519.Shr(b % 64 + 64, 6) == 1
  {
    var h := b / 64;
    assert Doubled(h, 1) == 2 * h && Doubled(h, 2) == 4 * h && Doubled(h, 4) == 4 * Doubled(h, 2);
    assert Doubled(h, 6) == 64 * h && Doubled(1, 6) == 64;
    Ladder25519.ShrLow(b % 64, h, 6, j);
    Ladder25519.ShrLow(b % 64, 1, 6, j);
    Ladder25519.ShrHigh(b % 64, 1, 6);
  }

  lemma LowByte(b: byte, j: nat)
    requires 3 <= j
    ensures Ladder25519.Shr(b - b % 8, j) == Ladder25519.Shr(b, j)
  {
    var h := b / 8;
    assert Doubled(h, 1) == 2 * h && Doubled(h, 3) == 8 * h && Doubled(1, 3) == 8;
    Ladder25519.ShrHigh(b % 8, h, 3);
    Ladder25519.ShrHigh(0, h, 3);
    Ladder25519.ShrAdd(b, 3, j - 3);
    Ladder25519.ShrAdd(b - b % 8, 3, j - 3);
  }

  /**
   What clamping makes of a scalar, section 5 of RFC 7748: a multiple of eight between 2^254 and 2^255
   that has the other bits of the scalar.
   */
  lemma ClampedScalar(s: seq<byte>, t: nat)
    requires |s| == 32
    ensures var k := Little(Ladder25519.Clamp(s));
            && k % 8 == 0 && Two(254) <= k < Two(255)
            && (3 <= t < 254 ==> Ladder25519.Shr(k, t) % 2 == Ladder25519.Shr(Little(s), t) % 2)
  {
    hide Ladder25519.Shr, Two;
    var c := Ladder25519.Clamp(s);
    ClampedRange(s);
    assert Little(c) == c[0] + 256 * Little(c[1..]);
    if 3 <= t < 254 {
      ClampedBit(s, t / 8, t % 8);
      assert 8 * (t / 8) + t % 8 == t;
    }
  }

  lemma ClampedBit(s: seq<byte>, i: nat, j: nat)
    requires |s| == 32 && i < 32 && j < 8 && 3 <= 8 * i + j < 254
    ensures var t := 8 * i + j;
            Ladder25519.Shr(Little(Ladder25519.Clamp(s)), t) % 2 == Ladder25519.Shr(Little(s), t) % 2
  {
    hide Ladder25519.Shr, Little;
    Ladder25519.ScalarBit(s, i, j);
    Ladder25519.ScalarBit(Ladder25519.Clamp(s), i, j);
    if i == 0 {
      LowByte(s[0], j);
    } else if i == 31 {
      HighByte(s[31], j);
    }
  }

  lemma ClampedRange(s: seq<byte>)
    requires |s| == 32
    ensures Two(254) <= Little(Ladder25519.Clamp(s)) < Two(255)
  {
    hide Ladder25519.Shr, Little, Two;
    var c := Ladder25519.Clamp(s);
    ShrBytes(c, 31);
    assert c[31..] == [c[31]] && Little([c[31]]) == c[31] by { SingleByte(c); }
    Ladder25519.ShrAdd(Little(c), 248, 6);
    HighByte(s[31], 0);
    ShrBounds(Little(c), 254);
    assert Two(255) == 2 * Two(254) by { TwoNext(254); }
  }

  lemma SingleByte(c: seq<byte>)
    requires |c| == 32
    ensures c[31..] == [c[31]] && Little([c[31]]) == c[31]
  {
  }

  lemma TwoNext(n: nat)
    ensures Two(n + 1) == 2 * Two(n)
  {
  }

  /** So a point whose eighth multiple is infinity is taken there by every scalar. */
  lemma SmallOrder(e: Curve, q: int -> Point, s: seq<byte>)
    requires e.p > 2 && Multiples(e, q) && q(8).Infinity? && |s| == 32
    ensures q(Little(Ladder25519.Clamp(s))).Infinity?
  {
    hide Multiples, Two;
    ClampedScalar(s, 0);
    var k := Little(Ladder25519.Clamp(s));
    NothingMultiplied(e, q, 8, k / 8);
  }

  lemma LastBits(c: seq<byte>)
    requires |c| == 32 && c[31] < 128
    ensures Ladder25519.Shr(Little(c[31..]), 7) == 0
  {
    assert c[31..] == [c[31]] && Little([c[31]]) == c[31];
    Ladder25519.ShrHigh(c[31], 0, 7);
    assert Doubled(1, 7) == 128 && Doubled(0, 7) == 0;
  }

  lemma {:induction false} ShrBytes(c: seq<byte>, i: nat)
    requires i < |c|
    ensures Ladder25519.Shr(Little(c), 8 * i) == Little(c[i..])
  {
    if i == 0 {
      assert c[0..] == c;
    } else {
      var rest := Little(c[1..]);
      Ladder25519.Byte(rest);
      Ladder25519.ShrHigh(c[0], rest, 8);
      Ladder25519.ShrAdd(Little(c), 8, 8 * (i - 1));
      ShrBytes(c[1..], i - 1);
      assert c[1..][i - 1..] == c[i..];
    }
  }

  /** Every coordinate belongs to a point of the curve or of its twist. */
  lemma EveryCoordinate(p: nat, a: int, u: nat) returns (b: int, y: nat)
    requires Prime(p) && p > 2 && (a - 2) % p != 0 && (a + 2) % p != 0 && u < p
    ensures CurveOk(Curve(p, a, b)) && OnCurve(Curve(p, a, b), Affine(u, y))
  {
    hide Prime, F;
    var f := F(a, u);
    SmallResidue(1, p);
    if f % p == 0 {
      b, y := 1, 0;
    } else {
      b, y := f, 1;
    }
  }
}
