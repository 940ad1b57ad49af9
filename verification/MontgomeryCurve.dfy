/**
 Montgomery curves B y^2 = x^3 + A x^2 + x over a prime field, with addition by chord and tangent, and
 the projective formulas that the ladder of curve25519 computes with: from the coordinates of two points
 and of their difference, those of the double of the first and of the sum.
 */
module MontgomeryCurve {
  import opened Modular
  import opened Primes

  datatype Curve = Curve(p: nat, a: int, b: int)

  datatype Point = Infinity | Affine(x: nat, y: nat)

  ghost predicate CurveOk(e: Curve) {
    Prime(e.p) && e.p > 2 && e.b % e.p != 0 && (e.a - 2) % e.p != 0 && (e.a + 2) % e.p != 0
  }

  function F(a: int, x: int): int {
    x * (x * x + a * x + 1)
  }

  predicate OnCurve(e: Curve, q: Point)
    requires e.p > 0
  {
    q.Infinity? || (q.x < e.p && q.y < e.p && Cong(e.b * (q.y * q.y), F(e.a, q.x), e.p))
  }

  function Inverse(p: nat, d: int): nat
    requires p > 2
  {
    Pow(d % p, p - 2) % p
  }

  function Neg(e: Curve, q: Point): Point
    requires e.p > 0
  {
    if q.Infinity? then q else Affine(q.x, (0 - q.y) % e.p)
  }

  /** The third point on the line of slope l through points with the coordinates x and u, reflected. */
  function Third(e: Curve, l: int, x: int, y: int, u: int): (t: Point)
    requires e.p > 0
    ensures t.Affine?
  {
    var v := (e.b * (l * l) - e.a - x - u) % e.p;
    Affine(v, (l * (x - v) - y) % e.p)
  }

  /** Addition by chord and tangent. */
  function Add(e: Curve, q: Point, r: Point): Point
    requires e.p > 2
  {
    if q.Infinity? then r else
    if r.Infinity? then q else
    if q.x == r.x then
      if (q.y + r.y) % e.p == 0 then Infinity
      else Third(e, (3 * q.x * q.x + 2 * e.a * q.x + 1) * Inverse(e.p, 2 * e.b * q.y), q.x, q.y, q.x)
    else Third(e, (r.y - q.y) * Inverse(e.p, r.x - q.x), q.x, q.y, r.x)
  }

  /** X and Z are the projective coordinates of the point, or of infinity. */
  predicate Represents(e: Curve, X: int, Z: int, q: Point)
    requires e.p > 0
  {
    match q
    case Infinity => X % e.p != 0 && Z % e.p == 0
    case Affine(x, _) => Z % e.p != 0 && Cong(X, x * Z, e.p)
  }

  // --------------------------------------------------------------------------
  // Arithmetic modulo a prime
  // --------------------------------------------------------------------------

  lemma InverseLaw(p: nat, d: int)
    requires Prime(p) && p > 2 && d % p != 0
    ensures Cong(d * Inverse(p, d), 1, p)
  {
    hide Pow, Prime;
    var r := d % p;
    SmallResidue(r, p);
    FermatInverse(p, r);
    InverseCong(p, d, r, Pow(r, p - 2));
  }

  lemma InverseCong(p: nat, d: int, r: int, w: int)
    requires p > 1 && r == d % p && (w * r) % p == 1
    ensures Cong(d * (w % p), 1, p)
  {
    CongMod(d, p);
    CongMod(w, p);
    CongMul(w % p, w, d, r, p);
    assert (w % p) * d == d * (w % p);
    SmallResidue(1, p);
  }

  /** A slope n / d, multiplied out. */
  lemma SlopeLaw(p: nat, n: int, d: int)
    requires Prime(p) && p > 2 && d % p != 0
    ensures Cong(d * (n * Inverse(p, d)), n, p)
  {
    hide Inverse, Prime;
    InverseLaw(p, d);
    var i := Inverse(p, d);
    CongMul(n, n, d * i, 1, p);
    Shuffle(d, n, i);
  }

  lemma Shuffle(d: int, n: int, i: int)
    ensures d * (n * i) == n * (d * i)
  {
  }

  // --------------------------------------------------------------------------
  // The tangent
  // --------------------------------------------------------------------------

  lemma TangentSquare(a: int, x: int)
    ensures var n := 3 * x * x + 2 * a * x + 1;
            n * n - 4 * F(a, x) * (a + 2 * x) == (x * x - 1) * (x * x - 1)
  {
  }

  lemma SlopeSquare(b: int, y: int, l: int, c: int)
    ensures 4 * (b * (y * y)) * (b * (l * l) - c) == (2 * b * y * l) * (2 * b * y * l) - 4 * (b * (y * y)) * c
  {
  }

  lemma TangentCong(p: nat, a: int, b: int, x: int, y: int, l: int, v: int)
    requires p > 0 && Cong(b * (y * y), F(a, x), p) && Cong(v, b * (l * l) - (a + 2 * x), p)
    requires Cong(2 * b * y * l, 3 * x * x + 2 * a * x + 1, p)
    ensures Cong(4 * (b * (y * y)) * v, (x * x - 1) * (x * x - 1), p)
  {
    hide F;
    var w, c, n, f := b * (y * y), a + 2 * x, 3 * x * x + 2 * a * x + 1, F(a, x);
    CongMul(4 * w, 4 * w, v, b * (l * l) - c, p);
    SlopeSquare(b, y, l, c);
    CongMul(2 * b * y * l, n, 2 * b * y * l, n, p);
    CongMul(w, f, 4 * c, 4 * c, p);
    assert w * (4 * c) == 4 * w * c && f * (4 * c) == 4 * f * c;
    CongAdd((2 * b * y * l) * (2 * b * y * l), n * n, 4 * w * c, 4 * f * c, p);
    TangentSquare(a, x);
  }

  /** The coordinate of the double of a point that is not its own opposite. */
  lemma Tangent(e: Curve, q: Point)
    requires CurveOk(e) && OnCurve(e, q) && q.Affine? && q.y % e.p != 0
    ensures var d := Add(e, q, q);
            d.Affine? && Cong(4 * (e.b * (q.y * q.y)) * d.x, (q.x * q.x - 1) * (q.x * q.x - 1), e.p)
  {
    hide Inverse, F, Prime;
    var n := 3 * q.x * q.x + 2 * e.a * q.x + 1;
    TwiceNonZero(e.p, q.y);
    NonZero(e.p, e.b, q.y + q.y);
    assert e.b * (q.y + q.y) == 2 * e.b * q.y;
    SlopeLaw(e.p, n, 2 * e.b * q.y);
    var l := n * Inverse(e.p, 2 * e.b * q.y);
    var v := e.b * (l * l) - e.a - q.x - q.x;
    CongMod(v, e.p);
    TangentCong(e.p, e.a, e.b, q.x, q.y, l, v % e.p);
  }

  lemma TwiceNonZero(p: nat, y: int)
    requires Prime(p) && p > 2 && y % p != 0
    ensures (y + y) % p != 0
  {
    SmallResidue(2, p);
    NonZero(p, 2, y);
  }

  // --------------------------------------------------------------------------
  // The chord
  // --------------------------------------------------------------------------

  lemma ChordCong(p: nat, b: int, c: int, d: int, h: int, l: int, v: int)
    requires p > 0 && Cong(d * l, h, p) && Cong(v, b * (l * l) - c, p)
    ensures Cong(v * (d * d), b * (h * h) - c * (d * d), p)
  {
    CongMul(v, b * (l * l) - c, d * d, d * d, p);
    assert (b * (l * l) - c) * (d * d) == b * ((d * l) * (d * l)) - c * (d * d);
    CongMul(d * l, h, d * l, h, p);
    CongMul(b, b, (d * l) * (d * l), h * h, p);
    CongAdd(b * ((d * l) * (d * l)), b * (h * h), c * (d * d), c * (d * d), p);
  }

  /** The chord through two points with different coordinates. */
  lemma Chord(e: Curve, q: Point, r: Point)
    requires CurveOk(e) && OnCurve(e, q) && OnCurve(e, r) && q.Affine? && r.Affine? && q.x != r.x
    ensures var d, h := r.x - q.x, r.y - q.y;
            var t := Add(e, q, r);
            t.Affine? && Cong(t.x * (d * d), e.b * (h * h) - (e.a + q.x + r.x) * (d * d), e.p)
  {
    hide Inverse, F, Prime;
    var d, h := r.x - q.x, r.y - q.y;
    Apart(e.p, q.x, r.x);
    SlopeLaw(e.p, h, d);
    var l := h * Inverse(e.p, d);
    var v := e.b * (l * l) - e.a - q.x - r.x;
    CongMod(v, e.p);
    ChordCong(e.p, e.b, e.a + q.x + r.x, d, h, l, v % e.p);
  }

  lemma Apart(p: nat, x: nat, u: nat)
    requires x < p && u < p && x != u
    ensures (u - x) % p != 0
  {
    CongDifference(u, x, p);
    SmallResidue(u, p);
    SmallResidue(x, p);
  }

  lemma SumForm(a: int, x: int, u: int)
    ensures var d, s, m := u - x, x + u, x * u;
            F(a, x) + F(a, u) - (a + x + u) * (d * d) == (m + 1) * s + 2 * a * m
  {
  }

  lemma QuadraticProduct(a: int, x: int, u: int)
    ensures var s, m := x + u, x * u;
            (x * x + a * x + 1) * (u * u + a * u + 1) == m * m + (a * m) * s + s * s - 2 * m + (a * a) * m + a * s + 1
  {
    var g, s, m := x * x + a * x + 1, x + u, x * u;
    FirstPart(a, x, u);
    SecondPart(a, x, u);
    ThreeParts(g, u * u, a * u);
    Collect(a * m, a, x, u);
  }

  lemma FirstPart(a: int, x: int, u: int)
    ensures (x * x + a * x + 1) * (u * u) == (x * u) * (x * u) + (a * (x * u)) * u + u * u
  {
  }

  lemma SecondPart(a: int, x: int, u: int)
    ensures (x * x + a * x + 1) * (a * u) == (a * (x * u)) * x + (a * a) * (x * u) + a * u
  {
  }

  lemma ThreeParts(g: int, v: int, w: int)
    ensures g * (v + w + 1) == g * v + g * w + g
  {
  }

  lemma Collect(k: int, a: int, x: int, u: int)
    ensures k * u + k * x == k * (x + u) && a * u + a * x == a * (x + u)
    ensures u * u + x * x == (x + u) * (x + u) - 2 * (x * u)
  {
  }

  lemma ProductForm(a: int, x: int, u: int)
    ensures var s, m := x + u, x * u;
            F(a, x) * F(a, u) == m * (m * m + (a * m) * s + s * s - 2 * m + (a * a) * m + a * s + 1)
  {
    QuadraticProduct(a, x, u);
    Exchange(x, x * x + a * x + 1, u, u * u + a * u + 1);
  }

  lemma Exchange(x: int, g: int, u: int, h: int)
    ensures (x * g) * (u * h) == (x * u) * (g * h)
  {
  }

  lemma DifferenceForm(a: int, s: int, m: int)
    ensures var t := (m + 1) * s + 2 * a * m;
            t * t - 4 * (m * (m * m + (a * m) * s + s * s - 2 * m + (a * a) * m + a * s + 1))
            == (m - 1) * (m - 1) * (s * s - 4 * m)
  {
    SquareOfSum((m + 1) * s, 2 * a * m);
    Exchange(m + 1, s, m + 1, s);
    MiddleTerm(a, m, s);
    LastTerms(a, m, s);
    Distribute7(m, m * m, (a * m) * s, s * s, (a * a) * m, a * s);
    LastForm(m, s * s);
  }

  lemma MiddleTerm(a: int, m: int, s: int)
    ensures 2 * ((m + 1) * s) * (2 * a * m) == 4 * (m * ((a * m) * s)) + 4 * ((a * m) * s)
  {
    var k := a * m;
    assert 2 * ((m + 1) * s) * (2 * a * m) == 4 * (((m + 1) * s) * k);
    assert ((m + 1) * s) * k == m * (k * s) + k * s;
  }

  lemma LastTerms(a: int, m: int, s: int)
    ensures (2 * a * m) * (2 * a * m) == 4 * (m * ((a * a) * m)) && m * (a * s) == (a * m) * s
  {
  }

  lemma LastForm(m: int, r: int)
    ensures ((m + 1) * (m + 1)) * r - 4 * (m * r) - 4 * (m * (m * m)) + 8 * (m * m) - 4 * m
            == (m - 1) * (m - 1) * (r - 4 * m)
  {
  }

  lemma SquareOfSum(x: int, y: int)
    ensures (x + y) * (x + y) == x * x + 2 * x * y + y * y
  {
  }

  lemma Distribute7(m: int, x: int, y: int, r: int, z: int, w: int)
    ensures m * (x + y + r - 2 * m + z + w + 1) == m * x + m * y + m * r - 2 * (m * m) + m * z + m * w + m
  {
  }

  /** The product of the coordinates of the sum and of the difference, without the slopes. */
  lemma ChordIdentity(a: int, x: int, u: int)
    ensures var d := u - x;
            var t := F(a, x) + F(a, u) - (a + x + u) * (d * d);
            t * t - 4 * (F(a, x) * F(a, u)) == (x * u - 1) * (x * u - 1) * (d * d)
  {
    hide F;
    SumForm(a, x, u);
    ProductForm(a, x, u);
    DifferenceForm(a, x + u, x * u);
    assert (x + u) * (x + u) - 4 * (x * u) == (u - x) * (u - x);
  }

  lemma ProductOfForms(b: int, y: int, z: int, c: int)
    ensures var r := b * (y * y) + b * (z * z) - c;
            (b * ((z - y) * (z - y)) - c) * (b * ((z + y) * (z + y)) - c) == r * r - 4 * ((b * (y * y)) * (b * (z * z)))
  {
    var w, v, m := b * (y * y), b * (z * z), b * (y * z);
    var r := w + v - c;
    assert b * ((z - y) * (z - y)) - c == r - 2 * m;
    assert b * ((z + y) * (z + y)) - c == r + 2 * m;
    Conjugate(r, m);
    SquareSplit(b, y, z);
  }

  lemma Conjugate(r: int, m: int)
    ensures (r - 2 * m) * (r + 2 * m) == r * r - 4 * (m * m)
  {
  }

  lemma SquareSplit(b: int, y: int, z: int)
    ensures (b * (y * z)) * (b * (y * z)) == (b * (y * y)) * (b * (z * z))
  {
  }

  /** f and g stand for the values of the cubic, which the squares of y and z are on the curve. */
  lemma SumTimesDifference(p: nat, b: int, y: int, z: int, c: int, f: int, g: int)
    requires p > 0 && Cong(b * (y * y), f, p) && Cong(b * (z * z), g, p)
    ensures var t := f + g - c;
            Cong((b * ((z - y) * (z - y)) - c) * (b * ((z + y) * (z + y)) - c), t * t - 4 * (f * g), p)
  {
    ProductOfForms(b, y, z, c);
    FormsCong(p, b * (y * y), b * (z * z), c, f, g);
  }

  lemma FormsCong(p: nat, w: int, v: int, c: int, f: int, g: int)
    requires p > 0 && Cong(w, f, p) && Cong(v, g, p)
    ensures var r, t := w + v - c, f + g - c; Cong(r * r - 4 * (w * v), t * t - 4 * (f * g), p)
  {
    var r, t := w + v - c, f + g - c;
    CongAdd(w, f, v, g, p);
    CongAdd(w + v, f + g, c, c, p);
    CongMul(r, t, r, t, p);
    CongMul(w, f, v, g, p);
    CongMul(4, 4, w * v, f * g, p);
    CongAdd(r * r, t * t, 4 * (w * v), 4 * (f * g), p);
  }

  lemma NegOnCurve(e: Curve, q: Point)
    requires e.p > 0 && OnCurve(e, q)
    ensures OnCurve(e, Neg(e, q)) && (q.Affine? ==> Cong(Neg(e, q).y, 0 - q.y, e.p))
  {
    hide F;
    if q.Affine? {
      var n := (0 - q.y) % e.p;
      CongMod(0 - q.y, e.p);
      CongMul(n, 0 - q.y, n, 0 - q.y, e.p);
      assert (0 - q.y) * (0 - q.y) == q.y * q.y;
      CongMul(e.b, e.b, n * n, q.y * q.y, e.p);
    }
  }

  /** What the chord says of the difference of two points. */
  lemma Difference(e: Curve, q: Point, r: Point)
    requires CurveOk(e) && OnCurve(e, q) && OnCurve(e, r) && q.Affine? && r.Affine? && q.x != r.x
    ensures var d, h := r.x - q.x, r.y + q.y;
            var v := Add(e, r, Neg(e, q));
            v.Affine? && Cong(v.x * (d * d), e.b * (h * h) - (e.a + q.x + r.x) * (d * d), e.p)
  {
    hide Add, OnCurve, Prime;
    NegOnCurve(e, q);
    Chord(e, r, Neg(e, q));
    OtherSign(e.p, e.b, e.a + r.x + q.x, Neg(e, q).y, q.y, r.y, q.x - r.x);
    assert (q.x - r.x) * (q.x - r.x) == (r.x - q.x) * (r.x - q.x);
  }

  lemma OtherSign(p: nat, b: int, c: int, n: int, y: int, z: int, d: int)
    requires p > 0 && Cong(n, 0 - y, p)
    ensures Cong(b * ((n - z) * (n - z)) - c * (d * d), b * ((z + y) * (z + y)) - c * (d * d), p)
  {
    var g, h := n - z, z + y;
    CongAdd(n, 0 - y, z, z, p);
    CongMul(g, -h, g, -h, p);
    assert (-h) * (-h) == h * h;
    CongMul(b, b, g * g, h * h, p);
    CongAdd(b * (g * g), b * (h * h), c * (d * d), c * (d * d), p);
  }

  /** The coordinates of the sum and of the difference of two points determine each other. */
  lemma SumAndDifference(e: Curve, q: Point, r: Point)
    requires CurveOk(e) && OnCurve(e, q) && OnCurve(e, r) && q.Affine? && r.Affine? && q.x != r.x
    ensures var d, m := r.x - q.x, q.x * r.x - 1;
            var t, v := Add(e, q, r), Add(e, r, Neg(e, q));
            t.Affine? && v.Affine? && Cong(t.x * v.x * (d * d), m * m, e.p)
  {
    hide F, Add, Prime;
    Chord(e, q, r);
    Difference(e, q, r);
    var d, m := r.x - q.x, q.x * r.x - 1;
    var t, v := Add(e, q, r).x, Add(e, r, Neg(e, q)).x;
    var k, c := d * d, (e.a + q.x + r.x) * (d * d);
    SumTimesDifference(e.p, e.b, q.y, r.y, c, F(e.a, q.x), F(e.a, r.x));
    ChordIdentity(e.a, q.x, r.x);
    var h, g := r.y - q.y, r.y + q.y;
    CongMul(t * k, e.b * (h * h) - c, v * k, e.b * (g * g) - c, e.p);
    Regroup(t, v, k);
    Apart(e.p, q.x, r.x);
    NonZero(e.p, d, d);
    assert m * m * k == k * (m * m);
    CancelFactor(e.p, k, t * v * k, m * m);
  }

  lemma Regroup(t: int, v: int, k: int)
    ensures (t * k) * (v * k) == k * (t * v * k)
  {
  }

  // --------------------------------------------------------------------------
  // Doubling on projective coordinates
  // --------------------------------------------------------------------------

  function DoubleX(X: int, Z: int): int {
    (X * X - Z * Z) * (X * X - Z * Z)
  }

  function DoubleZ(a: int, X: int, Z: int): int {
    4 * ((X * Z) * (X * X + a * (X * Z) + Z * Z))
  }

  lemma DoubleHomogeneous(a: int, x: int, Z: int)
    ensures DoubleX(x * Z, Z) == ((x * x - 1) * (x * x - 1)) * ((Z * Z) * (Z * Z))
    ensures DoubleZ(a, x * Z, Z) == (4 * F(a, x)) * ((Z * Z) * (Z * Z))
  {
    var k, w := Z * Z, x * x;
    assert (x * Z) * (x * Z) == w * k && (x * Z) * Z == x * k;
    assert w * k - k == (w - 1) * k;
    Exchange(w - 1, k, w - 1, k);
    assert w * k + a * (x * k) + k == (w + a * x + 1) * k;
    Exchange(x, k, w + a * x + 1, k);
  }

  lemma DoubleCong(p: nat, a: int, X: int, Y: int, Z: int)
    requires p > 0 && Cong(X, Y, p)
    ensures Cong(DoubleX(X, Z), DoubleX(Y, Z), p) && Cong(DoubleZ(a, X, Z), DoubleZ(a, Y, Z), p)
  {
    CongMul(X, Y, X, Y, p);
    CongAdd(X * X, Y * Y, Z * Z, Z * Z, p);
    CongMul(X * X - Z * Z, Y * Y - Z * Z, X * X - Z * Z, Y * Y - Z * Z, p);
    CongMul(X, Y, Z, Z, p);
    CongMul(a, a, X * Z, Y * Z, p);
    CongAdd(X * X, Y * Y, a * (X * Z), a * (Y * Z), p);
    CongAdd(X * X + a * (X * Z), Y * Y + a * (Y * Z), Z * Z, Z * Z, p);
    CongMul(X * Z, Y * Z, X * X + a * (X * Z) + Z * Z, Y * Y + a * (Y * Z) + Z * Z, p);
    CongMul(4, 4, (X * Z) * (X * X + a * (X * Z) + Z * Z), (Y * Z) * (Y * Y + a * (Y * Z) + Z * Z), p);
  }

  lemma Fourth(p: nat, Z: int)
    requires Prime(p) && Z % p != 0
    ensures ((Z * Z) * (Z * Z)) % p != 0
  {
    NonZero(p, Z, Z);
    NonZero(p, Z * Z, Z * Z);
  }

  lemma FourNonZero(p: nat)
    requires Prime(p) && p > 2
    ensures 4 % p != 0
  {
    SmallResidue(2, p);
    NonZero(p, 2, 2);
  }

  lemma ZeroTimes(p: nat, a: int, b: int)
    requires p > 0 && a % p == 0
    ensures (a * b) % p == 0
  {
    CongMul(a, 0, b, b, p);
  }

  lemma ZeroPlus(p: nat, a: int, b: int)
    requires p > 0 && a % p == 0 && b % p == 0
    ensures (a + b) % p == 0 && (a - b) % p == 0
  {
    CongAdd(a, 0, b, 0, p);
  }

  lemma RootIdentity(a: int, x: int)
    ensures (a - 2) * (a + 2) == (F(a, x) - (x * x - 1) * (x + a)) * (a - 2 * x) + (x * x - 1) * 4
  {
    assert F(a, x) - (x * x - 1) * (x + a) == a + 2 * x;
    assert (a + 2 * x) * (a - 2 * x) == a * a - 4 * (x * x);
  }

  /** A zero of the cubic is no square root of one. */
  lemma RootsApart(p: nat, a: int, x: int)
    requires Prime(p) && p > 1 && (a - 2) % p != 0 && (a + 2) % p != 0 && F(a, x) % p == 0
    ensures (x * x - 1) % p != 0
  {
    hide Prime, F;
    if (x * x - 1) % p == 0 {
      RootsMeet(p, a, x, (a - 2) * (a + 2));
      NonZero(p, a - 2, a + 2);
    }
  }

  lemma RootsMeet(p: nat, a: int, x: int, c: int)
    requires p > 0 && F(a, x) % p == 0 && (x * x - 1) % p == 0 && c == (a - 2) * (a + 2)
    ensures c % p == 0
  {
    hide F;
    var f, w, y, z := F(a, x), x * x - 1, x + a, a - 2 * x;
    RootIdentity(a, x);
    assert c == (f - w * y) * z + w * 4;
    RootZero(p, f, w, y, z);
  }

  lemma RootZero(p: nat, f: int, w: int, c: int, d: int)
    requires p > 0 && f % p == 0 && w % p == 0
    ensures ((f - w * c) * d + w * 4) % p == 0
  {
    ZeroTimes(p, w, c);
    ZeroPlus(p, f, w * c);
    ZeroTimes(p, f - w * c, d);
    ZeroTimes(p, w, 4);
    ZeroPlus(p, (f - w * c) * d, w * 4);
  }

  /** The coordinates of the double, with the square of the other coordinate for the cubic. */
  lemma DoubleAffine(e: Curve, X: int, Z: int, q: Point)
    requires CurveOk(e) && OnCurve(e, q) && q.Affine? && Represents(e, X, Z, q)
    ensures var k := (Z * Z) * (Z * Z);
            && k % e.p != 0
            && Cong(DoubleX(X, Z), ((q.x * q.x - 1) * (q.x * q.x - 1)) * k, e.p)
            && Cong(DoubleZ(e.a, X, Z), (4 * (e.b * (q.y * q.y))) * k, e.p)
  {
    hide Prime, F, DoubleX, DoubleZ;
    var k := (Z * Z) * (Z * Z);
    Fourth(e.p, Z);
    DoubleCong(e.p, e.a, X, q.x * Z, Z);
    DoubleHomogeneous(e.a, q.x, Z);
    CongMul(4, 4, e.b * (q.y * q.y), F(e.a, q.x), e.p);
    CongMul(4 * (e.b * (q.y * q.y)), 4 * F(e.a, q.x), k, k, e.p);
  }

  lemma DoubleInfinity(e: Curve, X: int, Z: int)
    requires CurveOk(e) && Represents(e, X, Z, Infinity)
    ensures Represents(e, DoubleX(X, Z), DoubleZ(e.a, X, Z), Infinity)
  {
    hide Prime;
    ZeroTimes(e.p, Z, Z);
    Fourth(e.p, X);
    CongAdd(X * X, X * X, Z * Z, 0, e.p);
    CongMul(X * X - Z * Z, X * X, X * X - Z * Z, X * X, e.p);
    ZeroTimes(e.p, Z, 4 * (X * (X * X + e.a * (X * Z) + Z * Z)));
    Rotate(Z, X, X * X + e.a * (X * Z) + Z * Z);
  }

  lemma Rotate(Z: int, X: int, k: int)
    ensures Z * (4 * (X * k)) == 4 * ((X * Z) * k)
  {
  }

  /** A point with a zero coordinate is its own opposite. */
  lemma DoubleOpposite(e: Curve, X: int, Z: int, q: Point)
    requires CurveOk(e) && OnCurve(e, q) && q.Affine? && q.y == 0 && Represents(e, X, Z, q)
    ensures Represents(e, DoubleX(X, Z), DoubleZ(e.a, X, Z), Infinity)
  {
    hide Prime, F, DoubleX, DoubleZ;
    DoubleAffine(e, X, Z, q);
    var k, m := (Z * Z) * (Z * Z), q.x * q.x - 1;
    assert e.b * (q.y * q.y) == 0 && (4 * (e.b * (q.y * q.y))) * k == 0;
    RootsApart(e.p, e.a, q.x);
    NonZero(e.p, m, m);
    NonZero(e.p, m * m, k);
  }

  lemma DoubleProper(e: Curve, X: int, Z: int, q: Point)
    requires CurveOk(e) && OnCurve(e, q) && q.Affine? && q.y != 0 && Represents(e, X, Z, q)
    ensures Represents(e, DoubleX(X, Z), DoubleZ(e.a, X, Z), Add(e, q, q))
  {
    hide Prime, F, DoubleX, DoubleZ, Add;
    DoubleAffine(e, X, Z, q);
    SmallResidue(q.y, e.p);
    Tangent(e, q);
    var d, k, w, m := Add(e, q, q).x, (Z * Z) * (Z * Z), 4 * (e.b * (q.y * q.y)), q.x * q.x - 1;
    FourNonZero(e.p);
    NonZero(e.p, q.y, q.y);
    NonZero(e.p, e.b, q.y * q.y);
    NonZero(e.p, 4, e.b * (q.y * q.y));
    NonZero(e.p, w, k);
    CongMul(w * d, m * m, k, k, e.p);
    CongMul(d, d, DoubleZ(e.a, X, Z), w * k, e.p);
    Regroup3(d, w, k);
  }

  lemma Regroup3(d: int, w: int, k: int)
    ensures d * (w * k) == (w * d) * k
  {
  }

  /** The double of a point. */
  lemma DoubleRepresents(e: Curve, X: int, Z: int, q: Point)
    requires CurveOk(e) && OnCurve(e, q) && Represents(e, X, Z, q)
    ensures Represents(e, DoubleX(X, Z), DoubleZ(e.a, X, Z), Add(e, q, q))
  {
    hide Represents, DoubleX, DoubleZ, CurveOk, F, Third;
    if q.Infinity? {
      DoubleInfinity(e, X, Z);
    } else if q.y == 0 {
      DoubleOpposite(e, X, Z, q);
    } else {
      DoubleProper(e, X, Z, q);
    }
  }

  // --------------------------------------------------------------------------
  // Differential addition
  // --------------------------------------------------------------------------

  function SumX(X: int, Z: int, U: int, V: int): int {
    4 * ((X * U - Z * V) * (X * U - Z * V))
  }

  /** u is the coordinate of the difference of the two points. */
  function SumZ(u: int, X: int, Z: int, U: int, V: int): int {
    u * (4 * ((U * Z - V * X) * (U * Z - V * X)))
  }

  lemma SumCong(p: nat, u: int, X: int, Y: int, Z: int, U: int, W: int, V: int)
    requires p > 0 && Cong(X, Y, p) && Cong(U, W, p)
    ensures Cong(SumX(X, Z, U, V), SumX(Y, Z, W, V), p) && Cong(SumZ(u, X, Z, U, V), SumZ(u, Y, Z, W, V), p)
  {
    var m, n := X * U - Z * V, Y * W - Z * V;
    var h, k := U * Z - V * X, W * Z - V * Y;
    CongMul(X, Y, U, W, p);
    CongAdd(X * U, Y * W, Z * V, Z * V, p);
    CongMul(m, n, m, n, p);
    CongMul(4, 4, m * m, n * n, p);
    CongMul(U, W, Z, Z, p);
    CongMul(V, V, X, Y, p);
    CongAdd(U * Z, W * Z, V * X, V * Y, p);
    CongMul(h, k, h, k, p);
    CongMul(4, 4, h * h, k * k, p);
    CongMul(u, u, 4 * (h * h), 4 * (k * k), p);
  }

  lemma SumHomogeneous(u: int, x: int, Z: int, w: int, V: int)
    ensures var k, m, d := (Z * V) * (Z * V), x * w - 1, w - x;
            SumX(x * Z, Z, w * V, V) == (4 * (m * m)) * k && SumZ(u, x * Z, Z, w * V, V) == (u * (4 * (d * d))) * k
  {
    var j, m, d := Z * V, x * w - 1, w - x;
    assert (x * Z) * (w * V) - Z * V == m * j;
    assert (w * V) * Z - V * (x * Z) == d * j;
    Exchange(m, j, m, j);
    Exchange(d, j, d, j);
    MulAssoc(4, m * m, j * j);
    MulAssoc(4, d * d, j * j);
    MulAssoc(u, 4 * (d * d), j * j);
  }

  lemma SumAffine(e: Curve, u: int, X: int, Z: int, U: int, V: int, q: Point, r: Point)
    requires CurveOk(e) && q.Affine? && r.Affine? && Represents(e, X, Z, q) && Represents(e, U, V, r)
    ensures var k, m, d := (Z * V) * (Z * V), q.x * r.x - 1, r.x - q.x;
            && k % e.p != 0 && Cong(SumX(X, Z, U, V), (4 * (m * m)) * k, e.p)
            && Cong(SumZ(u, X, Z, U, V), (u * (4 * (d * d))) * k, e.p)
  {
    hide Prime, SumX, SumZ;
    NonZero(e.p, Z, V);
    NonZero(e.p, Z * V, Z * V);
    SumCong(e.p, u, X, q.x * Z, Z, U, r.x * V, V);
    SumHomogeneous(u, q.x, Z, r.x, V);
  }

  lemma SumChord(e: Curve, u: int, X: int, Z: int, U: int, V: int, q: Point, r: Point)
    requires CurveOk(e) && OnCurve(e, q) && OnCurve(e, r) && q.Affine? && r.Affine? && q.x != r.x
    requires Represents(e, X, Z, q) && Represents(e, U, V, r)
    requires u % e.p != 0 && Add(e, r, Neg(e, q)).Affine? && Add(e, r, Neg(e, q)).x == u
    ensures Represents(e, SumX(X, Z, U, V), SumZ(u, X, Z, U, V), Add(e, q, r))
  {
    hide Prime, SumX, SumZ, Add, OnCurve;
    SumAffine(e, u, X, Z, U, V, q, r);
    SumAndDifference(e, q, r);
    var k, m, d, t := (Z * V) * (Z * V), q.x * r.x - 1, r.x - q.x, Add(e, q, r).x;
    ChordRange(e, q, r);
    Apart(e.p, q.x, r.x);
    FourNonZero(e.p);
    NonZero(e.p, d, d);
    NonZero(e.p, 4, d * d);
    NonZero(e.p, u, 4 * (d * d));
    NonZero(e.p, u * (4 * (d * d)), k);
    CongMul(4, 4, t * u * (d * d), m * m, e.p);
    CongMul(4 * (t * u * (d * d)), 4 * (m * m), k, k, e.p);
    CongMul(t, t, SumZ(u, X, Z, U, V), (u * (4 * (d * d))) * k, e.p);
    Regroup5(t, u, d * d, k);
  }

  lemma ChordRange(e: Curve, q: Point, r: Point)
    requires e.p > 0 && OnCurve(e, q) && OnCurve(e, r) && q.Affine? && r.Affine?
    ensures q.x < e.p && r.x < e.p
  {
  }

  lemma Regroup5(t: int, u: int, d: int, k: int)
    ensures t * ((u * (4 * d)) * k) == (4 * (t * u * d)) * k
  {
    MulAssoc(t, u * (4 * d), k);
    assert t * (u * (4 * d)) == 4 * (t * u * d);
  }

  /** Two points with one coordinate whose difference is finite are opposite, and neither is its own opposite. */
  lemma Opposite(e: Curve, q: Point, r: Point)
    requires CurveOk(e) && OnCurve(e, q) && OnCurve(e, r) && q.Affine? && r.Affine? && q.x == r.x
    requires Add(e, r, Neg(e, q)).Affine?
    ensures (q.y + r.y) % e.p == 0 && r.y != 0
  {
    hide Prime, F, Third;
    NegOnCurve(e, q);
    CongAdd(r.y, r.y, Neg(e, q).y, 0 - q.y, e.p);
    SameSquare(e.p, e.b, q.y, r.y);
    if r.y == 0 {
      SmallResidue(q.y, e.p);
    }
  }

  lemma SameSquare(p: nat, b: int, y: int, z: int)
    requires Prime(p) && p > 2 && b % p != 0 && (z + (0 - y)) % p != 0 && Cong(b * (y * y), b * (z * z), p)
    ensures (y + z) % p == 0
  {
    hide Prime;
    CancelFactor(p, b, y * y, z * z);
    CongDifference(z * z, y * y, p);
    Conjugates(z, y);
    Euclid(p, z + (0 - y), z + y);
  }

  lemma Conjugates(z: int, y: int)
    ensures (z + (0 - y)) * (z + y) == z * z - y * y
  {
  }

  /** Opposite points: the sum is infinity, and the difference a double. */
  lemma SumOpposite(e: Curve, u: int, X: int, Z: int, U: int, V: int, q: Point, r: Point)
    requires CurveOk(e) && OnCurve(e, q) && OnCurve(e, r) && q.Affine? && r.Affine? && q.x == r.x
    requires Represents(e, X, Z, q) && Represents(e, U, V, r)
    requires u % e.p != 0 && Add(e, r, Neg(e, q)).Affine? && Add(e, r, Neg(e, q)).x == u
    ensures Represents(e, SumX(X, Z, U, V), SumZ(u, X, Z, U, V), Add(e, q, r))
  {
    hide Prime, F, SumX, SumZ, Third;
    Opposite(e, q, r);
    SumAffine(e, u, X, Z, U, V, q, r);
    SmallResidue(r.y, e.p);
    TwiceNonZero(e.p, r.y);
    Tangent(e, r);
    assert Add(e, r, r) == Add(e, r, Neg(e, q));
    var k, m, w := (Z * V) * (Z * V), q.x * r.x - 1, 4 * (e.b * (r.y * r.y));
    FourNonZero(e.p);
    NonZero(e.p, r.y, r.y);
    NonZero(e.p, e.b, r.y * r.y);
    NonZero(e.p, 4, e.b * (r.y * r.y));
    NonZero(e.p, w, u);
    NonZero(e.p, 4, m * m);
    NonZero(e.p, 4 * (m * m), k);
    NothingLeft(u, r.x - q.x, k);
  }

  lemma NothingLeft(u: int, d: int, k: int)
    requires d == 0
    ensures (u * (4 * (d * d))) * k == 0
  {
  }

  /** The first point is infinity, and the second has the coordinate of the difference. */
  lemma SumFromInfinity(e: Curve, u: int, X: int, Z: int, U: int, V: int, r: Point)
    requires CurveOk(e) && r.Affine? && r.x == u && u % e.p != 0
    requires Represents(e, X, Z, Infinity) && Represents(e, U, V, r)
    ensures Represents(e, SumX(X, Z, U, V), SumZ(u, X, Z, U, V), r)
    ensures Represents(e, SumX(U, V, X, Z), SumZ(u, U, V, X, Z), r)
  {
    hide Prime;
    var p := e.p;
    var j := X * V;
    ZeroTimes(p, Z, V);
    ZeroTimes(p, Z, U);
    NonZero(p, X, V);
    CongMul(X, X, U, u * V, p);
    Shuffle(X, u, V);
    CongAdd(X * U, u * j, Z * V, 0, p);
    CongAdd(U * Z, 0, V * X, j, p);
    CongAdd(X * V, j, Z * U, 0, p);
    Rational(p, u, X * U - Z * V, U * Z - V * X, j);
    Rational(p, u, U * X - V * Z, X * V - Z * U, j);
  }

  lemma Rational(p: nat, u: int, m: int, n: int, j: int)
    requires Prime(p) && p > 2 && u % p != 0 && j % p != 0
    requires Cong(m, u * j, p) && (Cong(n, j, p) || Cong(n, 0 - j, p))
    ensures (u * (4 * (n * n))) % p != 0 && Cong(4 * (m * m), u * (u * (4 * (n * n))), p)
  {
    hide Prime;
    SquareCong(p, n, j);
    CongMul(m, u * j, m, u * j, p);
    RationalCong(p, u, m * m, (u * j) * (u * j), n * n, j * j);
    Squares(u, j);
    FourNonZero(p);
    NonZero(p, j, j);
    NonZero(p, 4, j * j);
    NonZero(p, u, 4 * (j * j));
  }

  lemma SquareCong(p: nat, n: int, j: int)
    requires p > 0 && (Cong(n, j, p) || Cong(n, 0 - j, p))
    ensures Cong(n * n, j * j, p)
  {
    if Cong(n, j, p) {
      CongMul(n, j, n, j, p);
    } else {
      CongMul(n, 0 - j, n, 0 - j, p);
      NegSquare(j);
    }
  }

  lemma NegSquare(j: int)
    ensures (0 - j) * (0 - j) == j * j
  {
  }

  lemma RationalCong(p: nat, u: int, a: int, b: int, c: int, d: int)
    requires p > 0 && Cong(a, b, p) && Cong(c, d, p)
    ensures Cong(4 * a, 4 * b, p) && Cong(u * (4 * c), u * (4 * d), p)
    ensures Cong(u * (u * (4 * c)), u * (u * (4 * d)), p)
  {
    CongMul(4, 4, a, b, p);
    CongMul(4, 4, c, d, p);
    CongMul(u, u, 4 * c, 4 * d, p);
    CongMul(u, u, u * (4 * c), u * (4 * d), p);
  }

  lemma Squares(u: int, j: int)
    ensures 4 * ((u * j) * (u * j)) == u * (u * (4 * (j * j)))
  {
  }

  /** The sum of two points whose difference is finite and has the coordinate u. */
  lemma SumRepresents(e: Curve, u: int, X: int, Z: int, U: int, V: int, q: Point, r: Point)
    requires CurveOk(e) && OnCurve(e, q) && OnCurve(e, r) && Represents(e, X, Z, q) && Represents(e, U, V, r)
    requires u % e.p != 0 && Add(e, r, Neg(e, q)).Affine? && Add(e, r, Neg(e, q)).x == u
    ensures Represents(e, SumX(X, Z, U, V), SumZ(u, X, Z, U, V), Add(e, q, r))
  {
    hide Represents, SumX, SumZ, CurveOk, F, Third;
    if q.Infinity? {
      SumFromInfinity(e, u, X, Z, U, V, r);
    } else if r.Infinity? {
      SumFromInfinity(e, u, U, V, X, Z, q);
    } else if q.x == r.x {
      SumOpposite(e, u, X, Z, U, V, q, r);
    } else {
      SumChord(e, u, X, Z, U, V, q, r);
    }
  }
}
