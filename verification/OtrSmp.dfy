/**
 The Socialist Millionaires Protocol of OTR (otr/smp.go): two ends find out whether they hold the
 same secret.  Everything happens in the exponents of one group element; the hash is arbitrary.
 */
module OtrSmp {
  import opened Modular
  import opened Primes
  import opened Bits
  import opened Wrappers

  /** The group, the hash of a tagged list of numbers, and ModInverse. */
  datatype Group = Group(p: nat, q: nat, g: nat, hash: (nat, seq<nat>) -> nat, inverse: nat -> nat)

  predicate Inverses(G: Group, x: nat, y: nat)
    requires G.p > 1
  {
    Mul(G, x, y) == 1
  }

  /** The generator has order q, and ModInverse finds inverses where they exist. */
  ghost predicate Order(G: Group) {
    && G.p > 1 && G.q > 0 && G.g > 0
    && (forall e: nat :: Pow(G.g, e) % G.p == 1 <==> e % G.q == 0)
    && (forall x: nat, y: nat :: Inverses(G, x, y) ==> Mul(G, x, G.inverse(x)) == 1 && G.inverse(x) < G.p)
  }

  function Exp(G: Group, b: nat, e: nat): nat
    requires G.p > 1
  {
    PowNat(b, e);
    Pow(b, e) % G.p
  }

  function Mul(G: Group, a: nat, b: nat): nat
    requires G.p > 1
  {
    MulNat(a, b);
    (a * b) % G.p
  }

  lemma {:induction false} PowNat(b: nat, e: nat)
    ensures Pow(b, e) >= 0
  {
    if e > 0 {
      PowNat(b, e - 1);
      MulNat(b, Pow(b, e - 1));
    }
  }

  // --------------------------------------------------------------------------
  // Powers of the generator
  // --------------------------------------------------------------------------

  /** The generator to any integer, the exponent taken modulo the order. */
  ghost function E(G: Group, e: int): nat
    requires G.p > 1 && G.q > 0
  {
    Exp(G, G.g, e % G.q)
  }

  /** g to a multiple of the order is one. */
  lemma PowOrder(G: Group, k: nat)
    requires Order(G)
    ensures G.q * k >= 0 && Pow(G.g, G.q * k) % G.p == 1
  {
    hide Pow, Inverses;
    MulNat(G.q, k);
    CongMultiple(G.q * k, 0, k, G.q);
  }

  lemma OneTimes(x: int, y: int, p: nat)
    requires p > 1 && x % p == 1
    ensures (x * y) % p == y % p
  {
    CongMul(x, 1, y, y, p);
  }

  lemma ProductMod(x: int, y: int, p: nat)
    requires p > 0
    ensures ((x % p) * (y % p)) % p == (x * y) % p
  {
    CongMod(x, p);
    CongMod(y, p);
    CongMul(x % p, x, y % p, y, p);
  }

  lemma Split(e: nat, q: nat)
    requires q > 0
    ensures e == q * (e / q) + e % q
  {
  }

  /** Powers of the generator depend on the exponent modulo the order only. */
  lemma PowReduce(G: Group, e: nat)
    requires Order(G)
    ensures Exp(G, G.g, e) == E(G, e)
  {
    hide Pow, Inverses, Order;
    OrderFacts(G);
    var k, r := e / G.q, e % G.q;
    PowOrder(G, k);
    Split(e, G.q);
    PowAdd(G.g, G.q * k, r);
    OneTimes(Pow(G.g, G.q * k), Pow(G.g, r), G.p);
  }

  lemma ECong(G: Group, a: int, b: int)
    requires G.p > 1 && G.q > 0 && Cong(a, b, G.q)
    ensures E(G, a) == E(G, b)
  {
  }

  lemma EMul(G: Group, a: int, b: int)
    requires Order(G)
    ensures Mul(G, E(G, a), E(G, b)) == E(G, a + b)
  {
    hide Pow, Inverses, Order;
    OrderFacts(G);
    var m, n := a % G.q, b % G.q;
    PowAdd(G.g, m, n);
    ProductMod(Pow(G.g, m), Pow(G.g, n), G.p);
    PowReduce(G, m + n);
    SumMod(a, b, G.q);
    ECong(G, m + n, a + b);
  }

  lemma OrderFacts(G: Group)
    requires Order(G)
    ensures G.p > 1 && G.q > 0
  {
  }

  lemma SumMod(a: int, b: int, q: nat)
    requires q > 0
    ensures Cong(a % q + b % q, a + b, q)
  {
    CongMod(a, q);
    CongMod(b, q);
    CongAdd(a % q, a, b % q, b, q);
  }

  lemma EExp(G: Group, a: int, n: nat)
    requires Order(G)
    ensures Exp(G, E(G, a), n) == E(G, a * n)
  {
    hide Pow, Inverses, Order;
    OrderFacts(G);
    var m := a % G.q;
    CongMod(Pow(G.g, m), G.p);
    PowCong(E(G, a), Pow(G.g, m), n, G.p);
    PowPow(G.g, m, n);
    MulNat(m, n);
    PowReduce(G, m * n);
    CongMod(a, G.q);
    CongMul(m, a, n, n, G.q);
    ECong(G, m * n, a * n);
  }

  lemma EZero(G: Group)
    requires Order(G)
    ensures E(G, 0) == 1
  {
  }

  lemma EInverse(G: Group, a: int)
    requires Order(G)
    ensures G.inverse(E(G, a)) == E(G, -a)
  {
    hide Pow, E;
    EMul(G, a, -a);
    EZero(G);
    assert Inverses(G, E(G, a), E(G, -a));
    EBelow(G, -a);
    InverseUnique(G.p, E(G, a), E(G, -a), G.inverse(E(G, a)));
  }

  lemma EBelow(G: Group, a: int)
    requires G.p > 1 && G.q > 0
    ensures E(G, a) < G.p
  {
  }

  lemma InverseUnique(p: nat, x: nat, y: nat, z: nat)
    requires p > 1 && (x * y) % p == 1 && (x * z) % p == 1 && y < p && z < p
    ensures y == z
  {
    OneTimes(x * y, z, p);
    OneTimes(x * z, y, p);
    Swap(x, y, z);
    Small(y, p);
    Small(z, p);
  }

  lemma Small(x: nat, p: nat)
    requires x < p
    ensures x % p == x
  {
  }

  lemma Swap(x: int, y: int, z: int)
    ensures (x * y) * z == (x * z) * y
  {
  }

  /** The order is exact: different exponents modulo q give different powers. */
  lemma EEqual(G: Group, a: int, b: int)
    requires Order(G)
    ensures E(G, a) == E(G, b) <==> (a - b) % G.q == 0
  {
    if (a - b) % G.q == 0 {
      CongMultiple(a, b, (a - b) / G.q, G.q);
      ECong(G, a, b);
    }
    if E(G, a) == E(G, b) {
      EDifference(G, a, b);
    }
  }

  lemma EDifference(G: Group, a: int, b: int)
    requires Order(G) && E(G, a) == E(G, b)
    ensures (a - b) % G.q == 0
  {
    hide Pow;
    EMul(G, a, -b);
    EMul(G, b, -b);
    EZero(G);
    var d := (a - b) % G.q;
    assert Pow(G.g, d) % G.p == 1;
    Small(d, G.q);
  }

  // --------------------------------------------------------------------------
  // The values that the messages carry, and the checks on them
  // --------------------------------------------------------------------------

  /** The answer to a challenge: r - s c modulo q. */
  function Response(G: Group, r: nat, s: nat, c: nat): nat
    requires G.q > 0
  {
    (r - s * c) % G.q
  }

  function Mul3(G: Group, a: nat, b: nat, c: nat): nat
    requires G.p > 1
  {
    MulNat(a, b);
    MulNat(a * b, c);
    (a * b * c) % G.p
  }

  /** A proof that the sender knows the exponent x of g^x: the power, the challenge, the answer. */
  function Knowledge(G: Group, tag: nat, x: nat, r: nat): (k: seq<nat>)
    requires G.p > 1 && G.q > 0
    ensures |k| == 3
  {
    var c := G.hash(tag, [Exp(G, G.g, r)]);
    [Exp(G, G.g, x), c, Response(G, r, x, c)]
  }

  predicate KnowledgeChecks(G: Group, tag: nat, y: nat, c: nat, d: nat)
    requires G.p > 1
  {
    c == G.hash(tag, [Mul(G, Exp(G, G.g, d), Exp(G, y, c))])
  }

  /** The pair P, Q that hides the secret, with a proof that it was formed as it should be. */
  function Commitment(G: Group, tag: nat, g2: nat, g3: nat, secret: nat, r4: nat, r5: nat, r6: nat): (k: seq<nat>)
    requires G.p > 1 && G.q > 0
    ensures |k| == 5
  {
    var c := G.hash(tag, [Exp(G, g3, r5), Mul(G, Exp(G, G.g, r5), Exp(G, g2, r6))]);
    [Exp(G, g3, r4), Mul(G, Exp(G, G.g, r4), Exp(G, g2, secret)), c, Response(G, r5, r4, c), Response(G, r6, secret, c)]
  }

  predicate CommitmentChecks(G: Group, tag: nat, g2: nat, g3: nat, P: nat, Q: nat, c: nat, d5: nat, d6: nat)
    requires G.p > 1
  {
    c == G.hash(tag, [Mul(G, Exp(G, g3, d5), Exp(G, P, c)), Mul3(G, Exp(G, G.g, d5), Exp(G, g2, d6), Exp(G, Q, c))])
  }

  /** base to the exponent x, with a proof that x is also the exponent of a known power of g. */
  function SameExponent(G: Group, tag: nat, base: nat, x: nat, r: nat): (k: seq<nat>)
    requires G.p > 1 && G.q > 0
    ensures |k| == 3
  {
    var c := G.hash(tag, [Exp(G, G.g, r), Exp(G, base, r)]);
    [Exp(G, base, x), c, Response(G, r, x, c)]
  }

  predicate SameExponentChecks(G: Group, tag: nat, base: nat, y: nat, R: nat, c: nat, d: nat)
    requires G.p > 1
  {
    c == G.hash(tag, [Mul(G, Exp(G, G.g, d), Exp(G, y, c)), Mul(G, Exp(G, base, d), Exp(G, R, c))])
  }

  function Divide(G: Group, a: nat, b: nat): nat
    requires G.p > 1
  {
    Mul(G, a, G.inverse(b))
  }

  // --------------------------------------------------------------------------
  // The checks pass
  // --------------------------------------------------------------------------

  lemma ResponseCong(G: Group, r: nat, s: nat, c: nat)
    requires G.q > 0
    ensures Cong(Response(G, r, s, c) + s * c, r, G.q)
  {
    CongMod(r - s * c, G.q);
    CongAdd(Response(G, r, s, c), r - s * c, s * c, s * c, G.q);
  }

  /** base^(r - s c) base^(s c) is base^r, for every power of the generator. */
  lemma AnswerMatches(G: Group, b: int, r: nat, s: nat, c: nat)
    requires Order(G)
    ensures Mul(G, Exp(G, E(G, b), Response(G, r, s, c)), Exp(G, E(G, b * s), c)) == E(G, b * r)
  {
    hide Pow, E, Order, Exp, Mul, Inverses, Response, Cong;
    OrderFacts(G);
    var d := Response(G, r, s, c);
    EExp(G, b, d);
    EExp(G, b * s, c);
    EMul(G, b * d, b * s * c);
    ResponseCong(G, r, s, c);
    AnswerCong(G.q, b, d, s, c, r);
    ECong(G, b * d + b * s * c, b * r);
  }

  lemma AnswerCong(q: nat, b: int, d: int, s: int, c: int, r: int)
    requires q > 0 && Cong(d + s * c, r, q)
    ensures Cong(b * d + b * s * c, b * r, q)
  {
    CongMul(b, b, d + s * c, r, q);
    Regroup(b, d, s, c);
  }

  lemma Regroup(b: int, d: int, s: int, c: int)
    ensures b * d + b * s * c == b * (d + s * c)
  {
    MulAssoc(b, s, c);
  }

  lemma KnowledgePasses(G: Group, tag: nat, x: nat, r: nat)
    requires Order(G)
    ensures var k := Knowledge(G, tag, x, r); k[0] == E(G, x) && KnowledgeChecks(G, tag, k[0], k[1], k[2])
  {
    hide Pow, E, Order, Exp, Mul, Inverses, Response;
    OrderFacts(G);
    var c := G.hash(tag, [Exp(G, G.g, r)]);
    var d := Response(G, r, x, c);
    PowReduce(G, x);
    PowReduce(G, r);
    PowReduce(G, d);
    EExp(G, 1, d);
    AnswerMatches(G, 1, r, x, c);
  }

  lemma SameExponentPasses(G: Group, tag: nat, b: int, x: nat, r: nat)
    requires Order(G)
    ensures var k := SameExponent(G, tag, E(G, b), x, r);
            k[0] == E(G, b * x) && SameExponentChecks(G, tag, E(G, b), E(G, x), k[0], k[1], k[2])
  {
    hide Pow, E, Order, Exp, Mul, Inverses, Response;
    OrderFacts(G);
    var c := G.hash(tag, [Exp(G, G.g, r), Exp(G, E(G, b), r)]);
    var d := Response(G, r, x, c);
    EExp(G, b, x);
    EExp(G, b, r);
    PowReduce(G, r);
    PowReduce(G, d);
    EExp(G, 1, d);
    AnswerMatches(G, 1, r, x, c);
    AnswerMatches(G, b, r, x, c);
  }

  lemma CommitmentPasses(G: Group, tag: nat, k2: int, k3: int, secret: nat, r4: nat, r5: nat, r6: nat)
    requires Order(G)
    ensures var g2, g3 := E(G, k2), E(G, k3);
            var k := Commitment(G, tag, g2, g3, secret, r4, r5, r6);
            && k[0] == E(G, k3 * r4) && k[1] == E(G, r4 + k2 * secret)
            && CommitmentChecks(G, tag, g2, g3, k[0], k[1], k[2], k[3], k[4])
  {
    hide Pow, E, Order, Exp, Mul, Mul3, Inverses, Response;
    OrderFacts(G);
    var g2, g3 := E(G, k2), E(G, k3);
    var c := G.hash(tag, [Exp(G, g3, r5), Mul(G, Exp(G, G.g, r5), Exp(G, g2, r6))]);
    var d5, d6 := Response(G, r5, r4, c), Response(G, r6, secret, c);
    EExp(G, k3, r4);
    EExp(G, k3, r5);
    AnswerMatches(G, k3, r5, r4, c);
    PairExponent(G, k2, r4, secret);
    PairExponent(G, k2, r5, r6);
    PairAnswer(G, k2, r4, secret, r5, r6, c);
  }

  /** g^u g2^v. */
  lemma PairExponent(G: Group, k2: int, u: nat, v: nat)
    requires Order(G)
    ensures Mul(G, Exp(G, G.g, u), Exp(G, E(G, k2), v)) == E(G, u + k2 * v)
  {
    hide Pow, E, Exp, Mul, Inverses;
    PowReduce(G, u);
    EExp(G, k2, v);
    EMul(G, u, k2 * v);
  }

  lemma PairAnswer(G: Group, k2: int, r4: nat, secret: nat, r5: nat, r6: nat, c: nat)
    requires Order(G)
    ensures Mul3(G, Exp(G, G.g, Response(G, r5, r4, c)), Exp(G, E(G, k2), Response(G, r6, secret, c)),
                 Exp(G, E(G, r4 + k2 * secret), c)) == E(G, r5 + k2 * r6)
  {
    hide Pow, E, Order, Exp, Mul, Mul3, Inverses, Response;
    OrderFacts(G);
    var d5, d6 := Response(G, r5, r4, c), Response(G, r6, secret, c);
    PairExponent(G, k2, d5, d6);
    EExp(G, r4 + k2 * secret, c);
    Mul3Is(G, Exp(G, G.g, d5), Exp(G, E(G, k2), d6), Exp(G, E(G, r4 + k2 * secret), c));
    EMul(G, d5 + k2 * d6, (r4 + k2 * secret) * c);
    ResponseCong(G, r5, r4, c);
    ResponseCong(G, r6, secret, c);
    CongMul(k2, k2, d6 + secret * c, r6, G.q);
    CongAdd(d5 + r4 * c, r5, k2 * (d6 + secret * c), k2 * r6, G.q);
    Collect(k2, d5, d6, r4, secret, c);
    ECong(G, d5 + k2 * d6 + (r4 + k2 * secret) * c, r5 + k2 * r6);
  }

  lemma Mul3Is(G: Group, a: nat, b: nat, c: nat)
    requires G.p > 1
    ensures Mul3(G, a, b, c) == Mul(G, Mul(G, a, b), c)
  {
    CongMod(a * b, G.p);
    CongMul((a * b) % G.p, a * b, c, c, G.p);
  }

  lemma Collect(k2: int, d5: int, d6: int, r4: int, s: int, c: int)
    ensures d5 + k2 * d6 + (r4 + k2 * s) * c == d5 + r4 * c + k2 * (d6 + s * c)
  {
    MulAssoc(k2, s, c);
  }

  // --------------------------------------------------------------------------
  // An honest run
  // --------------------------------------------------------------------------

  /** A's two blinding exponents and B's, the secrets, and the P and Q exponents. */
  // --------------------------------------------------------------------------
  // What a proof proves: two answers to different challenges give the exponent away
  // --------------------------------------------------------------------------

  lemma {:induction false} PowOne(e: nat)
    ensures Pow(1, e) == 1
  {
    if e > 0 {
      PowOne(e - 1);
    }
  }

  lemma {:induction false} PowProduct(a: int, b: int, e: nat)
    ensures Pow(a * b, e) == Pow(a, e) * Pow(b, e)
  {
    if e > 0 {
      PowProduct(a, b, e - 1);
      Interchange(a, b, Pow(a, e - 1), Pow(b, e - 1));
    }
  }

  lemma Interchange(a: int, b: int, x: int, y: int)
    ensures (a * b) * (x * y) == (a * x) * (b * y)
  {
    assert (a * b) * (x * y) == a * (b * (x * y)) && b * (x * y) == x * (b * y);
  }

  /** If b to the q is one, exponents of b count modulo q. */
  lemma Period(b: int, q: nat, e: nat, p: nat)
    requires p > 1 && q > 0 && Pow(b, q) % p == 1
    ensures Cong(Pow(b, e), Pow(b, e % q), p)
  {
    hide Pow;
    var k := e / q;
    Split(e, q);
    MulNat(q, k);
    PowPow(b, q, k);
    PowCong(Pow(b, q), 1, k, p);
    PowOne(k);
    PowAdd(b, q * k, e % q);
    OneTimes(Pow(b, q * k), Pow(b, e % q), p);
  }

  lemma SamePeriod(b: int, q: nat, e: nat, f: int, p: nat)
    requires p > 1 && q > 0 && Pow(b, q) % p == 1 && Cong(e, f, q)
    ensures Cong(Pow(b, e), Pow(b, f % q), p)
  {
    Period(b, q, e, p);
  }

  /** b to the d times this is one. */
  function Undo(b: int, q: nat, d: nat): int
    requires q > 0
  {
    MulNat(d, q - 1);
    Pow(b, d * (q - 1))
  }

  lemma UndoExponent(c: int, e: nat, q: nat)
    requires q > 0
    ensures e * (q - 1) >= 0 && Cong(c + e * (q - 1), c - e, q)
  {
    MulNat(e, q - 1);
    assert c + e * (q - 1) == c - e + q * e;
    CongMultiple(c + e * (q - 1), c - e, e, q);
  }

  lemma Undone(b: int, q: nat, d: nat, p: nat)
    requires p > 1 && q > 0 && Pow(b, q) % p == 1
    ensures Cong(Pow(b, d) * Undo(b, q, d), 1, p)
  {
    assert Pow(b, 0) == 1;
    hide Pow, Cong;
    UndoExponent(d, d, q);
    var n: nat := d * (q - 1);
    PowAdd(b, d, n);
    SamePeriod(b, q, d + n, 0, p);
    Small(0, q);
  }

  /** From two openings u y^c and v y^e of one value: y is (v / u) to the inverse of c - e. */
  lemma Extract(y: int, c: nat, e: nat, u: int, back: int, v: int, k: nat, q: nat, p: nat)
    requires p > 1 && q > 1 && Pow(y, q) % p == 1 && Cong(u * back, 1, p)
    requires Cong(u * Pow(y, c), v * Pow(y, e), p) && Cong((c - e) * k, 1, q)
    ensures Cong(y, Pow(v * back, k), p)
  {
    hide Pow;
    var yc, ye, z := Pow(y, c), Pow(y, e), Undo(y, q, e);
    Undone(y, q, e, p);
    CongMul(u * yc, v * ye, back * z, back * z, p);
    Interchange(u, yc, back, z);
    Interchange(v, ye, back, z);
    CongMul(u * back, 1, yc * z, yc * z, p);
    CongMul(v * back, v * back, ye * z, 1, p);
    assert Cong(yc * z, v * back, p);
    PowCong(yc * z, v * back, k, p);
    Quotient(y, c, e, k, q, p);
  }

  lemma Quotient(y: int, c: nat, e: nat, k: nat, q: nat, p: nat)
    requires p > 1 && q > 1 && Pow(y, q) % p == 1 && Cong((c - e) * k, 1, q)
    ensures Cong(Pow(Pow(y, c) * Undo(y, q, e), k), y, p)
  {
    hide Pow;
    UndoExponent(c, e, q);
    var n: nat := e * (q - 1);
    var m: nat := c + n;
    PowAdd(y, c, n);
    PowPow(y, m, k);
    CongMul(m, c - e, k, k, q);
    MulNat(m, k);
    SamePeriod(y, q, m * k, 1, p);
    Small(1, q);
    PowFirst(y);
  }

  lemma PowFirst(y: int)
    ensures Pow(y, 1) == y
  {
    assert Pow(y, 0) == 1;
  }

  /** The exponent that two pairs of challenge and answer determine. */
  function Exponent(q: nat, d: nat, f: nat, k: nat): nat
    requires q > 0
  {
    ((f - d) * k) % q
  }

  lemma PowerOut(b: int, d: nat, f: nat, k: nat, q: nat, p: nat)
    requires p > 1 && q > 1 && Pow(b, q) % p == 1
    ensures Cong(Pow(Pow(b, f) * Undo(b, q, d), k), Pow(b, Exponent(q, d, f, k)), p)
  {
    hide Pow;
    UndoExponent(f, d, q);
    var m: nat := d * (q - 1);
    var n: nat := f + m;
    PowAdd(b, f, m);
    PowPow(b, n, k);
    CongMul(n, f - d, k, k, q);
    MulNat(n, k);
    SamePeriod(b, q, n * k, (f - d) * k, p);
  }

  /** What a check recomputes before it hashes. */
  ghost function Opened(G: Group, base: nat, y: nat, c: nat, d: nat): nat
    requires G.p > 1
  {
    PowNat(base, d);
    PowNat(y, c);
    MulNat(Pow(base, d), Pow(y, c));
    Pow(base, d) * Pow(y, c) % G.p
  }

  /** The element is of order q or one. */
  predicate InGroup(G: Group, y: nat)
    requires G.p > 1
  {
    Pow(y, G.q) % G.p == 1
  }

  lemma ExtractPower(G: Group, base: nat, y: nat, c: nat, d: nat, e: nat, f: nat, k: nat)
    requires G.p > 1 && G.q > 1 && InGroup(G, base) && InGroup(G, y)
    requires Opened(G, base, y, c, d) == Opened(G, base, y, e, f) && Cong((c - e) * k, 1, G.q)
    ensures y % G.p == Exp(G, base, Exponent(G.q, d, f, k))
  {
    hide Pow;
    Undone(base, G.q, d, G.p);
    Extract(y, c, e, Pow(base, d), Undo(base, G.q, d), Pow(base, f), k, G.q, G.p);
    PowerOut(base, d, f, k, G.q, G.p);
  }

  /**
   The checks are those of the protocol: the hash of what the numbers open to is the challenge.  And two
   answers for the same opened value but different challenges determine the exponent, and for the proofs
   of equality the same one to both bases: only who knows it can answer more than one challenge.
   */
  lemma KnowledgeSound(G: Group, tag: nat, y: nat, c: nat, d: nat, e: nat, f: nat, k: nat)
    requires G.p > 1 && G.q > 1
    ensures KnowledgeChecks(G, tag, y, c, d) <==> c == G.hash(tag, [Opened(G, G.g, y, c, d)])
    ensures InGroup(G, G.g) && InGroup(G, y) && Cong((c - e) * k, 1, G.q)
            && Opened(G, G.g, y, c, d) == Opened(G, G.g, y, e, f) ==>
              y % G.p == Exp(G, G.g, Exponent(G.q, d, f, k))
  {
    hide Pow;
    ProductMod(Pow(G.g, d), Pow(y, c), G.p);
    if InGroup(G, G.g) && InGroup(G, y) && Cong((c - e) * k, 1, G.q)
       && Opened(G, G.g, y, c, d) == Opened(G, G.g, y, e, f) {
      ExtractPower(G, G.g, y, c, d, e, f, k);
    }
  }

  lemma SameExponentSound(G: Group, tag: nat, base: nat, y: nat, R: nat, c: nat, d: nat, e: nat, f: nat, k: nat)
    requires G.p > 1 && G.q > 1
    ensures SameExponentChecks(G, tag, base, y, R, c, d)
            <==> c == G.hash(tag, [Opened(G, G.g, y, c, d), Opened(G, base, R, c, d)])
    ensures InGroup(G, G.g) && InGroup(G, y) && InGroup(G, base) && InGroup(G, R) && Cong((c - e) * k, 1, G.q)
            && Opened(G, G.g, y, c, d) == Opened(G, G.g, y, e, f)
            && Opened(G, base, R, c, d) == Opened(G, base, R, e, f) ==>
              var x := Exponent(G.q, d, f, k);
              y % G.p == Exp(G, G.g, x) && R % G.p == Exp(G, base, x)
  {
    hide Pow;
    ProductMod(Pow(G.g, d), Pow(y, c), G.p);
    ProductMod(Pow(base, d), Pow(R, c), G.p);
    if InGroup(G, G.g) && InGroup(G, y) && InGroup(G, base) && InGroup(G, R) && Cong((c - e) * k, 1, G.q)
       && Opened(G, G.g, y, c, d) == Opened(G, G.g, y, e, f)
       && Opened(G, base, R, c, d) == Opened(G, base, R, e, f) {
      ExtractPower(G, G.g, y, c, d, e, f, k);
      ExtractPower(G, base, R, c, d, e, f, k);
    }
  }

  /** What the check of a commitment recomputes for Q. */
  ghost function OpenedPair(G: Group, g2: nat, Q: nat, c: nat, d5: nat, d6: nat): nat
    requires G.p > 1
  {
    Pow(G.g, d5) * Pow(g2, d6) * Pow(Q, c) % G.p
  }

  lemma ExtractPair(G: Group, g2: nat, Q: nat, c: nat, d5: nat, d6: nat, e: nat, f5: nat, f6: nat, k: nat)
    requires G.p > 1 && G.q > 1 && InGroup(G, G.g) && InGroup(G, g2) && InGroup(G, Q)
    requires OpenedPair(G, g2, Q, c, d5, d6) == OpenedPair(G, g2, Q, e, f5, f6) && Cong((c - e) * k, 1, G.q)
    ensures Q % G.p == Mul(G, Exp(G, G.g, Exponent(G.q, d5, f5, k)), Exp(G, g2, Exponent(G.q, d6, f6, k)))
  {
    hide Pow, Undo, Exponent;
    var a, b := Undo(G.g, G.q, d5), Undo(g2, G.q, d6);
    var x, y := Pow(G.g, f5), Pow(g2, f6);
    Undone(G.g, G.q, d5, G.p);
    Undone(g2, G.q, d6, G.p);
    CongMul(Pow(G.g, d5) * a, 1, Pow(g2, d6) * b, 1, G.p);
    Interchange(Pow(G.g, d5), a, Pow(g2, d6), b);
    Extract(Q, c, e, Pow(G.g, d5) * Pow(g2, d6), a * b, x * y, k, G.q, G.p);
    Interchange(x, y, a, b);
    PowProduct(x * a, y * b, k);
    PowerOut(G.g, d5, f5, k, G.q, G.p);
    PowerOut(g2, d6, f6, k, G.q, G.p);
    PairOut(G, Pow(x * a, k), Pow(G.g, Exponent(G.q, d5, f5, k)), Pow(y * b, k), Pow(g2, Exponent(G.q, d6, f6, k)));
  }

  lemma PairOut(G: Group, u: int, v: int, x: int, y: int)
    requires G.p > 1 && Cong(u, v, G.p) && Cong(x, y, G.p)
    ensures Cong(u * x, (v % G.p) * (y % G.p), G.p)
  {
    CongMul(u, v, x, y, G.p);
    ProductMod(v, y, G.p);
  }

  lemma CommitmentSound(G: Group, tag: nat, g2: nat, g3: nat, P: nat, Q: nat, c: nat, d5: nat, d6: nat,
                        e: nat, f5: nat, f6: nat, k: nat)
    requires G.p > 1 && G.q > 1
    ensures CommitmentChecks(G, tag, g2, g3, P, Q, c, d5, d6)
            <==> c == G.hash(tag, [Opened(G, g3, P, c, d5), OpenedPair(G, g2, Q, c, d5, d6)])
    ensures InGroup(G, G.g) && InGroup(G, g2) && InGroup(G, g3) && InGroup(G, P) && InGroup(G, Q)
            && Cong((c - e) * k, 1, G.q) && Opened(G, g3, P, c, d5) == Opened(G, g3, P, e, f5)
            && OpenedPair(G, g2, Q, c, d5, d6) == OpenedPair(G, g2, Q, e, f5, f6) ==>
              var r, secret := Exponent(G.q, d5, f5, k), Exponent(G.q, d6, f6, k);
              P % G.p == Exp(G, g3, r) && Q % G.p == Mul(G, Exp(G, G.g, r), Exp(G, g2, secret))
  {
    hide Pow, Exponent;
    ProductMod(Pow(g3, d5), Pow(P, c), G.p);
    TripleMod(G, Pow(G.g, d5), Pow(g2, d6), Pow(Q, c));
    if InGroup(G, G.g) && InGroup(G, g2) && InGroup(G, g3) && InGroup(G, P) && InGroup(G, Q)
       && Cong((c - e) * k, 1, G.q) && Opened(G, g3, P, c, d5) == Opened(G, g3, P, e, f5)
       && OpenedPair(G, g2, Q, c, d5, d6) == OpenedPair(G, g2, Q, e, f5, f6) {
      ExtractPower(G, g3, P, c, d5, e, f5, k);
      ExtractPair(G, g2, Q, c, d5, d6, e, f5, f6, k);
    }
  }

  lemma TripleMod(G: Group, x: int, y: int, z: int)
    requires G.p > 1
    ensures ((x % G.p) * (y % G.p) * (z % G.p)) % G.p == (x * y * z) % G.p
  {
    CongMod(x, G.p);
    CongMod(y, G.p);
    CongMod(z, G.p);
    CongMul(x % G.p, x, y % G.p, y, G.p);
    CongMul((x % G.p) * (y % G.p), x * y, z % G.p, z, G.p);
  }

  datatype Draws = Draws(a2: nat, a3: nat, b2: nat, b3: nat, x: nat, y: nat, s: nat, r: nat)

  /** The exponent of Qa / Qb. */
  function Gap(d: Draws): int {
    d.s - d.r + d.a2 * d.b2 * (d.x - d.y)
  }

  lemma QuotientQ(G: Group, d: Draws)
    requires Order(G)
    ensures Divide(G, E(G, d.s + d.a2 * d.b2 * d.x), E(G, d.r + d.a2 * d.b2 * d.y)) == E(G, Gap(d))
  {
    hide Pow, E, Mul, Inverses;
    var k := d.a2 * d.b2;
    EInverse(G, d.r + k * d.y);
    EMul(G, d.s + k * d.x, -(d.r + k * d.y));
    assert k * (d.x - d.y) == k * d.x - k * d.y;
  }

  lemma QuotientP(G: Group, k: int, s: nat, r: nat)
    requires Order(G)
    ensures Divide(G, E(G, k * s), E(G, k * r)) == E(G, k * (s - r))
  {
    hide Pow, E, Mul, Inverses;
    EInverse(G, k * r);
    EMul(G, k * s, -(k * r));
    assert k * (s - r) == k * s - k * r;
  }

  /** The final comparison of either end holds exactly when q divides all blinding exponents times the gap. */
  lemma Verdict(G: Group, d: Draws)
    requires Order(G)
    ensures E(G, d.a3 * d.b3 * (d.s - d.r)) == E(G, Gap(d) * d.a3 * d.b3) <==>
            (d.a2 * d.b2 * d.a3 * d.b3 * (d.x - d.y)) % G.q == 0
  {
    hide Pow, E, Inverses;
    var k, u, w := d.a3 * d.b3, d.s - d.r, d.a2 * d.b2 * (d.x - d.y);
    EEqual(G, k * u, Gap(d) * d.a3 * d.b3);
    Factor(d.a2 * d.b2, d.a3, d.b3, d.x - d.y, u);
    Negated(d.a2 * d.b2 * d.a3 * d.b3 * (d.x - d.y), G.q);
  }

  lemma Factor(k: int, a: int, b: int, z: int, u: int)
    ensures a * b * u - (u + k * z) * a * b == -(k * a * b * z)
  {
    assert (u + k * z) * a * b == (u + k * z) * (a * b);
    assert (u + k * z) * (a * b) == u * (a * b) + (k * z) * (a * b);
    assert (k * z) * (a * b) == k * (z * (a * b)) == k * ((a * b) * z) == (k * (a * b)) * z;
    assert k * a * b == k * (a * b);
  }

  lemma Negated(z: int, q: nat)
    requires q > 0
    ensures (-z) % q == 0 <==> z % q == 0
  {
    if z % q == 0 {
      CongMultiple(-z, 0, -(z / q), q);
    }
    if (-z) % q == 0 {
      CongMultiple(z, 0, -((-z) / q), q);
    }
  }

  // --------------------------------------------------------------------------
  // The state of one end
  // --------------------------------------------------------------------------

  datatype Error = BadCount | BadProof | SecretMissing | Failure | NoQuestion | Corrupt

  /** A TLV to send back. */
  datatype Reply = Nothing | Abort | Mpis(kind: nat, values: seq<nat>)

  const SMP1: nat := 2
  const SMP2: nat := 3
  const SMP3: nat := 4
  const SMP4: nat := 5
  const SMP_ABORT: nat := 6
  const SMP1_QUESTION: nat := 7

  datatype Smp = Smp(
    state: nat, secret: Option<nat>, a2: nat, a3: nat, b3: nat, g2a: nat, g3a: nat, g2: nat, g3: nat,
    pb: nat, qb: nat, g3b: nat, papb: nat, qaqb: nat)

  datatype Outcome = Outcome(smp: Smp, reply: Reply, complete: bool, error: Option<Error>)

  /** The secret is there while a run is under way. */
  predicate Ready(s: Smp) {
    1 <= s.state <= 4 && (s.state != 1 ==> s.secret.Some?)
  }

  function Reset(s: Smp): Smp {
    s.(state := 1, secret := None)
  }

  /** startSMP in the first state; draw(i) is the i-th random number. */
  function Start(G: Group, s: Smp, draw: nat -> nat): (Smp, seq<nat>)
    requires G.p > 1 && G.q > 0
  {
    (s.(state := 2, a2 := draw(0), a3 := draw(1)), Knowledge(G, 1, draw(0), draw(2))
        + Knowledge(G, 2, draw(1), draw(3)))
  }

  function Receive1(G: Group, s: Smp, m: seq<nat>, draw: nat -> nat): Outcome
    requires G.p > 1 && G.q > 0 && Ready(s)
  {
    if s.state != 1 then Outcome(Reset(s), Abort, false, None) else
    if s.secret.None? then Outcome(s, Nothing, false, Some(SecretMissing)) else
    if |m| != 6 then Outcome(s, Nothing, false, Some(BadCount)) else
    if !KnowledgeChecks(G, 1, m[0], m[1], m[2]) || !KnowledgeChecks(G, 2, m[3], m[4], m[5])
    then Outcome(s, Nothing, false, Some(BadProof)) else
    var g2, g3 := Exp(G, m[0], draw(0)), Exp(G, m[3], draw(1));
    var k := Commitment(G, 5, g2, g3, s.secret.value, draw(4), draw(5), draw(6));
    Outcome(s.(state := 3, g2a := m[0], g3a := m[3], b3 := draw(1), g2 := g2, g3 := g3, pb := k[0], qb := k[1]),
            Mpis(SMP2, Knowledge(G, 3, draw(0), draw(2)) + Knowledge(G, 4, draw(1), draw(3)) + k), false, None)
  }

  function Receive2(G: Group, s: Smp, m: seq<nat>, draw: nat -> nat): Outcome
    requires G.p > 1 && G.q > 0 && Ready(s)
  {
    if s.state != 2 then Outcome(Reset(s), Abort, false, None) else
    if |m| != 11 then Outcome(s, Abort, false, Some(BadCount)) else
    if !KnowledgeChecks(G, 3, m[0], m[1], m[2]) || !KnowledgeChecks(G, 4, m[3], m[4], m[5])
    then Outcome(s, Abort, false, Some(BadProof)) else
    var t := s.(g2 := Exp(G, m[0], s.a2), g3 := Exp(G, m[3], s.a3));
    if !CommitmentChecks(G, 5, t.g2, t.g3, m[6], m[7], m[8], m[9], m[10])
        then Outcome(t, Abort, false, Some(BadProof)) else
    var k := Commitment(G, 6, t.g2, t.g3, s.secret.value, draw(0), draw(1), draw(2));
    var qaqb := Divide(G, k[1], m[7]);
    Outcome(t.(state := 4, g3b := m[3], qaqb := qaqb, papb := Divide(G, k[0], m[6])),
            Mpis(SMP3, k + SameExponent(G, 7, qaqb, s.a3, draw(3))), false, None)
  }

  /** On a mismatch of the secrets the last message still goes out, with the error. */
  function Receive3(G: Group, s: Smp, m: seq<nat>, draw: nat -> nat): Outcome
    requires G.p > 1 && G.q > 0 && Ready(s)
  {
    if s.state != 3 then Outcome(Reset(s), Abort, false, None) else
    if |m| != 8 then Outcome(s, Nothing, false, Some(BadCount)) else
    if !CommitmentChecks(G, 6, s.g2, s.g3, m[0], m[1], m[2], m[3], m[4])
        then Outcome(s, Nothing, false, Some(BadProof)) else
    var qaqb := Divide(G, m[1], s.qb);
    if !SameExponentChecks(G, 7, qaqb, s.g3a, m[5], m[6], m[7]) then Outcome(s, Nothing, false, Some(BadProof)) else
    var reply := Mpis(SMP4, SameExponent(G, 8, qaqb, s.b3, draw(0)));
    if Divide(G, m[0], s.pb) != Exp(G, m[5], s.b3) then Outcome(s, reply, false, Some(Failure))
    else Outcome(Reset(s), reply, true, None)
  }

  function Receive4(G: Group, s: Smp, m: seq<nat>): Outcome
    requires G.p > 1 && G.q > 0 && Ready(s)
  {
    if s.state != 4 then Outcome(Reset(s), Abort, false, None) else
    if |m| != 3 then Outcome(s, Abort, false, Some(BadCount)) else
    if !SameExponentChecks(G, 8, s.qaqb, s.g3b, m[0], m[1], m[2]) then Outcome(s, Abort, false, Some(BadProof)) else
    if Exp(G, m[0], s.a3) != s.papb then Outcome(s, Abort, false, Some(Failure))
    else Outcome(Reset(s), Nothing, true, None)
  }

  /** An abort message. */
  function ReceiveAbort(s: Smp): Outcome {
    Outcome(Reset(s), Nothing, false, if s.state != 1 then Some(Failure) else None)
  }

  /** Where the first zero byte is, or the length. */
  function NulAt(s: seq<byte>): (i: nat)
    ensures i <= |s| && (i < |s| ==> s[i] == 0) && forall k :: 0 <= k < i ==> s[k] != 0
  {
    if s == [] || s[0] == 0 then 0 else 1 + NulAt(s[1..])
  }

  /** The bytes with the numbers; None for a question without its end. */
  function Numbers(kind: nat, data: seq<byte>): Option<seq<byte>> {
    if kind != SMP1_QUESTION then Some(data)
    else if NulAt(data) == |data| then None
    else Some(data[NulAt(data) + 1..])
  }

  /** Any message of the protocol, as it arrives. */
  function ReceiveTlv(G: Group, s: Smp, kind: nat, data: seq<byte>, parse: seq<byte> -> Option<seq<nat>>,
      draw: nat -> nat): Outcome
    requires G.p > 1 && G.q > 0 && Ready(s)
  {
    if kind == SMP_ABORT then ReceiveAbort(s) else
    if Numbers(kind, data).None? then Outcome(s, Nothing, false, Some(NoQuestion)) else
    var m := parse(Numbers(kind, data).value);
    if m.None? then Outcome(s, Nothing, false, Some(Corrupt)) else
    if kind == SMP1 || kind == SMP1_QUESTION then Receive1(G, s, m.value, draw)
    else if kind == SMP2 then Receive2(G, s, m.value, draw)
    else if kind == SMP3 then Receive3(G, s, m.value, draw)
    else Receive4(G, s, m.value)
  }

  /** The question on record afterwards. */
  function AskedIn(was: seq<byte>, state: nat, kind: nat, data: seq<byte>,
      parse: seq<byte> -> Option<seq<nat>>): seq<byte> {
    if kind == SMP_ABORT then [] else
    if Numbers(kind, data).None? then was else
    var q := if kind == SMP1_QUESTION then data[..NulAt(data)] else was;
    var m := parse(Numbers(kind, data).value);
    if m.None? || state == (if kind == SMP1_QUESTION then 1 else kind - SMP1 + 1) then q else []
  }

  /** The message is refused: an error, the run not complete and in the same state as before, the secret kept. */
  predicate Refused(s: Smp, r: Outcome) {
    r.error == Some(BadProof) && !r.complete && r.smp.state == s.state && r.smp.secret == s.secret
  }

  /** A message of the expected length is refused exactly if one of its proofs fails. */
  lemma BadProofRefused(G: Group, s: Smp, m: seq<nat>, draw: nat -> nat)
    requires G.p > 1 && G.q > 0 && Ready(s)
    ensures s.state == 1 && s.secret.Some? && |m| == 6 ==>
              (Refused(s, Receive1(G, s, m, draw)) <==>
                 !(KnowledgeChecks(G, 1, m[0], m[1], m[2]) && KnowledgeChecks(G, 2, m[3], m[4], m[5])))
    ensures s.state == 2 && |m| == 11 ==>
              (Refused(s, Receive2(G, s, m, draw)) <==>
                 !(KnowledgeChecks(G, 3, m[0], m[1], m[2]) && KnowledgeChecks(G, 4, m[3], m[4], m[5]) &&
                   CommitmentChecks(G, 5, Exp(G, m[0], s.a2), Exp(G, m[3], s.a3), m[6], m[7], m[8], m[9], m[10])))
    ensures s.state == 3 && |m| == 8 ==>
              (Refused(s, Receive3(G, s, m, draw)) <==>
                 !(CommitmentChecks(G, 6, s.g2, s.g3, m[0], m[1], m[2], m[3], m[4]) &&
                   SameExponentChecks(G, 7, Divide(G, m[1], s.qb), s.g3a, m[5], m[6], m[7])))
    ensures s.state == 4 && |m| == 3 ==>
              (Refused(s, Receive4(G, s, m)) <==> !SameExponentChecks(G, 8, s.qaqb, s.g3b, m[0], m[1], m[2]))
  {
    hide Exp, Mul, Mul3, Response, KnowledgeChecks, CommitmentChecks, SameExponentChecks, Knowledge, Commitment;
  }

  /** A question ends at its zero byte, and the numbers come behind it; without one there is no message. */
  lemma QuestionParsed(question: seq<byte>, data: seq<byte>, was: seq<byte>, parse: seq<byte> -> Option<seq<nat>>)
    requires 0 !in question
    ensures Numbers(SMP1_QUESTION, question + [0] + data) == Some(data)
    ensures AskedIn(was, 1, SMP1_QUESTION, question + [0] + data, parse) == question
    ensures Numbers(SMP1_QUESTION, question).None? && AskedIn(was, 1, SMP1_QUESTION, question, parse) == was
  {
    var s := question + [0] + data;
    assert s[|question|] == 0 && forall k :: 0 <= k < |question| ==> s[k] == question[k];
    assert NulAt(s) == |question| && NulAt(question) == |question|;
    assert s[|question| + 1..] == data && s[..|question|] == question;
  }

  /** An abort ends a run in any state, and leaves nothing of it; the secret has to be given anew. */
  lemma AbortEnds(G: Group, s: Smp, data: seq<byte>, parse: seq<byte> -> Option<seq<nat>>, draw: nat -> nat,
                  was: seq<byte>)
    requires G.p > 1 && G.q > 0 && Ready(s)
    ensures var r := ReceiveTlv(G, s, SMP_ABORT, data, parse, draw);
            && r.smp.state == 1 && r.smp.secret == None && r.reply == Nothing && !r.complete
            && (r.error == Some(Failure) <==> s.state != 1) && (r.error == None <==> s.state == 1)
    ensures AskedIn(was, s.state, SMP_ABORT, data, parse) == []
  {
  }

  /** In another state than the message is for, everything starts over. */
  lemma OutOfTurn(G: Group, s: Smp, m: seq<nat>, draw: nat -> nat)
    requires G.p > 1 && G.q > 0 && Ready(s)
    ensures s.state != 1 ==> Receive1(G, s, m, draw) == Outcome(Reset(s), Abort, false, None)
    ensures s.state != 2 ==> Receive2(G, s, m, draw) == Outcome(Reset(s), Abort, false, None)
    ensures s.state != 3 ==> Receive3(G, s, m, draw) == Outcome(Reset(s), Abort, false, None)
    ensures s.state != 4 ==> Receive4(G, s, m) == Outcome(Reset(s), Abort, false, None)
  {
    hide Exp, Mul, Mul3, Response, KnowledgeChecks, CommitmentChecks, SameExponentChecks, Knowledge, Commitment;
  }

  // --------------------------------------------------------------------------
  // The two ends together
  // --------------------------------------------------------------------------

  /** Exponents of what the two ends hold after the first two messages. */
  ghost predicate Paired(G: Group, a: Smp, b: Smp, d: Draws)
    requires G.p > 1 && G.q > 0
  {
    && a.a2 == d.a2 && a.a3 == d.a3 && b.b3 == d.b3 && a.secret == Some(d.x) && b.secret == Some(d.y)
    && b.g3a == E(G, d.a3) && b.g2 == E(G, d.a2 * d.b2) && b.g3 == E(G, d.a3 * d.b3)
    && b.pb == E(G, d.a3 * d.b3 * d.r) && b.qb == E(G, d.r + d.a2 * d.b2 * d.y)
  }

  lemma First(G: Group, a: Smp, b: Smp, da: nat -> nat, db: nat -> nat, d: Draws)
      returns (a1: Smp, b1: Smp, m1: seq<nat>, m2: seq<nat>)
    requires Order(G) && Ready(a) && Ready(b) && b.state == 1 && a.secret == Some(d.x) && b.secret == Some(d.y)
    requires d.a2 == da(0) && d.a3 == da(1) && d.b2 == db(0) && d.b3 == db(1) && d.r == db(4)
    ensures Start(G, a, da) == (a1, m1)
    ensures Receive1(G, b, m1, db) == Outcome(b1, Mpis(SMP2, m2), false, None)
    ensures Ready(a1) && Ready(b1) && a1.state == 2 && b1.state == 3 && Paired(G, a1, b1, d)
    ensures |m2| == 11 && m2[0] == E(G, d.b2) && m2[3] == E(G, d.b3) && m2[6] == b1.pb && m2[7] == b1.qb
    ensures KnowledgeChecks(G, 3, m2[0], m2[1], m2[2]) && KnowledgeChecks(G, 4, m2[3], m2[4], m2[5])
    ensures CommitmentChecks(G, 5, b1.g2, b1.g3, m2[6], m2[7], m2[8], m2[9], m2[10])
  {
    hide Pow, E, Order, Exp, Mul, Mul3, Inverses, Response, KnowledgeChecks, CommitmentChecks, Knowledge, Commitment;
    OrderFacts(G);
    KnowledgePasses(G, 1, d.a2, da(2));
    KnowledgePasses(G, 2, d.a3, da(3));
    KnowledgePasses(G, 3, d.b2, db(2));
    KnowledgePasses(G, 4, d.b3, db(3));
    EExp(G, d.a2, d.b2);
    EExp(G, d.a3, d.b3);
    CommitmentPasses(G, 5, d.a2 * d.b2, d.a3 * d.b3, d.y, d.r, db(5), db(6));
    a1, m1 := Start(G, a, da).0, Start(G, a, da).1;
    var o := Receive1(G, b, m1, db);
    b1, m2 := o.smp, o.reply.values;
  }

  lemma Second(G: Group, a: Smp, b: Smp, m2: seq<nat>, da: nat -> nat, d: Draws) returns (a2: Smp, m3: seq<nat>)
    requires Order(G) && Ready(a) && Ready(b) && a.state == 2 && b.state == 3 && Paired(G, a, b, d) && d.s == da(0)
    requires |m2| == 11 && m2[0] == E(G, d.b2) && m2[3] == E(G, d.b3) && m2[6] == b.pb && m2[7] == b.qb
    requires KnowledgeChecks(G, 3, m2[0], m2[1], m2[2]) && KnowledgeChecks(G, 4, m2[3], m2[4], m2[5])
    requires CommitmentChecks(G, 5, b.g2, b.g3, m2[6], m2[7], m2[8], m2[9], m2[10])
    ensures Receive2(G, a, m2, da) == Outcome(a2, Mpis(SMP3, m3), false, None)
    ensures Ready(a2) && a2.state == 4 && a2.a3 == d.a3 && a2.g3b == E(G, d.b3) && a2.qaqb == E(G, Gap(d))
    ensures a2.papb == E(G, d.a3 * d.b3 * (d.s - d.r))
    ensures |m3| == 8 && m3[0] == E(G, d.a3 * d.b3 * d.s) && m3[1] == E(G, d.s + d.a2 * d.b2 * d.x)
    ensures m3[5] == E(G, Gap(d) * d.a3)
    ensures CommitmentChecks(G, 6, b.g2, b.g3, m3[0], m3[1], m3[2], m3[3], m3[4])
    ensures SameExponentChecks(G, 7, E(G, Gap(d)), E(G, d.a3), m3[5], m3[6], m3[7])
  {
    hide Pow, E, Order, Exp, Mul, Mul3, Inverses, Response, KnowledgeChecks, CommitmentChecks, SameExponentChecks,
      Knowledge, Commitment, SameExponent, Divide, Gap;
    OrderFacts(G);
    EExp(G, d.b2, d.a2);
    EExp(G, d.b3, d.a3);
    assert d.b2 * d.a2 == d.a2 * d.b2 && d.b3 * d.a3 == d.a3 * d.b3;
    CommitmentPasses(G, 6, d.a2 * d.b2, d.a3 * d.b3, d.x, d.s, da(1), da(2));
    QuotientQ(G, d);
    QuotientP(G, d.a3 * d.b3, d.s, d.r);
    SameExponentPasses(G, 7, Gap(d), d.a3, da(3));
    var o := Receive2(G, a, m2, da);
    a2, m3 := o.smp, o.reply.values;
  }

  lemma Third(G: Group, a: Smp, b: Smp, m3: seq<nat>, db: nat -> nat, d: Draws) returns (m4: seq<nat>)
    requires Order(G) && Ready(b) && b.state == 3 && Paired(G, a, b, d)
    requires |m3| == 8 && m3[0] == E(G, d.a3 * d.b3 * d.s) && m3[1] == E(G, d.s + d.a2 * d.b2 * d.x)
    requires m3[5] == E(G, Gap(d) * d.a3)
    requires CommitmentChecks(G, 6, b.g2, b.g3, m3[0], m3[1], m3[2], m3[3], m3[4])
    requires SameExponentChecks(G, 7, E(G, Gap(d)), E(G, d.a3), m3[5], m3[6], m3[7])
    ensures Receive3(G, b, m3, db) ==
            if Agree(G, d) then Outcome(Reset(b), Mpis(SMP4, m4), true, None)
                else Outcome(b, Mpis(SMP4, m4), false, Some(Failure))
    ensures |m4| == 3 && m4[0] == E(G, Gap(d) * d.b3)
            && SameExponentChecks(G, 8, E(G, Gap(d)), E(G, d.b3), m4[0], m4[1], m4[2])
  {
    hide Pow, E, Order, Exp, Mul, Mul3, Inverses, Response, KnowledgeChecks, CommitmentChecks, SameExponentChecks,
      Knowledge, Commitment, SameExponent, Divide, Gap;
    OrderFacts(G);
    QuotientQ(G, d);
    QuotientP(G, d.a3 * d.b3, d.s, d.r);
    SameExponentPasses(G, 8, Gap(d), d.b3, db(0));
    EExp(G, Gap(d) * d.a3, d.b3);
    Verdict(G, d);
    m4 := Receive3(G, b, m3, db).reply.values;
  }

  /** The condition under which the run completes. */
  predicate Agree(G: Group, d: Draws)
    requires G.q > 0
  {
    (d.a2 * d.b2 * d.a3 * d.b3 * (d.x - d.y)) % G.q == 0
  }

  lemma Fourth(G: Group, a: Smp, m4: seq<nat>, d: Draws)
    requires Order(G) && Ready(a) && a.state == 4 && a.a3 == d.a3 && a.g3b == E(G, d.b3) && a.qaqb == E(G, Gap(d))
    requires a.papb == E(G, d.a3 * d.b3 * (d.s - d.r))
    requires |m4| == 3 && m4[0] == E(G, Gap(d) * d.b3)
             && SameExponentChecks(G, 8, E(G, Gap(d)), E(G, d.b3), m4[0], m4[1], m4[2])
    ensures Receive4(G, a, m4) ==
            if Agree(G, d) then Outcome(Reset(a), Nothing, true, None) else Outcome(a, Abort, false, Some(Failure))
  {
    hide Pow, E, Order, Exp, Mul, Mul3, Inverses, SameExponentChecks, Gap;
    OrderFacts(G);
    EExp(G, Gap(d) * d.b3, d.a3);
    SwapFactors(Gap(d), d.b3, d.a3);
    Verdict(G, d);
  }

  lemma SwapFactors(z: int, a: int, b: int)
    ensures z * a * b == z * b * a
  {
  }

  /**
   An honest run.  Every proof check on both ends passes, and both ends complete or both report
   failure: they complete exactly when q divides the product of the four blinding exponents and the
   difference of the secrets.
   */
  lemma HonestRun(G: Group, a: Smp, b: Smp, da: nat -> nat, db: nat -> nat, ea: nat -> nat, eb: nat -> nat, d: Draws)
    requires Order(G) && Ready(a) && Ready(b) && b.state == 1 && a.secret == Some(d.x) && b.secret == Some(d.y)
    requires d == Draws(da(0), da(1), db(0), db(1), d.x, d.y, ea(0), db(4))
    ensures var (a1, m1) := Start(G, a, da);
            var o1 := Receive1(G, b, m1, db);
            && o1.error == None && o1.reply.Mpis? && Ready(a1)
            && var o2 := Receive2(G, a1, o1.reply.values, ea);
            && o2.error == None && o2.reply.Mpis? && Ready(o1.smp)
            && var o3 := Receive3(G, o1.smp, o2.reply.values, eb);
            && o3.reply.Mpis? && Ready(o2.smp)
            && var o4 := Receive4(G, o2.smp, o3.reply.values);
            && o3.error == o4.error == (if Agree(G, d) then None else Some(Failure))
            && o3.complete == o4.complete == Agree(G, d)
  {
    hide Start, Receive1, Receive2, Receive3, Receive4, Order, Pow, Agree, KnowledgeChecks, CommitmentChecks,
      SameExponentChecks, E, Gap;
    var a1, b1, m1, m2 := First(G, a, b, da, db, d);
    var a2, m3 := Second(G, a1, b1, m2, ea, d);
    var m4 := Third(G, a1, b1, m3, eb, d);
    Fourth(G, a2, m4, d);
  }

  // --------------------------------------------------------------------------
  // A prime order
  // --------------------------------------------------------------------------

  /** With a prime order and blinding exponents that are not multiples of it, completing means equal secrets. */
  lemma AgreeExactly(G: Group, d: Draws)
    requires Prime(G.q) && d.a2 % G.q != 0 && d.a3 % G.q != 0 && d.b2 % G.q != 0 && d.b3 % G.q != 0
    ensures Agree(G, d) <==> Cong(d.x, d.y, G.q)
  {
    var z := d.x - d.y;
    Unfold4(d.a2, d.b2, d.a3, d.b3, z);
    Euclid(G.q, d.a2, d.b2 * (d.a3 * (d.b3 * z)));
    Euclid(G.q, d.b2, d.a3 * (d.b3 * z));
    Euclid(G.q, d.a3, d.b3 * z);
    Euclid(G.q, d.b3, z);
    CongDifference(d.x, d.y, G.q);
  }

  lemma Unfold4(a: int, b: int, c: int, e: int, z: int)
    ensures a * b * c * e * z == a * (b * (c * (e * z)))
  {
    MulAssoc(a * b * c, e, z);
    MulAssoc(a * b, c, e * z);
    MulAssoc(a, b, c * (e * z));
  }

  /** What calcSMPSecret hashes: the initiator's fingerprint always comes first. */
  function SecretInput(weStarted: bool, mine: seq<byte>, theirs: seq<byte>, ssid: seq<byte>,
      mutual: seq<byte>): seq<byte> {
    [1] + (if weStarted then mine + theirs else theirs + mine) + ssid + mutual
  }

  /** The two ends of one session hash the same bytes exactly when they were given the same words. */
  lemma SecretsMatch(initiator: seq<byte>, responder: seq<byte>, ssid: seq<byte>, ours: seq<byte>, theirs: seq<byte>)
    ensures SecretInput(true, initiator, responder, ssid, ours)
            == SecretInput(false, responder, initiator, ssid, theirs)
            <==> ours == theirs
  {
    var a := SecretInput(true, initiator, responder, ssid, ours);
    var b := SecretInput(false, responder, initiator, ssid, theirs);
    var n := 1 + |initiator| + |responder| + |ssid|;
    assert a[n..] == ours && b[n..] == theirs;
  }

  // --------------------------------------------------------------------------
  // The object
  // --------------------------------------------------------------------------

  /** The smp part of a Conversation; the methods reuse their work variables as the original does. */
  class Session {
    var state: nat
    var secret: Option<nat>
    var a2: nat
    var a3: nat
    var b3: nat
    var g2a: nat
    var g3a: nat
    var g2: nat
    var g3: nat
    var pb: nat
    var qb: nat
    var g3b: nat
    var papb: nat
    var qaqb: nat
    var question: seq<byte>

    ghost function View(): Smp
      reads this
    {
      Smp(state, secret, a2, a3, b3, g2a, g3a, g2, g3, pb, qb, g3b, papb, qaqb)
    }

    method ResetSMP()
      modifies this
      ensures View() == Reset(old(View())) && question == []
    {
      state := 1;
      secret := None;
      question := [];
    }

    /** abort says that an abort message goes first, because a run was under way. */
    method StartSMP(G: Group, draw: nat -> nat) returns (abort: bool, m: seq<nat>)
      requires G.p > 1 && G.q > 0
      modifies this
      ensures (View(), m) == Start(G, old(View()), draw) && abort == (old(state) != 1) && question == []
    {
      abort := state != 1;
      question := [];
      hide Exp, Response;
      a2, a3 := draw(0), draw(1);
      var x2, x3 := Exp(G, G.g, a2), Exp(G, G.g, a3);
      var r2 := draw(2);
      var r := Exp(G, G.g, r2);
      var c2 := G.hash(1, [r]);
      var d2 := Response(G, r2, a2, c2);
      var r3 := draw(3);
      r := Exp(G, G.g, r3);
      var c3 := G.hash(2, [r]);
      var d3 := Response(G, r3, a3, c3);
      state := 2;
      m := [x2, c2, d2, x3, c3, d3];
      assert m == Knowledge(G, 1, a2, r2) + Knowledge(G, 2, a3, r3);
    }

    method ProcessSMP1(G: Group, m: seq<nat>) returns (error: Option<Error>)
      requires G.p > 1
      modifies this`g2a, this`g3a
      ensures error == if |m| != 6 then Some(BadCount)
                       else if KnowledgeChecks(G, 1, m[0], m[1], m[2]) && KnowledgeChecks(G, 2, m[3], m[4], m[5])
                           then None
                       else Some(BadProof)
      ensures View() == if error == None then old(View()).(g2a := m[0], g3a := m[3]) else old(View())
    {
      if |m| != 6 {
        return Some(BadCount);
      }
      var r, s := Exp(G, G.g, m[2]), Exp(G, m[0], m[1]);
      r := Mul(G, r, s);
      var t := G.hash(1, [r]);
      if m[1] != t {
        return Some(BadProof);
      }
      r, s := Exp(G, G.g, m[5]), Exp(G, m[3], m[4]);
      r := Mul(G, r, s);
      t := G.hash(2, [r]);
      if m[4] != t {
        return Some(BadProof);
      }
      g2a, g3a := m[0], m[3];
      return None;
    }

    method GenerateSMP2(G: Group, b2: nat, x3: nat, r2: nat, r3: nat, r4: nat, r5: nat, r6: nat) returns (m: seq<nat>)
      requires G.p > 1 && G.q > 0 && secret.Some?
      modifies this`b3, this`g2, this`g3, this`pb, this`qb
      ensures var x, y := Exp(G, g2a, b2), Exp(G, g3a, x3);
              var k := Commitment(G, 5, x, y, secret.value, r4, r5, r6);
              && View() == old(View()).(b3 := x3, g2 := x, g3 := y, pb := k[0], qb := k[1])
              && m == Knowledge(G, 3, b2, r2) + Knowledge(G, 4, x3, r3) + k
    {
      hide Exp, Commitment, Knowledge;
      b3 := x3;
      var first := Prove(G, 3, b2, r2);
      var second := Prove(G, 4, b3, r3);
      g2, g3 := Exp(G, g2a, b2), Exp(G, g3a, b3);
      var k := Commit(G, 5, g2, g3, secret.value, r4, r5, r6);
      pb, qb := k[0], k[1];
      m := first + second + k;
    }

    /** A power of the generator and the proof that its exponent is known. */
    static method Prove(G: Group, tag: nat, x: nat, r: nat) returns (k: seq<nat>)
      requires G.p > 1 && G.q > 0
      ensures k == Knowledge(G, tag, x, r)
    {
      hide Exp, Response;
      var c := G.hash(tag, [Exp(G, G.g, r)]);
      k := [Exp(G, G.g, x), c, Response(G, r, x, c)];
    }

    static method CheckKnowledge(G: Group, tag: nat, g: nat, c: nat, d: nat) returns (ok: bool)
      requires G.p > 1
      ensures ok == KnowledgeChecks(G, tag, g, c, d)
    {
      var r, s := Exp(G, G.g, d), Exp(G, g, c);
      r := Mul(G, r, s);
      ok := c == G.hash(tag, [r]);
    }

    method ProcessSMP2(G: Group, m: seq<nat>, draw: nat -> nat) returns (out: seq<nat>, error: Option<Error>)
      requires G.p > 1 && G.q > 0 && Ready(View()) && state == 2
      modifies this
      ensures state == 2 && question == old(question) && Outcome(if error == None then View().(state := 4) else View(),
                                    if error == None then Mpis(SMP3, out) else Abort, false, error)
                            == Receive2(G, old(View()), m, draw)
    {
      hide Exp, KnowledgeChecks, CommitmentChecks, Commitment, SameExponent, Divide;
      if |m| != 11 {
        return [], Some(BadCount);
      }
      var ok := CheckKnowledge(G, 3, m[0], m[1], m[2]);
      if !ok {
        return [], Some(BadProof);
      }
      ok := CheckKnowledge(G, 4, m[3], m[4], m[5]);
      if !ok {
        return [], Some(BadProof);
      }
      g2, g3 := Exp(G, m[0], a2), Exp(G, m[3], a3);
      ok := CheckCommitment(G, 5, m[6], m[7], m[8], m[9], m[10]);
      if !ok {
        return [], Some(BadProof);
      }
      out := ReplySMP2(G, m, draw);
      error := None;
    }

    /** The second half: our own commitment, and the quotients that the last step compares. */
    method ReplySMP2(G: Group, m: seq<nat>, draw: nat -> nat) returns (out: seq<nat>)
      requires G.p > 1 && G.q > 0 && secret.Some? && |m| == 11
      modifies this`g3b, this`qaqb, this`papb
      ensures var k := Commitment(G, 6, g2, g3, secret.value, draw(0), draw(1), draw(2));
              && g3b == m[3] && qaqb == Divide(G, k[1], m[7]) && papb == Divide(G, k[0], m[6])
              && out == k + SameExponent(G, 7, qaqb, a3, draw(3))
    {
      hide Exp, Mul, Response, Commitment, Divide;
      var k := Commit(G, 6, g2, g3, secret.value, draw(0), draw(1), draw(2));
      var base := Divide(G, k[1], m[7]);
      var ra := Exp(G, base, a3);
      var r, s := Exp(G, base, draw(3)), Exp(G, G.g, draw(3));
      var cr := G.hash(7, [s, r]);
      var d7 := Response(G, draw(3), a3, cr);
      g3b, qaqb := m[3], base;
      papb := Divide(G, k[0], m[6]);
      out := k + [ra, cr, d7];
    }

    method CheckCommitment(G: Group, tag: nat, P: nat, Q: nat, c: nat, d5: nat, d6: nat) returns (ok: bool)
      requires G.p > 1
      ensures ok == CommitmentChecks(G, tag, g2, g3, P, Q, c, d5, d6)
    {
      var r, s := Exp(G, G.g, d5), Exp(G, g2, d6);
      r := Mul3(G, r, s, Exp(G, Q, c));
      s := Exp(G, g3, d5);
      var t := Exp(G, P, c);
      s := Mul(G, s, t);
      ok := c == G.hash(tag, [s, r]);
    }

    static method Commit(G: Group, tag: nat, g2: nat, g3: nat, secret: nat, r4: nat, r5: nat, r6: nat)
      returns (k: seq<nat>)
      requires G.p > 1 && G.q > 0
      ensures k == Commitment(G, tag, g2, g3, secret, r4, r5, r6)
    {
      hide Exp, Mul, Response;
      var pa := Exp(G, g3, r4);
      var r := Exp(G, g2, secret);
      var qa := Mul(G, Exp(G, G.g, r4), r);
      r := Mul(G, Exp(G, G.g, r5), Exp(G, g2, r6));
      var s := Exp(G, g3, r5);
      var cp := G.hash(tag, [s, r]);
      k := [pa, qa, cp, Response(G, r5, r4, cp), Response(G, r6, secret, cp)];
    }

    method ProcessSMP3(G: Group, m: seq<nat>, draw: nat -> nat) returns (out: Reply, error: Option<Error>)
      requires G.p > 1 && G.q > 0 && Ready(View()) && state == 3
      ensures Outcome(if error == None then Reset(View()) else View(), out, error == None, error)
              == Receive3(G, View(), m, draw)
    {
      hide Exp, Mul, Mul3, Response;
      if |m| != 8 {
        return Nothing, Some(BadCount);
      }
      var ok := CheckCommitment(G, 6, m[0], m[1], m[2], m[3], m[4]);
      if !ok {
        return Nothing, Some(BadProof);
      }
      var base := Divide(G, m[1], qb);
      var r := Mul(G, Exp(G, base, m[7]), Exp(G, m[5], m[6]));
      var s := Mul(G, Exp(G, G.g, m[7]), Exp(G, g3a, m[6]));
      if G.hash(7, [s, r]) != m[6] {
        return Nothing, Some(BadProof);
      }
      var rb := Exp(G, base, b3);
      r, s := Exp(G, base, draw(0)), Exp(G, G.g, draw(0));
      var cr := G.hash(8, [s, r]);
      var d7 := Response(G, draw(0), b3, cr);
      out := Mpis(SMP4, [rb, cr, d7]);
      r := Divide(G, m[0], pb);
      s := Exp(G, m[5], b3);
      error := if r != s then Some(Failure) else None;
    }

    method ProcessSMP4(G: Group, m: seq<nat>) returns (error: Option<Error>)
      requires G.p > 1 && G.q > 0 && Ready(View()) && state == 4
      ensures Outcome(if error == None then Reset(View()) else View(), if error == None then Nothing else Abort,
                      error == None, error) == Receive4(G, View(), m)
    {
      hide Exp, Mul;
      if |m| != 3 {
        return Some(BadCount);
      }
      var r := Mul(G, Exp(G, qaqb, m[2]), Exp(G, m[0], m[1]));
      var s := Mul(G, Exp(G, G.g, m[2]), Exp(G, g3b, m[1]));
      if G.hash(8, [s, r]) != m[1] {
        return Some(BadProof);
      }
      r := Exp(G, m[0], a3);
      error := if r != papb then Some(Failure) else None;
    }

    method AnswerSMP1(G: Group, m: seq<nat>, draw: nat -> nat) returns (out: Reply, error: Option<Error>)
      requires G.p > 1 && G.q > 0 && Ready(View()) && state == 1
      modifies this
      ensures Outcome(View(), out, false, error) == Receive1(G, old(View()), m, draw) && question == old(question)
    {
      hide Exp, Mul, Mul3, Response, KnowledgeChecks, CommitmentChecks, SameExponentChecks, Knowledge, Commitment;
      if secret.None? {
        return Nothing, Some(SecretMissing);
      }
      error := ProcessSMP1(G, m);
      if error.Some? {
        return Nothing, error;
      }
      state := 3;
      var r := GenerateSMP2(G, draw(0), draw(1), draw(2), draw(3), draw(4), draw(5), draw(6));
      out := Mpis(SMP2, r);
    }

    method AnswerSMP2(G: Group, m: seq<nat>, draw: nat -> nat) returns (out: Reply, error: Option<Error>)
      requires G.p > 1 && G.q > 0 && Ready(View()) && state == 2
      modifies this
      ensures Outcome(View(), out, false, error) == Receive2(G, old(View()), m, draw) && question == old(question)
    {
      hide Receive2;
      var r;
      r, error := ProcessSMP2(G, m, draw);
      if error.Some? {
        return Abort, error;
      }
      out, state := Mpis(SMP3, r), 4;
    }

    /** processSMP on the numbers of a TLV. */
    method ProcessSMP(G: Group, kind: nat, m: seq<nat>, draw: nat -> nat)
      returns (out: Reply, complete: bool, error: Option<Error>)
      requires G.p > 1 && G.q > 0 && Ready(View()) && SMP1 <= kind <= SMP4
      modifies this
      ensures Outcome(View(), out, complete, error) ==
              (if kind == SMP1 then Receive1(G, old(View()), m, draw)
               else if kind == SMP2 then Receive2(G, old(View()), m, draw)
               else if kind == SMP3 then Receive3(G, old(View()), m, draw)
               else Receive4(G, old(View()), m))
      ensures question == if old(state) == kind - SMP1 + 1 then old(question) else []
    {
      hide Receive1, Receive2, Receive3, Receive4;
      OutOfTurn(G, View(), m, draw);
      if state != (if kind == SMP1 then 1 else if kind == SMP2 then 2 else if kind == SMP3 then 3 else 4) {
        ResetSMP();
        return Abort, false, None;
      }
      out, complete, error := Nothing, false, None;
      if kind == SMP1 {
        out, error := AnswerSMP1(G, m, draw);
      } else if kind == SMP2 {
        out, error := AnswerSMP2(G, m, draw);
      } else if kind == SMP3 {
        out, error := ProcessSMP3(G, m, draw);
        if error == None {
          state, secret, complete := 1, None, true;
        }
      } else {
        error := ProcessSMP4(G, m);
        if error == None {
          state, secret, complete := 1, None, true;
        } else {
          out := Abort;
        }
      }
    }

    /** processSMP on a whole TLV; parse reads the numbers of a message, if they are in order. */
    method ProcessTlv(G: Group, kind: nat, data: seq<byte>, parse: seq<byte> -> Option<seq<nat>>, draw: nat -> nat)
      returns (out: Reply, complete: bool, error: Option<Error>)
      requires G.p > 1 && G.q > 0 && Ready(View()) && SMP1 <= kind <= SMP1_QUESTION
      modifies this
      ensures Outcome(View(), out, complete, error) == ReceiveTlv(G, old(View()), kind, data, parse, draw)
      ensures question == AskedIn(old(question), old(state), kind, data, parse)
    {
      hide Receive1, Receive2, Receive3, Receive4;
      if kind == SMP_ABORT {
        error := if state != 1 then Some(Failure) else None;
        ResetSMP();
        return Nothing, false, error;
      }
      var body := data;
      if kind == SMP1_QUESTION {
        var nul := NulAt(data);
        if nul == |data| {
          return Nothing, false, Some(NoQuestion);
        }
        question, body := data[..nul], data[nul + 1..];
      }
      var m := parse(body);
      if m.None? {
        return Nothing, false, Some(Corrupt);
      }
      out, complete, error := ProcessSMP(G, if kind == SMP1_QUESTION then SMP1 else kind, m.value, draw);
    }
  }
}
