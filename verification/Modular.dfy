/** Congruence and powers modulo a positive integer. */
module Modular {

  predicate Cong(a: int, b: int, n: int)
    requires n > 0
  {
    a % n == b % n
  }

  /** Numbers that differ by a multiple of the modulus are congruent, and only those. */
  lemma CongMultiple(a: int, b: int, k: int, n: int)
    requires n > 0 && a == b + n * k
    ensures Cong(a, b, n)
  {
    var qa, ra := a / n, a % n;
    var qb, rb := b / n, b % n;
    assert ra - rb == n * (qb - qa + k) by {
      assert a == n * qa + ra && b == n * qb + rb;
      assert n * (qb - qa + k) == n * qb - n * qa + n * k;
    }
    SmallMultiple(ra - rb, qb - qa + k, n);
  }

  lemma SmallMultiple(d: int, k: int, n: int)
    requires n > 0 && d == n * k && -n < d < n
    ensures d == 0
  {
    assert k >= 1 ==> n * k >= n;
    assert k <= -1 ==> n * k <= -n;
  }

  /** The quotient that witnesses a congruence. */
  lemma CongWitness(a: int, b: int, n: int) returns (k: int)
    requires n > 0 && Cong(a, b, n)
    ensures a == b + n * k
  {
    k := a / n - b / n;
    assert n * k == n * (a / n) - n * (b / n);
  }

  lemma CongAdd(a: int, b: int, c: int, d: int, n: int)
    requires n > 0 && Cong(a, b, n) && Cong(c, d, n)
    ensures Cong(a + c, b + d, n) && Cong(a - c, b - d, n)
  {
    var k := CongWitness(a, b, n);
    var m := CongWitness(c, d, n);
    assert n * (k + m) == n * k + n * m && n * (k - m) == n * k - n * m;
    CongMultiple(a + c, b + d, k + m, n);
    CongMultiple(a - c, b - d, k - m, n);
  }

  lemma CongMul(a: int, b: int, c: int, d: int, n: int)
    requires n > 0 && Cong(a, b, n) && Cong(c, d, n)
    ensures Cong(a * c, b * d, n)
  {
    var k := CongWitness(a, b, n);
    var m := CongWitness(c, d, n);
    calc {
      a * c;
      (b + n * k) * (d + n * m);
      b * d + b * (n * m) + (n * k) * d + (n * k) * (n * m);
      { assert b * (n * m) == n * (b * m) && (n * k) * d == n * (k * d) && (n * k) * (n * m) == n * (k * (n * m)); }
      b * d + n * (b * m) + n * (k * d) + n * (k * (n * m));
      b * d + n * (b * m + k * d + k * (n * m));
    }
    CongMultiple(a * c, b * d, b * m + k * d + k * (n * m), n);
  }

  lemma CongMod(a: int, n: int)
    requires n > 0
    ensures Cong(a % n, a, n)
  {
  }

  lemma MulNat(a: nat, d: nat)
    ensures a * d >= 0
  {
  }

  lemma MulBelow(a: nat, r: nat, m: nat)
    requires r < m
    ensures a * r + a <= a * m
  {
    var d: nat := m - r - 1;
    assert a * (r + 1 + d) == a * r + a + a * d;
    MulNat(a, d);
  }

  lemma Distribute(a: int, m: int, q: int, r: int)
    ensures a * (m * q + r) == (a * m) * q + a * r
  {
    assert a * (m * q + r) == a * (m * q) + a * r;
    assert a * (m * q) == (a * m) * q;
  }

  lemma DivUnique(h: nat, m: nat, q: nat, r: nat)
    requires m > 0 && h == m * q + r && r < m
    ensures h / m == q && h % m == r
  {
    CongMultiple(h, r, q, m);
    assert r % m == r;
    var k := h / m;
    assert m * k == m * q;
    assert k <= q - 1 ==> m * k <= m * (q - 1);
    assert k >= q + 1 ==> m * k >= m * (q + 1);
  }

  function Pow(b: int, e: nat): int {
    if e == 0 then 1 else b * Pow(b, e - 1)
  }

  lemma MulAssoc(a: int, b: int, c: int)
    ensures a * (b * c) == (a * b) * c
  {
  }

  lemma {:induction false} PowAdd(b: int, e: nat, f: nat)
    ensures Pow(b, e + f) == Pow(b, e) * Pow(b, f)
  {
    if e > 0 {
      PowAdd(b, e - 1, f);
      var x, y := Pow(b, e - 1), Pow(b, f);
      assert Pow(b, e + f) == b * Pow(b, e + f - 1) == b * (x * y);
      MulAssoc(b, x, y);
    }
  }

  lemma {:induction false} PowPow(b: int, e: nat, f: nat)
    ensures Pow(Pow(b, e), f) == Pow(b, e * f)
  {
    if f > 0 {
      PowPow(b, e, f - 1);
      assert e * f == e + e * (f - 1);
      PowAdd(b, e, e * (f - 1));
    } else {
      assert e * f == 0;
    }
  }

  lemma {:induction false} PowCong(a: int, b: int, e: nat, n: int)
    requires n > 0 && Cong(a, b, n)
    ensures Cong(Pow(a, e), Pow(b, e), n)
  {
    if e > 0 {
      PowCong(a, b, e - 1, n);
      CongMul(a, b, Pow(a, e - 1), Pow(b, e - 1), n);
    }
  }
}
