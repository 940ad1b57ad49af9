/** Prime numbers: the lemma of Euclid and the little theorem of Fermat. */
module Primes {
  import opened Modular

  ghost predicate Prime(q: nat) {
    q > 1 && forall k :: 1 < k < q ==> q % k != 0
  }

  /** Euclid's lemma, by the division of q by the factor. */
  lemma {:induction false} EuclidStep(q: nat, a: nat, b: int)
    requires Prime(q) && 0 < a < q && (a * b) % q == 0
    ensures b % q == 0
    decreases a
  {
    if a > 1 {
      var k, r := q / a, q % a;
      assert r * b == q * b - k * (a * b) by {
        assert q == a * k + r;
        assert (q - a * k) * b == q * b - a * k * b;
        assert a * k * b == k * (a * b);
      }
      var t := (a * b) / q;
      assert a * b == q * t;
      assert q * b - k * (q * t) == q * (b - k * t);
      CongMultiple(r * b, 0, b - k * t, q);
      EuclidStep(q, r, b);
    }
  }

  lemma Euclid(q: nat, a: int, b: int)
    requires Prime(q) && a % q != 0
    ensures (a * b) % q == 0 <==> b % q == 0
  {
    CongMod(a, q);
    CongMul(a % q, a, b, b, q);
    if (a * b) % q == 0 {
      EuclidStep(q, a % q, b);
    }
    if b % q == 0 {
      CongMul(a, a, b, 0, q);
    }
  }

  lemma CongDifference(x: int, y: int, q: nat)
    requires q > 0
    ensures Cong(x, y, q) <==> (x - y) % q == 0
  {
    if Cong(x, y, q) {
      CongAdd(x, y, y, y, q);
    }
    if (x - y) % q == 0 {
      CongMultiple(x, y, (x - y) / q, q);
    }
  }

  lemma NonZero(p: nat, a: int, b: int)
    requires Prime(p) && a % p != 0 && b % p != 0
    ensures (a * b) % p != 0
  {
    Euclid(p, a, b);
  }

  lemma CancelFactor(p: nat, d: int, x: int, y: int)
    requires Prime(p) && d % p != 0 && Cong(d * x, d * y, p)
    ensures Cong(x, y, p)
  {
    CongDifference(d * x, d * y, p);
    assert d * (x - y) == d * x - d * y;
    Euclid(p, d, x - y);
    CongDifference(x, y, p);
  }

  // --------------------------------------------------------------------------
  // The binomial theorem
  // --------------------------------------------------------------------------

  function Choose(n: nat, k: nat): nat {
    if k == 0 then 1 else if n == 0 then 0 else Choose(n - 1, k - 1) + Choose(n - 1, k)
  }

  lemma {:induction false} ChooseNone(n: nat, k: nat)
    requires k > n
    ensures Choose(n, k) == 0
  {
    if n > 0 {
      ChooseNone(n - 1, k - 1);
      ChooseNone(n - 1, k);
    }
  }

  lemma {:induction false} ChooseAll(n: nat)
    ensures Choose(n, n) == 1
  {
    if n > 0 {
      ChooseAll(n - 1);
      ChooseNone(n - 1, n);
    }
  }

  lemma {:induction false} ChooseOne(n: nat)
    ensures Choose(n, 1) == n
  {
    if n > 0 {
      ChooseOne(n - 1);
    }
  }

  /** Choosing k of n and then one of the k is choosing the one first. */
  lemma {:induction false} Absorb(n: nat, k: nat)
    requires n > 0 && k > 0
    ensures k * Choose(n, k) == n * Choose(n - 1, k - 1)
    decreases n
  {
    if k == 1 {
      ChooseOne(n);
    } else if n == 1 {
      ChooseNone(1, k);
      ChooseNone(0, k - 1);
    } else {
      Absorb(n - 1, k - 1);
      Absorb(n - 1, k);
      var x, y := Choose(n - 2, k - 2), Choose(n - 2, k - 1);
      AbsorbSum(n, k, x, y, Choose(n - 1, k));
    }
  }

  /** x + y is Choose(n - 1, k - 1), and z is Choose(n - 1, k). */
  lemma AbsorbSum(n: int, k: int, x: int, y: int, z: int)
    requires (k - 1) * (x + y) == (n - 1) * x && k * z == (n - 1) * y
    ensures k * (x + y + z) == n * (x + y)
  {
    assert k * (x + y + z) == (k - 1) * (x + y) + (x + y) + k * z;
    assert n * (x + y) == (n - 1) * x + (n - 1) * y + (x + y);
  }

  /** The first m terms of (a + 1)^n. */
  function Terms(n: nat, m: nat, a: int): int {
    if m == 0 then 0 else Terms(n, m - 1, a) + Choose(n, m - 1) * Pow(a, m - 1)
  }

  lemma TermsNext(n: nat, m: nat, a: int)
    ensures Terms(n, m + 1, a) == Terms(n, m, a) + Choose(n, m) * Pow(a, m)
    ensures Choose(n + 1, m + 1) == Choose(n, m) + Choose(n, m + 1) && Pow(a, m + 1) == a * Pow(a, m)
  {
  }

  lemma {:induction false} TermsStep(n: nat, m: nat, a: int)
    ensures Terms(n + 1, m + 1, a) == Terms(n, m + 1, a) + a * Terms(n, m, a)
  {
    TermsNext(n + 1, m, a);
    TermsNext(n, m, a);
    if m > 0 {
      hide Terms, Choose, Pow;
      TermsStep(n, m - 1, a);
      TermsNext(n, m - 1, a);
      NextTerm(a, Terms(n, m - 1, a), Choose(n, m - 1), Choose(n, m), Pow(a, m - 1));
    }
  }

  lemma NextTerm(a: int, t: int, x: int, y: int, p: int)
    ensures (x + y) * (a * p) + a * t == y * (a * p) + a * (t + x * p)
  {
    MulAssoc(x, a, p);
    MulAssoc(a, x, p);
    assert a * (t + x * p) == a * t + a * (x * p);
  }

  lemma OneMore(a: int, t: int, p: int)
    ensures t + 0 * p + a * t == (a + 1) * t
  {
  }

  lemma {:induction false} Binomial(n: nat, a: int)
    ensures Terms(n, n + 1, a) == Pow(a + 1, n)
  {
    if n == 0 {
      TermsNext(0, 0, a);
    } else {
      hide Terms, Choose, Pow;
      Binomial(n - 1, a);
      TermsStep(n - 1, n, a);
      TermsNext(n - 1, n, a);
      TermsNext(n - 1, n - 1, a + 1);
      ChooseNone(n - 1, n);
      OneMore(a, Pow(a + 1, n - 1), Pow(a, n));
    }
  }

  // --------------------------------------------------------------------------
  // The little theorem of Fermat
  // --------------------------------------------------------------------------

  lemma SmallResidue(k: nat, p: nat)
    requires k < p
    ensures k % p == k
  {
  }

  lemma PrimeChoose(p: nat, k: nat)
    requires Prime(p) && 0 < k < p
    ensures Choose(p, k) % p == 0
  {
    hide Choose;
    Absorb(p, k);
    SmallResidue(k, p);
    CongMultiple(p * Choose(p - 1, k - 1), 0, Choose(p - 1, k - 1), p);
    Euclid(p, k, Choose(p, k));
  }

  /** Of the terms between the first and the last, none is left modulo p. */
  lemma {:induction false} MiddleTerms(p: nat, m: nat, a: int)
    requires Prime(p) && 0 < m <= p
    ensures Cong(Terms(p, m, a), 1, p)
  {
    if m == 1 {
      TermsNext(p, 0, a);
    } else {
      hide Choose, Pow;
      MiddleTerms(p, m - 1, a);
      PrimeChoose(p, m - 1);
      CongMul(Choose(p, m - 1), 0, Pow(a, m - 1), Pow(a, m - 1), p);
      CongAdd(Terms(p, m - 1, a), 1, Choose(p, m - 1) * Pow(a, m - 1), 0, p);
    }
  }

  lemma {:induction false} FermatPower(p: nat, a: nat)
    requires Prime(p)
    ensures Cong(Pow(a, p), a, p)
  {
    if a == 0 {
      assert Pow(0, p) == 0 * Pow(0, p - 1);
    } else {
      FermatPower(p, a - 1);
      Binomial(p, a - 1);
      MiddleTerms(p, p, a - 1);
      ChooseAll(p);
      TermsNext(p, p, a - 1);
      CongAdd(Terms(p, p, a - 1), 1, Pow(a - 1, p), a - 1, p);
    }
  }

  /** The power p - 2 of a number is its inverse modulo p. */
  lemma FermatInverse(p: nat, a: nat)
    requires Prime(p) && a % p != 0
    ensures (Pow(a, p - 2) * a) % p == 1
  {
    FermatPower(p, a);
    assert Pow(a, p) == a * Pow(a, p - 1) && Pow(a, p - 1) == a * Pow(a, p - 2);
    CancelFactor(p, a, Pow(a, p - 2) * a, 1);
    SmallResidue(1, p);
  }
}
