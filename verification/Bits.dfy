/** Bytes, and the bitwise operators on natural numbers, defined bit by bit. */
module Bits {
  import opened Modular

  type byte = x: int | 0 <= x < 256

  function Xor(a: nat, b: nat): nat {
    if a == 0 && b == 0 then 0 else (a % 2 + b % 2) % 2 + 2 * Xor(a / 2, b / 2)
  }

  function And(a: nat, b: nat): nat {
    if a == 0 then 0 else (a % 2) * (b % 2) + 2 * And(a / 2, b / 2)
  }

  function Or(a: nat, b: nat): nat {
    if a == 0 && b == 0 then 0 else (if a % 2 + b % 2 == 0 then 0 else 1) + 2 * Or(a / 2, b / 2)
  }

  lemma XorStep(a: nat, b: nat)
    ensures Xor(a, b) / 2 == Xor(a / 2, b / 2) && Xor(a, b) % 2 == (a % 2 + b % 2) % 2
  {
  }

  lemma {:induction false} XorCommutes(a: nat, b: nat)
    ensures Xor(a, b) == Xor(b, a)
  {
    if a != 0 || b != 0 {
      XorCommutes(a / 2, b / 2);
    }
  }

  lemma {:induction false} XorCancel(a: nat, b: nat)
    ensures Xor(a, Xor(a, b)) == b
  {
    if a != 0 || b != 0 {
      XorCancel(a / 2, b / 2);
      var x := Xor(a, b);
      XorStep(a, b);
      XorStep(a, x);
      Parity(a % 2, b % 2);
      SameHalves(Xor(a, x), b);
    }
  }

  lemma Parity(p: nat, q: nat)
    requires p < 2 && q < 2
    ensures (p + (p + q) % 2) % 2 == q
  {
  }

  lemma SameHalves(a: nat, b: nat)
    requires a / 2 == b / 2 && a % 2 == b % 2
    ensures a == b
  {
  }

  lemma {:induction false} XorZero(a: nat)
    ensures Xor(a, 0) == a
  {
    if a != 0 {
      XorZero(a / 2);
    }
  }

  lemma {:induction false} XorBound(a: nat, b: nat, n: nat)
    requires a < Pow(2, n) && b < Pow(2, n)
    ensures Xor(a, b) < Pow(2, n)
  {
    if n > 0 {
      XorBound(a / 2, b / 2, n - 1);
    }
  }

  /** Masking with n low ones is the remainder modulo 2^n. */
  lemma {:induction false} AndMask(a: nat, n: nat)
    ensures Pow(2, n) >= 1 && And(Pow(2, n) - 1, a) == a % Pow(2, n)
  {
    if n > 0 {
      AndMask(a / 2, n - 1);
      var m := Pow(2, n - 1);
      assert Pow(2, n) == 2 * m;
      assert (2 * m - 1) % 2 == 1 && (2 * m - 1) / 2 == m - 1;
      HalfMod(a, m);
    }
  }

  lemma {:induction false} AndBound(a: nat, b: nat)
    ensures And(a, b) <= a
  {
    if a != 0 {
      AndBound(a / 2, b / 2);
    }
  }

  lemma HalfMod(a: nat, m: nat)
    requires m >= 1
    ensures a % (2 * m) == a % 2 + 2 * ((a / 2) % m)
  {
    var h := a / 2;
    var q, r := h / m, h % m;
    var s := 2 * r + a % 2;
    assert a == s + (2 * m) * q by {
      assert h == m * q + r;
    }
    CongMultiple(a, s, q, 2 * m);
    SmallMod(s, 2 * m);
  }

  lemma SmallMod(s: nat, n: nat)
    requires s < n
    ensures s % n == s
  {
  }

  /** 2^n. */
  function Two(n: nat): (r: nat)
    ensures r > 0
  {
    if n == 0 then 1 else 2 * Two(n - 1)
  }

  /** 2^n e. */
  function Doubled(e: nat, n: nat): nat {
    if n == 0 then e else 2 * Doubled(e, n - 1)
  }

  lemma {:induction false} DoubledMul(e: nat, n: nat)
    ensures Doubled(e, n) == Doubled(1, n) * e
  {
    if n > 0 {
      DoubledMul(e, n - 1);
      assert 2 * (Doubled(1, n - 1) * e) == (2 * Doubled(1, n - 1)) * e;
    }
  }

  lemma AndDouble(a: nat, b: nat)
    ensures And(2 * a, b) == 2 * And(a, b / 2)
  {
  }

  /** Or leaves alone the n bits below the lowest bit of its second operand. */
  lemma {:induction false} OrSplit(a: nat, b: nat, c: nat, n: nat)
    requires a < Doubled(1, n)
    ensures Or(a + Doubled(b, n), Doubled(c, n)) == a + Doubled(Or(b, c), n)
  {
    if n > 0 {
      var x, y := a + Doubled(b, n), Doubled(c, n);
      OrSplit(a / 2, b, c, n - 1);
      assert x / 2 == a / 2 + Doubled(b, n - 1) && x % 2 == a % 2;
      assert y / 2 == Doubled(c, n - 1) && y % 2 == 0;
    }
  }

  lemma {:induction false} OrZero(b: nat)
    ensures Or(0, b) == b
  {
    if b != 0 {
      OrZero(b / 2);
    }
  }

  /** Or of numbers without common bits is their sum. */
  lemma {:induction false} OrDisjoint(a: nat, b: nat, n: nat)
    requires a < Doubled(1, n)
    ensures Or(a, Doubled(b, n)) == a + Doubled(b, n)
  {
    OrZero(b);
    DoubledMul(0, n);
    OrSplit(a, 0, b, n);
  }

  function XorByte(a: byte, b: byte): byte {
    assert Pow(2, 8) == 256;
    XorBound(a, b, 8);
    Xor(a, b)
  }

  lemma XorByteCancel(a: byte, b: byte)
    ensures XorByte(XorByte(a, b), b) == a && XorByte(a, XorByte(a, b)) == b && XorByte(a, b) == XorByte(b, a)
  {
    XorCancel(a, b);
    XorCancel(b, a);
    XorCommutes(a, b);
    XorCommutes(Xor(a, b), b);
  }
}
