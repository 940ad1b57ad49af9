/**
 X25519 on top of the field elements: byte conversion, inversion and the Montgomery ladder.
 The ladder is proved equal to the one of section 5 of RFC 7748 on residues modulo 2^255 - 19.
 */
module Curve25519 {
  import opened Modular
  import opened Primes
  import opened Bits
  import opened ByteSeqs
  import opened Field25519
  import opened FieldElement

  function Load3(s: seq<byte>, i: nat): nat
    requires i + 3 <= |s|
  {
    s[i] as int + 0x100 * s[i + 1] as int + 0x1_0000 * s[i + 2] as int
  }

  function Load4(s: seq<byte>, i: nat): nat
    requires i + 4 <= |s|
  {
    Load3(s, i) + 0x100_0000 * s[i + 3] as int
  }

  lemma LittleStep(s: seq<byte>, i: nat)
    requires i < |s|
    ensures Little(s[i..]) == s[i] + 256 * Little(s[i + 1..])
  {
    assert s[i..][1..] == s[i + 1..];
  }

  lemma LittleLoads(s: seq<byte>, i: nat)
    requires i + 3 <= |s|
    ensures Little(s[i..]) == Load3(s, i) + 0x100_0000 * Little(s[i + 3..])
    ensures i + 4 <= |s| ==> Little(s[i..]) == Load4(s, i) + 0x1_0000_0000 * Little(s[i + 4..])
  {
    LittleStep(s, i);
    LittleStep(s, i + 1);
    LittleStep(s, i + 2);
    if i + 4 <= |s| {
      LittleStep(s, i + 3);
    }
  }

  lemma LowLoads(s: seq<byte>)
    requires |s| == 32
    ensures Little(s) == Load4(s, 0) + 0x1_0000_0000 * Load3(s, 4) + 0x100_0000_0000_0000 * Load3(s, 7) +
                         0x1_0000_0000_0000_0000_0000 * Load3(s, 10) +
                         0x100_0000_0000_0000_0000_0000_0000 * Load3(s, 13) +
                         0x1_0000_0000_0000_0000_0000_0000_0000_0000 * Little(s[16..])
  {
    assert s[0..] == s;
    LittleLoads(s, 0);
    LittleLoads(s, 4);
    LittleLoads(s, 7);
    LittleLoads(s, 10);
    LittleLoads(s, 13);
  }

  lemma HighLoads(s: seq<byte>)
    requires |s| == 32
    ensures Little(s[16..]) == Load4(s, 16) + 0x1_0000_0000 * Load3(s, 20) + 0x100_0000_0000_0000 * Load3(s, 23) +
                               0x1_0000_0000_0000_0000_0000 * Load3(s, 26) +
                               0x100_0000_0000_0000_0000_0000_0000 * Load3(s, 29)
  {
    assert s[32..] == [];
    LittleLoads(s, 16);
    LittleLoads(s, 20);
    LittleLoads(s, 23);
    LittleLoads(s, 26);
    LittleLoads(s, 29);
  }

  /** The ten loads of feFromBytes, each shifted to its limb. */
  function Loads(s: seq<byte>): Limbs
    requires |s| == 32
  {
    Limbs(Load4(s, 0), 64 * Load3(s, 4), 32 * Load3(s, 7), 8 * Load3(s, 10), 4 * Load3(s, 13),
          Load4(s, 16), 128 * Load3(s, 20), 32 * Load3(s, 23), 16 * Load3(s, 26), 4 * Load3(s, 29))
  }

  /** The loads tile the 32 bytes. */
  lemma LoadsValue(s: seq<byte>)
    requires |s| == 32
    ensures Value(Loads(s)) == Little(s)
  {
    Expand(Loads(s));
    LowLoads(s);
    HighLoads(s);
  }

  /** dst = src as a 256-bit little-endian number; bit 255 is not masked. */
  method FeFromBytes(dst: array<int32>, src: array<byte>)
    requires dst.Length == 10 && src.Length == 32
    modifies dst
    ensures Tight(Ints(View(dst))) && Residue(dst) == Little(src[..]) % P
  {
    var s := src[..];
    var w := Wide(Load4(s, 0) as int64, Load3(s, 4) as int64 * 64, Load3(s, 7) as int64 * 32, Load3(s, 10) as int64 * 8,
                  Load3(s, 13) as int64 * 4, Load4(s, 16) as int64, Load3(s, 20) as int64 * 128,
                  Load3(s, 23) as int64 * 32,
                  Load3(s, 26) as int64 * 16, Load3(s, 29) as int64 * 4);
    LoadsValue(s);
    assert WideInts(w) == Loads(s);
    var r := CarryTen(w);
    Store(dst, r);
  }

  /** The decoding of section 5 of RFC 7748: the top bit of the last byte does not count. */
  function Masked(s: seq<byte>): (r: seq<byte>)
    requires |s| == 32
    ensures |r| == 32
  {
    s[31 := s[31] % 128]
  }

  function DecodeU(s: seq<byte>): nat
    requires |s| == 32
  {
    Little(Masked(s)) % P
  }

  lemma LoadsBut(s: seq<byte>)
    requires |s| == 32
    ensures var t := s[31 := 0];
            && Load4(s, 0) == Load4(t, 0) && Load3(s, 4) == Load3(t, 4) && Load3(s, 7) == Load3(t, 7)
            && Load3(s, 10) == Load3(t, 10) && Load3(s, 13) == Load3(t, 13) && Load4(s, 16) == Load4(t, 16)
            && Load3(s, 20) == Load3(t, 20) && Load3(s, 23) == Load3(t, 23) && Load3(s, 26) == Load3(t, 26)
            && Load3(s, 29) == Load3(t, 29) + 0x1_0000 * s[31] as int
  {
  }

  /** The last byte counts 2^248 times. */
  lemma LastByte(s: seq<byte>)
    requires |s| == 32
    ensures Little(s) == Little(s[31 := 0])
            + 0x100_0000_0000_0000_0000_0000_0000_0000_0000_0000_0000_0000_0000_0000_0000_0000 * s[31] as int
  {
    hide Little, Load3, Load4;
    var t := s[31 := 0];
    LowLoads(s);
    HighLoads(s);
    LowLoads(t);
    HighLoads(t);
    LoadsBut(s);
  }

  /** What masking takes away is the bit 255. */
  lemma MaskedValue(s: seq<byte>)
    requires |s| == 32
    ensures Little(s) == Little(Masked(s)) + (P + 19) * (s[31] as int / 128)
  {
    hide Little;
    LastByte(s);
    LastByte(Masked(s));
    assert Masked(s)[31 := 0] == s[31 := 0];
    assert s[31] as int == s[31] as int % 128 + 128 * (s[31] as int / 128);
  }

  /** What feFromBytes computes is the coordinate of the RFC exactly when bit 255 is clear. */
  lemma MaskMatters(s: seq<byte>)
    requires |s| == 32
    ensures Little(s) % P == DecodeU(s) <==> s[31] < 128
  {
    hide Little, Masked;
    MaskedValue(s);
    if s[31] >= 128 {
      assert s[31] as int / 128 == 1;
      ShiftedBy(Little(Masked(s)));
    } else {
      assert s[31] as int / 128 == 0;
    }
  }

  lemma ShiftedBy(n: nat)
    ensures (n + (P + 19)) % P != n % P
  {
    CongMultiple(n + (P + 19), n + 19, 1, P);
    if (n + 19) % P == n % P {
      var k := CongWitness(n + 19, n, P);
      assert false;
    }
  }

  lemma {:induction false} LittleZeros(s: seq<byte>)
    requires forall i :: 0 <= i < |s| ==> s[i] == 0
    ensures Little(s) == 0
  {
    if s != [] {
      LittleZeros(s[1..]);
    }
  }

  /** For example a base of 2^255: the RFC reads it as zero. */
  lemma TopBitCounts()
    ensures var s := seq<byte>(32, i => if i == 31 then 128 else 0); Little(s) % P == 19 && DecodeU(s) == 0
  {
    hide Little;
    var s := seq<byte>(32, i => if i == 31 then 128 else 0);
    LastByte(s);
    LittleZeros(s[31 := 0]);
    LittleZeros(Masked(s));
  }

  /** Limbs that are digits: every even limb below 2^26 and every odd limb below 2^25. */
  predicate Digits(l: Limbs) {
    && 0 <= l.l0 < 0x400_0000 && 0 <= l.l1 < 0x200_0000 && 0 <= l.l2 < 0x400_0000 && 0 <= l.l3 < 0x200_0000
    && 0 <= l.l4 < 0x400_0000 && 0 <= l.l5 < 0x200_0000 && 0 <= l.l6 < 0x400_0000 && 0 <= l.l7 < 0x200_0000
    && 0 <= l.l8 < 0x400_0000 && 0 <= l.l9 < 0x200_0000
  }

  lemma DigitsValue(l: Limbs)
    requires Digits(l)
    ensures 0 <= Value(l) < P + 19
  {
    Expand(l);
  }

  /** The argument of the comment on feToBytes: rounding 19 h9 / 2^25 into the carries gives floor(h / P). */
  lemma QuotientExact(h: Limbs, t: int, q: int, r: int)
    requires Tight(h) && 0x200_0000 * t <= 19 * h.l9 + 0x100_0000 < 0x200_0000 * (t + 1)
    requires Value(h) + t == (P + 19) * q + r && 0 <= r < P + 19
    ensures -1 <= q <= 0 && 0 <= Value(h) - P * q < P
  {
    Expand(h);
    var rest := Value(h) - 0x40_0000_0000_0000_0000_0000_0000_0000_0000_0000_0000_0000_0000_0000_0000 * h.l9;
    assert -0x40_0000_0000_0000_0000_0000_0000_0000_0000_0000_0000_0000_0000_0000_0000 < rest;
    assert rest < 0x40_0000_0000_0000_0000_0000_0000_0000_0000_0000_0000_0000_0000_0000_0000;
  }

  /** One step up a chain of carries: the carry out of h + c, and the digit it leaves behind. */
  method Up26(h: int32, c: int32) returns (q: int32, r: int32)
    requires Within(h as int, B26) && Within(c as int, B25)
    ensures h as int + c as int == 0x400_0000 * q as int + r as int && 0 <= r < 0x400_0000 && -3 <= q <= 2
  {
    q := (h + c) / 0x400_0000;
    r := h + c - q * 0x400_0000;
  }

  method Up25(h: int32, c: int32) returns (q: int32, r: int32)
    requires Within(h as int, B25) && Within(c as int, B24)
    ensures h as int + c as int == 0x200_0000 * q as int + r as int && 0 <= r < 0x200_0000 && -3 <= q <= 2
  {
    q := (h + c) / 0x200_0000;
    r := h + c - q * 0x200_0000;
  }

  lemma RippleValue(h: Limbs, r: Limbs, c: int, q0: int, q1: int, q2: int, q3: int, q4: int, q5: int, q6: int,
      q7: int, q8: int, q9: int)
    requires h.l0 + c == 0x400_0000 * q0 + r.l0 && h.l1 + q0 == 0x200_0000 * q1 + r.l1
             && h.l2 + q1 == 0x400_0000 * q2 + r.l2 && h.l3 + q2 == 0x200_0000 * q3 + r.l3
    requires h.l4 + q3 == 0x400_0000 * q4 + r.l4 && h.l5 + q4 == 0x200_0000 * q5 + r.l5
             && h.l6 + q5 == 0x400_0000 * q6 + r.l6 && h.l7 + q6 == 0x200_0000 * q7 + r.l7
    requires h.l8 + q7 == 0x400_0000 * q8 + r.l8 && h.l9 + q8 == 0x200_0000 * q9 + r.l9
    ensures Value(h) + c == (P + 19) * q9 + Value(r)
  {
    Expand(h);
    Expand(r);
  }

  /** The carry that leaves the top limb when c enters at the bottom, and the digits that stay. */
  method Ripple(h: Fe, c: int32) returns (q: int32, r: Fe)
    requires Loose(Ints(h)) && Within(c as int, 64)
    ensures Digits(Ints(r)) && Within(q as int, 3)
    ensures Value(Ints(h)) + c as int == (P + 19) * q as int + Value(Ints(r))
  {
    var q0, r0 := Up26(h.e0, c);
    var q1, r1 := Up25(h.e1, q0);
    var q2, r2 := Up26(h.e2, q1);
    var q3, r3 := Up25(h.e3, q2);
    var q4, r4 := Up26(h.e4, q3);
    var q5, r5 := Up25(h.e5, q4);
    var q6, r6 := Up26(h.e6, q5);
    var q7, r7 := Up25(h.e7, q6);
    var q8, r8 := Up26(h.e8, q7);
    var q9, r9 := Up25(h.e9, q8);
    q, r := q9, Fe(r0, r1, r2, r3, r4, r5, r6, r7, r8, r9);
    RippleValue(Ints(h), Ints(r), c as int, q0 as int, q1 as int, q2 as int, q3 as int, q4 as int, q5 as int,
        q6 as int, q7 as int, q8 as int, q9 as int);
  }

  /** floor(h / P) from the ten limbs. */
  method Quotient(h: Fe) returns (q: int32)
    requires Tight(Ints(h))
    ensures -1 <= q <= 0 && 0 <= Value(Ints(h)) - P * q as int < P
  {
    var t := (19 * h.e9 + 0x100_0000) / 0x200_0000;
    var r;
    q, r := Ripple(h, t);
    DigitsValue(Ints(r));
    QuotientExact(Ints(h), t as int, q as int, Value(Ints(r)));
  }

  /** The digits of h modulo P: add 19 q, ripple, and drop the carry out of the top, which is q. */
  method Canonical(h: Fe) returns (r: Fe)
    requires Tight(Ints(h))
    ensures Digits(Ints(r)) && Value(Ints(r)) == Value(Ints(h)) % P
  {
    var q := Quotient(h);
    var c;
    c, r := Ripple(h, 19 * q);
    DigitsValue(Ints(r));
    CanonicalValue(Value(Ints(h)), q as int, c as int, Value(Ints(r)));
  }

  lemma CanonicalValue(v: int, q: int, c: int, r: int)
    requires 0 <= v - P * q < P && 0 <= r < P + 19 && v + 19 * q == (P + 19) * c + r
    ensures c == q && r == v % P
  {
    CongMultiple(v, r, q, P);
    SmallMod(r, P);
  }

  /** The byte that holds the top k bits of one limb and the bottom of the next. */
  function Join(top: nat, next: nat, k: nat): (b: byte)
    requires top < Doubled(1, k)
  {
    Or(top, Doubled(next, k)) % 256
  }

  lemma JoinValue(top: nat, next: nat, k: nat, m: nat)
    requires top < Doubled(1, k) && m > 0 && Doubled(1, k) * m == 256
    ensures Join(top, next, k) == top + Doubled(1, k) * (next % m)
  {
    OrDisjoint(top, next, k);
    DoubledMul(next, k);
    JoinArithmetic(top, next, Doubled(1, k), m);
  }

  lemma JoinArithmetic(top: nat, next: nat, a: nat, m: nat)
    requires top < a && m > 0 && a * m == 256
    ensures (top + a * next) % 256 == top + a * (next % m)
  {
    var q, r := next / m, next % m;
    Distribute(a, m, q, r);
    MulBelow(a, r, m);
    DivUnique(top + a * next, 256, q, top + a * r);
  }

  lemma ThreeBytes(u: nat)
    ensures u == u % 256 + 0x100 * (u / 0x100 % 256) + 0x1_0000 * (u / 0x1_0000)
  {
  }

  lemma LittleTriple(a: byte, b: byte, c: byte, tail: seq<byte>)
    ensures Little([a, b, c] + tail) == a as int + 0x100 * b as int + 0x1_0000 * c as int + 0x100_0000 * Little(tail)
  {
    var s := [a, b, c] + tail;
    LittleStep(s, 0);
    LittleStep(s, 1);
    LittleStep(s, 2);
    assert s[0..] == s && s[3..] == tail;
  }

  lemma Segment(u: nat, next: nat, k: nat, a: nat, m: nat)
    requires m > 0 && a == Doubled(1, k) && a * m == 256 && u / 0x1_0000 < a
    ensures u + 0x1_0000 * (a * next) ==
            u % 256 + 0x100 * (u / 0x100 % 256) + 0x1_0000 * Join(u / 0x1_0000, next, k) as int
                + 0x100_0000 * (next / m)
  {
    var q, r := next / m, next % m;
    assert a * next == 256 * q + a * r by {
      assert next == m * q + r;
      Distribute(a, m, q, r);
    }
    JoinValue(u / 0x1_0000, next, k, m);
    ThreeBytes(u);
  }

  /** The three bytes from the middle of a limb to the middle of the next. */
  function Three(u: nat, next: nat, k: nat): seq<byte>
    requires u / 0x1_0000 < Doubled(1, k)
  {
    [u % 256, u / 0x100 % 256, Join(u / 0x1_0000, next, k)]
  }

  /** Prepending the three bytes of u to a tail that starts with the rest of the next limb. */
  lemma Extend(u: nat, next: nat, k: nat, a: nat, m: nat, tail: seq<byte>, rest: nat)
    requires m > 0 && a == Doubled(1, k) && a * m == 256 && u / 0x1_0000 < a
    requires Little(tail) == next / m + rest
    ensures Little(Three(u, next, k) + tail) == u + 0x1_0000 * (a * next) + 0x100_0000 * rest
  {
    LittleTriple(u % 256, u / 0x100 % 256, Join(u / 0x1_0000, next, k), tail);
    Segment(u, next, k, a, m);
  }

  lemma Powers()
    ensures Doubled(1, 1) == 2 && Doubled(1, 2) == 4 && Doubled(1, 3) == 8 && Doubled(1, 4) == 16
            && Doubled(1, 5) == 32 && Doubled(1, 6) == 64
  {
  }

  /** The 32 bytes that feToBytes writes for ten digits. */
  function PackHigh(h: Limbs): seq<byte>
    requires Digits(h)
  {
    Powers();
    [h.l5 % 256] + (Three(h.l5 / 0x100, h.l6, 1) + (Three(h.l6 / 0x80, h.l7, 3) + (Three(h.l7 / 0x20, h.l8, 4) +
    (Three(h.l8 / 0x10, h.l9, 6) + [h.l9 / 4 % 256, h.l9 / 0x400 % 256, h.l9 / 0x4_0000 % 256]))))
  }

  function Pack(h: Limbs): (s: seq<byte>)
    requires Digits(h)
    ensures |s| == 32
  {
    Powers();
    [h.l0 % 256] + (Three(h.l0 / 0x100, h.l1, 2) + (Three(h.l1 / 0x40, h.l2, 3) + (Three(h.l2 / 0x20, h.l3, 5) +
    (Three(h.l3 / 8, h.l4, 6) + ([h.l4 / 4 % 256, h.l4 / 0x400 % 256, h.l4 / 0x4_0000 % 256] + PackHigh(h))))))
  }

  lemma LittleByte(b: byte, tail: seq<byte>)
    ensures Little([b] + tail) == b as int + 256 * Little(tail)
  {
    assert ([b] + tail)[1..] == tail;
  }

  lemma LittleThree(h: nat, tail: seq<byte>)
    requires h < 0x400_0000
    ensures Little([h / 4 % 256, h / 0x400 % 256, h / 0x4_0000 % 256] + tail) == h / 4 + 0x100_0000 * Little(tail)
  {
    LittleTriple(h / 4 % 256, h / 0x400 % 256, h / 0x4_0000 % 256, tail);
    LastBytes(h);
  }

  lemma LastBytes(h: nat)
    requires h < 0x400_0000
    ensures h / 4 % 256 + 0x100 * (h / 0x400 % 256) + 0x1_0000 * (h / 0x4_0000 % 256) == h / 4
  {
    var u := h / 4;
    assert h / 0x400 == u / 0x100 && h / 0x4_0000 == u / 0x1_0000;
    ThreeBytes(u);
  }

  lemma PackHighValue(h: Limbs)
    requires Digits(h)
    ensures Little(PackHigh(h)) == h.l5 + 0x200_0000 * h.l6 + 0x8_0000_0000_0000 * h.l7 +
            0x1000_0000_0000_0000_0000 * h.l8 +
                                   0x40_0000_0000_0000_0000_0000_0000 * h.l9
  {
    Powers();
    var t9 := [h.l9 / 4 % 256, h.l9 / 0x400 % 256, h.l9 / 0x4_0000 % 256];
    LittleThree(h.l9, []);
    assert t9 + [] == t9;
    Extend(h.l8 / 0x10, h.l9, 6, 64, 4, t9, 0);
    var t8, r8 := Three(h.l8 / 0x10, h.l9, 6) + t9, 0x40_0000 * h.l9;
    Extend(h.l7 / 0x20, h.l8, 4, 16, 0x10, t8, r8);
    var t7, r7 := Three(h.l7 / 0x20, h.l8, 4) + t8, 0x10_0000 * h.l8 + 0x100_0000 * r8;
    Extend(h.l6 / 0x80, h.l7, 3, 8, 0x20, t7, r7);
    var t6, r6 := Three(h.l6 / 0x80, h.l7, 3) + t7, 0x8_0000 * h.l7 + 0x100_0000 * r7;
    Extend(h.l5 / 0x100, h.l6, 1, 2, 0x80, t6, r6);
    var t5 := Three(h.l5 / 0x100, h.l6, 1) + t6;
    LittleByte(h.l5 % 256, t5);
  }

  lemma PackLowValue(h: Limbs, high: seq<byte>)
    requires Digits(h) && high == PackHigh(h)
    ensures Little(Pack(h)) == h.l0 + 0x400_0000 * h.l1 + 0x8_0000_0000_0000 * h.l2 +
            0x2000_0000_0000_0000_0000 * h.l3 +
                               0x40_0000_0000_0000_0000_0000_0000 * h.l4 +
                               0x1_0000_0000_0000_0000_0000_0000_0000_0000 * Little(high)
  {
    hide Little, Three;
    Powers();
    var t4, r4 := [h.l4 / 4 % 256, h.l4 / 0x400 % 256, h.l4 / 0x4_0000 % 256] + high, 0x100_0000 * Little(high);
    LittleThree(h.l4, high);
    Extend(h.l3 / 8, h.l4, 6, 64, 4, t4, r4);
    var t3, r3 := Three(h.l3 / 8, h.l4, 6) + t4, 0x40_0000 * h.l4 + 0x100_0000 * r4;
    Extend(h.l2 / 0x20, h.l3, 5, 32, 8, t3, r3);
    var t2, r2 := Three(h.l2 / 0x20, h.l3, 5) + t3, 0x20_0000 * h.l3 + 0x100_0000 * r3;
    Extend(h.l1 / 0x40, h.l2, 3, 8, 0x20, t2, r2);
    var t1, r1 := Three(h.l1 / 0x40, h.l2, 3) + t2, 0x8_0000 * h.l2 + 0x100_0000 * r2;
    Extend(h.l0 / 0x100, h.l1, 2, 4, 0x40, t1, r1);
    LittleByte(h.l0 % 256, Three(h.l0 / 0x100, h.l1, 2) + t1);
  }

  lemma PackValue(h: Limbs)
    requires Digits(h)
    ensures Little(Pack(h)) == Value(h)
  {
    PackHighValue(h);
    PackLowValue(h, PackHigh(h));
    Expand(h);
  }

  method WriteLimbs(h: array<int32>, r: Fe)
    requires h.Length == 10
    modifies h
    ensures View(h) == r
  {
    h[0], h[1], h[2], h[3], h[4] := r.e0, r.e1, r.e2, r.e3, r.e4;
    h[5], h[6], h[7], h[8], h[9] := r.e5, r.e6, r.e7, r.e8, r.e9;
  }

  /** The digits of h modulo P and their 32 bytes. */
  method CanonicalBytes(h: Fe) returns (r: Fe, b: seq<byte>)
    requires Tight(Ints(h))
    ensures |b| == 32 && Little(b) == Value(Ints(r)) == Value(Ints(h)) % P
  {
    r := Canonical(h);
    b := Pack(Ints(r));
    PackValue(Ints(r));
  }

  /** s = h modulo P in its unique representation below P, little-endian; h is left in canonical digits. */
  method FeToBytes(s: array<byte>, h: array<int32>)
    requires s.Length == 32 && h.Length == 10 && Tight(Ints(View(h)))
    modifies s, h
    ensures Little(s[..]) == old(Residue(h)) == Value(Ints(View(h)))
  {
    var r, b := CanonicalBytes(View(h));
    WriteLimbs(h, r);
    Assign(s, b);
  }

  // --------------------------------------------------------------------------
  // Inversion
  // --------------------------------------------------------------------------

  /** a holds z^e. */
  ghost predicate Holds(a: array<int32>, z: int, e: nat)
    reads a
  {
    a.Length == 10 && Tight(Ints(View(a))) && Residue(a) == Pow(z, e) % P
  }

  lemma PowerProduct(z: int, d: nat, e: nat)
    ensures ((Pow(z, d) % P) * (Pow(z, e) % P)) % P == Pow(z, d + e) % P
  {
    PowAdd(z, d, e);
    MulResidue(Pow(z, d), Pow(z, e));
  }

  method MulPowers(h: array<int32>, f: array<int32>, g: array<int32>, ghost z: int, ghost d: nat, ghost e: nat)
    requires h.Length == 10 && Holds(f, z, d) && Holds(g, z, e)
    modifies h
    ensures Holds(h, z, d + e)
  {
    PowerProduct(z, d, e);
    FeMul(h, f, g);
  }

  /** 2^n - 1. */
  function Ones(n: nat): nat {
    if n == 0 then 0 else 2 * Ones(n - 1) + 1
  }

  /** A block of m ones moved up by n and filled with n ones is a block of m + n ones. */
  lemma {:induction false} OnesAdd(m: nat, n: nat)
    ensures Doubled(Ones(m), n) + Ones(n) == Ones(m + n)
  {
    if n > 0 {
      OnesAdd(m, n - 1);
    }
  }

  lemma OnesByte(n: nat)
    ensures Ones(n + 8) == 256 * Ones(n) + 255
  {
    assert Ones(n + 2) == 4 * Ones(n) + 3;
    assert Ones(n + 4) == 4 * Ones(n + 2) + 3;
    assert Ones(n + 6) == 4 * Ones(n + 4) + 3;
  }

  lemma OnesWord(n: nat, v: nat)
    requires Ones(n) == v
    ensures Ones(n + 32) == 0x1_0000_0000 * v + 0xFFFF_FFFF
  {
    OnesByte(n);
    OnesByte(n + 8);
    OnesByte(n + 16);
    OnesByte(n + 24);
  }

  lemma Ones255()
    ensures Ones(255) == P + 18
  {
    assert Ones(7) == 127;
    OnesByte(7);
    OnesByte(15);
    OnesByte(23);
    OnesWord(31, 0x7FFFFFFF);
    OnesWord(63, 0x7FFFFFFFFFFFFFFF);
    OnesWord(95, 0x7FFFFFFFFFFFFFFFFFFFFFFF);
    OnesWord(127, 0x7FFFFFFFFFFFFFFFFFFFFFFFFFFFFFFF);
    OnesWord(159, 0x7FFFFFFFFFFFFFFFFFFFFFFFFFFFFFFFFFFFFFFF);
    OnesWord(191, 0x7FFFFFFFFFFFFFFFFFFFFFFFFFFFFFFFFFFFFFFFFFFFFFFF);
    OnesWord(223, 0x7FFFFFFFFFFFFFFFFFFFFFFFFFFFFFFFFFFFFFFFFFFFFFFFFFFFFFFF);
  }

  method SquarePower(h: array<int32>, f: array<int32>, ghost z: int, ghost e: nat)
    requires h.Length == 10 && Holds(f, z, e)
    modifies h
    ensures Holds(h, z, 2 * e)
  {
    PowerProduct(z, e, e);
    FeSquare(h, f);
  }

  /** h = f^(2^n), by n squarings. */
  method SquareTimes(h: array<int32>, f: array<int32>, n: nat, ghost z: int, ghost e: nat)
    requires h.Length == 10 && n > 0 && Holds(f, z, e)
    modifies h
    ensures Holds(h, z, Doubled(e, n))
  {
    SquarePower(h, f, z, e);
    for i := 1 to n
      invariant Holds(h, z, Doubled(e, i))
    {
      SquarePower(h, h, z, Doubled(e, i));
    }
  }

  /** h = f^(2^n) g, where f is a block of m ones and g one of n ones; t is overwritten. */
  method OnesBlock(h: array<int32>, t: array<int32>, f: array<int32>, g: array<int32>, n: nat, ghost z: int,
      ghost m: nat)
    requires h.Length == 10 && t.Length == 10 && t != g && n > 0
    requires Holds(f, z, Ones(m)) && Holds(g, z, Ones(n))
    modifies h, t
    ensures Holds(h, z, Ones(m + n))
  {
    SquareTimes(t, f, n, z, Ones(m));
    MulPowers(h, t, g, z, Doubled(Ones(m), n), Ones(n));
    OnesAdd(m, n);
  }

  /** t0 = z^11 and t1 = z^(2^5 - 1). */
  method InvertStart(t0: array<int32>, t1: array<int32>, t2: array<int32>, z: array<int32>, ghost v: int)
    requires t0.Length == 10 && t1.Length == 10 && t2.Length == 10 && Holds(z, v, 1)
    requires t0 != t1 && t0 != t2 && t1 != t2 && z != t0 && z != t1 && z != t2
    modifies t0, t1, t2
    ensures Holds(t0, v, 11) && Holds(t1, v, 31)
  {
    SquareTimes(t0, z, 1, v, 1);
    SquareTimes(t1, t0, 2, v, 2);
    MulPowers(t1, z, t1, v, 1, 8);
    MulPowers(t0, t0, t1, v, 2, 9);
    SquareTimes(t2, t0, 1, v, 11);
    MulPowers(t1, t1, t2, v, 9, 22);
  }

  /** From z^(2^5 - 1) in t1 to z^(2^10 - 1), and z^(2^20 - 1) in t2. */
  method InvertTwenty(t1: array<int32>, t2: array<int32>, ghost v: int)
    requires t1.Length == 10 && t2.Length == 10 && t1 != t2 && Holds(t1, v, Ones(5))
    modifies t1, t2
    ensures Holds(t1, v, Ones(10)) && Holds(t2, v, Ones(20))
  {
    OnesBlock(t1, t2, t1, t1, 5, v, 5);
    OnesBlock(t2, t2, t1, t1, 10, v, 10);
  }

  /** From there to z^(2^50 - 1) in t1. */
  method InvertFifty(t1: array<int32>, t2: array<int32>, t3: array<int32>, ghost v: int)
    requires t1.Length == 10 && t2.Length == 10 && t3.Length == 10 && t1 != t2 && t1 != t3 && t2 != t3
    requires Holds(t1, v, Ones(10)) && Holds(t2, v, Ones(20))
    modifies t1, t2, t3
    ensures Holds(t1, v, Ones(50))
  {
    OnesBlock(t2, t3, t2, t2, 20, v, 20);
    OnesBlock(t1, t2, t2, t1, 10, v, 40);
  }

  /** From z^(2^50 - 1) in t1 to z^(2^250 - 1). */
  method InvertEnd(t1: array<int32>, t2: array<int32>, t3: array<int32>, ghost v: int)
    requires t1.Length == 10 && t2.Length == 10 && t3.Length == 10 && t1 != t2 && t1 != t3 && t2 != t3
    requires Holds(t1, v, Ones(50))
    modifies t1, t2, t3
    ensures Holds(t1, v, Ones(250))
  {
    OnesBlock(t2, t2, t1, t1, 50, v, 50);
    OnesBlock(t2, t3, t2, t2, 100, v, 100);
    OnesBlock(t1, t2, t2, t1, 50, v, 200);
  }

  /** The last five squarings and the product with z^11. */
  method InvertLast(out: array<int32>, t0: array<int32>, t1: array<int32>, ghost v: int)
    requires out.Length == 10 && t1.Length == 10 && t0 != t1 && Holds(t0, v, 11) && Holds(t1, v, Ones(250))
    modifies out, t1
    ensures Holds(out, v, P - 2)
  {
    SquareTimes(t1, t1, 5, v, Ones(250));
    MulPowers(out, t1, t0, v, Doubled(Ones(250), 5), 11);
    OnesAdd(250, 5);
    Ones255();
    assert Ones(5) == 31;
  }

  lemma PowerOne(v: int)
    ensures Pow(v % P, 1) % P == v % P
  {
    assert Pow(v % P, 1) == v % P;
  }

  /** out = z^(2^255 - 21), the inverse of z by Fermat's little theorem; out may be the same array as z. */
  method FeInvert(out: array<int32>, z: array<int32>)
    requires out.Length == 10 && z.Length == 10 && Tight(Ints(View(z)))
    modifies out
    ensures Tight(Ints(View(out))) && Residue(out) == Pow(old(Residue(z)), P - 2) % P
    ensures Prime(P) && old(Residue(z)) != 0 ==> MulP(Residue(out), old(Residue(z))) == 1
  {
    hide Pow, Value, Tight, MulP;
    ghost var v := Residue(z);
    PowerOne(Value(Ints(View(z))));
    var t0, t1, t2, t3 := new int32[10], new int32[10], new int32[10], new int32[10];
    InvertStart(t0, t1, t2, z, v);
    assert Ones(5) == 31;
    InvertTwenty(t1, t2, v);
    InvertFifty(t1, t2, t3, v);
    InvertEnd(t1, t2, t3, v);
    InvertLast(out, t0, t1, v);
    InverseResidue(v);
  }

  lemma InverseResidue(v: int)
    requires 0 <= v < P
    ensures Prime(P) && v != 0 ==> MulP(Pow(v, P - 2) % P, v) == 1
  {
    if Prime(P) && v != 0 {
      FermatInverse(P, v);
      CongMod(Pow(v, P - 2), P);
      CongMul(Pow(v, P - 2) % P, Pow(v, P - 2), v, v, P);
    }
  }

  // --------------------------------------------------------------------------
  // The Montgomery ladder
  // --------------------------------------------------------------------------

  function AddP(a: int, b: int): int { (a + b) % P }
  function SubP(a: int, b: int): int { (a - b) % P }
  function MulP(a: int, b: int): int { (a * b) % P }

  /** The four field elements that the ladder carries. */
  datatype Points = Points(x2: int, z2: int, x3: int, z3: int)

  /** One step of the ladder in the form of section 5 of RFC 7748, with a24 = 121665. */
  function LadderStep(x1: int, s: Points): Points {
    var a, b, c, d := AddP(s.x2, s.z2), SubP(s.x2, s.z2), AddP(s.x3, s.z3), SubP(s.x3, s.z3);
    var aa, bb, da, cb := MulP(a, a), MulP(b, b), MulP(d, a), MulP(c, b);
    var e, sum, diff := SubP(aa, bb), AddP(da, cb), SubP(da, cb);
    Points(MulP(aa, bb), MulP(e, AddP(aa, MulP(121665, e))), MulP(sum, sum), MulP(x1, MulP(diff, diff)))
  }

  /** The implementation adds BB to 121666 E instead of AA to 121665 E. */
  lemma SameCoefficient(aa: int, bb: int)
    ensures AddP(bb, MulP(121666, SubP(aa, bb))) == AddP(aa, MulP(121665, SubP(aa, bb)))
  {
    var e := SubP(aa, bb);
    CongMod(121666 * e, P);
    CongMod(121665 * e, P);
    CongAdd(bb, bb, MulP(121666, e), 121666 * e, P);
    CongAdd(aa, aa, MulP(121665, e), 121665 * e, P);
    var k := CongWitness(aa - bb, e, P);
    CongMultiple(aa + 121665 * e, bb + 121666 * e, k, P);
  }

  /** a holds the residue r with the bounds of a multiplication result. */
  ghost predicate At(a: array<int32>, r: int)
    reads a
  {
    a.Length == 10 && Tight(Ints(View(a))) && Residue(a) == r
  }

  /** a holds the residue r with the bounds of a multiplication input. */
  ghost predicate LooseAt(a: array<int32>, r: int)
    reads a
  {
    a.Length == 10 && Loose(Ints(View(a))) && Residue(a) == r
  }

  ghost predicate Separate(a: array<int32>, b: array<int32>, c: array<int32>, d: array<int32>, e: array<int32>,
      f: array<int32>) {
    a != b && a != c && a != d && a != e && a != f && b != c && b != d && b != e && b != f &&
    c != d && c != e && c != f && d != e && d != f && e != f
  }

  method AddAt(dst: array<int32>, a: array<int32>, b: array<int32>, ghost x: int, ghost y: int)
    requires dst.Length == 10 && At(a, x) && At(b, y)
    modifies dst
    ensures LooseAt(dst, AddP(x, y))
  {
    FeAdd(dst, a, b);
  }

  method SubAt(dst: array<int32>, a: array<int32>, b: array<int32>, ghost x: int, ghost y: int)
    requires dst.Length == 10 && At(a, x) && At(b, y)
    modifies dst
    ensures LooseAt(dst, SubP(x, y))
  {
    FeSub(dst, a, b);
  }

  /** tmp0 = D, tmp1 = B, x2 = A, z2 = C. */
  method LadderSums(x2: array<int32>, z2: array<int32>, x3: array<int32>, z3: array<int32>,
                    tmp0: array<int32>, tmp1: array<int32>, ghost s: Points)
    requires Separate(x2, z2, x3, z3, tmp0, tmp1) && tmp0.Length == 10 && tmp1.Length == 10
    requires At(x2, s.x2) && At(z2, s.z2) && At(x3, s.x3) && At(z3, s.z3)
    modifies x2, z2, tmp0, tmp1
    ensures LooseAt(tmp0, SubP(s.x3, s.z3)) && LooseAt(tmp1, SubP(s.x2, s.z2))
    ensures LooseAt(x2, AddP(s.x2, s.z2)) && LooseAt(z2, AddP(s.x3, s.z3))
  {
    SubAt(tmp0, x3, z3, s.x3, s.z3);
    SubAt(tmp1, x2, z2, s.x2, s.z2);
    AddAt(x2, x2, z2, s.x2, s.z2);
    AddAt(z2, x3, z3, s.x3, s.z3);
  }

  /** z3 = DA, z2 = CB, tmp0 = BB, tmp1 = AA. */
  method LadderProducts(x2: array<int32>, z2: array<int32>, z3: array<int32>, tmp0: array<int32>, tmp1: array<int32>,
                        ghost a: int, ghost b: int, ghost c: int, ghost d: int)
    requires z3.Length == 10 && x2 != z2 && x2 != z3 && x2 != tmp0 && x2 != tmp1 && z2 != z3 && z2 != tmp0 && z2 != tmp1
    requires z3 != tmp0 && z3 != tmp1 && tmp0 != tmp1
    requires LooseAt(tmp0, d) && LooseAt(tmp1, b) && LooseAt(x2, a) && LooseAt(z2, c)
    modifies z2, z3, tmp0, tmp1
    ensures At(z3, MulP(d, a)) && At(z2, MulP(c, b)) && At(tmp0, MulP(b, b)) && At(tmp1, MulP(a, a))
  {
    FeMul(z3, tmp0, x2);
    FeMul(z2, z2, tmp1);
    FeSquare(tmp0, tmp1);
    FeSquare(tmp1, x2);
  }

  /** x3 = DA + CB, z2 = DA - CB, x2 = AA * BB, tmp1 = E. */
  method LadderCombine(x2: array<int32>, z2: array<int32>, x3: array<int32>, z3: array<int32>,
                       tmp0: array<int32>, tmp1: array<int32>, ghost aa: int, ghost bb: int, ghost da: int,
                       ghost cb: int)
    requires Separate(x2, z2, x3, z3, tmp0, tmp1) && x2.Length == 10 && x3.Length == 10
    requires At(z3, da) && At(z2, cb) && At(tmp0, bb) && At(tmp1, aa)
    modifies x2, z2, x3, tmp1
    ensures LooseAt(x3, AddP(da, cb)) && LooseAt(z2, SubP(da, cb))
    ensures At(x2, MulP(aa, bb)) && LooseAt(tmp1, SubP(aa, bb)) && At(tmp0, bb)
  {
    AddAt(x3, z3, z2, da, cb);
    SubAt(z2, z3, z2, da, cb);
    FeMul(x2, tmp1, tmp0);
    SubAt(tmp1, tmp1, tmp0, aa, bb);
  }

  /** The squares, the curve constant and the last two products. */
  method LadderFinish(x1: array<int32>, z2: array<int32>, x3: array<int32>, z3: array<int32>,
                      tmp0: array<int32>, tmp1: array<int32>,
                      ghost u: int, ghost sum: int, ghost diff: int, ghost e: int, ghost bb: int)
    requires Separate(x1, z2, x3, z3, tmp0, tmp1) && z3.Length == 10
    requires At(x1, u) && LooseAt(x3, sum) && LooseAt(z2, diff) && LooseAt(tmp1, e) && At(tmp0, bb)
    modifies z2, x3, z3, tmp0
    ensures At(x3, MulP(sum, sum)) && At(z3, MulP(u, MulP(diff, diff)))
    ensures At(z2, MulP(e, AddP(bb, MulP(121666, e))))
  {
    FeSquare(z2, z2);
    FeMul121666(z3, tmp1);
    FeSquare(x3, x3);
    AddAt(tmp0, tmp0, z3, bb, MulP(121666, e));
    FeMul(z3, x1, z2);
    FeMul(z2, tmp1, tmp0);
  }

  /** The body of the ladder loop after the conditional swap. */
  method Step(x1: array<int32>, x2: array<int32>, z2: array<int32>, x3: array<int32>, z3: array<int32>,
              tmp0: array<int32>, tmp1: array<int32>, ghost u: int, ghost s: Points)
    requires Separate(x2, z2, x3, z3, tmp0, tmp1) && Separate(x1, z2, x3, z3, tmp0, tmp1) && x1 != x2
    requires tmp0.Length == 10 && tmp1.Length == 10
    requires At(x1, u) && At(x2, s.x2) && At(z2, s.z2) && At(x3, s.x3) && At(z3, s.z3)
    modifies x2, z2, x3, z3, tmp0, tmp1
    ensures At(x2, LadderStep(u, s).x2) && At(z2, LadderStep(u, s).z2)
    ensures At(x3, LadderStep(u, s).x3) && At(z3, LadderStep(u, s).z3)
  {
    ghost var a, b, c, d := AddP(s.x2, s.z2), SubP(s.x2, s.z2), AddP(s.x3, s.z3), SubP(s.x3, s.z3);
    LadderSums(x2, z2, x3, z3, tmp0, tmp1, s);
    LadderProducts(x2, z2, z3, tmp0, tmp1, a, b, c, d);
    ghost var aa, bb, da, cb := MulP(a, a), MulP(b, b), MulP(d, a), MulP(c, b);
    LadderCombine(x2, z2, x3, z3, tmp0, tmp1, aa, bb, da, cb);
    LadderFinish(x1, z2, x3, z3, tmp0, tmp1, u, AddP(da, cb), SubP(da, cb), SubP(aa, bb), bb);
    SameCoefficient(aa, bb);
  }

  function Shr(x: nat, n: nat): nat {
    if n == 0 then x else Shr(x / 2, n - 1)
  }

  lemma {:induction false} ShrLow(x: nat, m: nat, n: nat, j: nat)
    requires j < n
    ensures Shr(x + Doubled(m, n), j) % 2 == Shr(x, j) % 2
  {
    if j > 0 {
      ShrLow(x / 2, m, n - 1, j - 1);
      assert (x + Doubled(m, n)) / 2 == x / 2 + Doubled(m, n - 1);
    }
  }

  lemma {:induction false} ShrAdd(x: nat, m: nat, n: nat)
    ensures Shr(x, m + n) == Shr(Shr(x, m), n)
  {
    if m > 0 {
      ShrAdd(x / 2, m - 1, n);
    }
  }

  lemma {:induction false} ShrHigh(x: nat, m: nat, n: nat)
    requires x < Doubled(1, n)
    ensures Shr(x + Doubled(m, n), n) == m
  {
    if n > 0 {
      ShrHigh(x / 2, m, n - 1);
      assert (x + Doubled(m, n)) / 2 == x / 2 + Doubled(m, n - 1);
    }
  }

  lemma Byte(e: nat)
    ensures Doubled(e, 8) == 256 * e && Doubled(1, 8) == 256
  {
    assert Doubled(e, 1) == 2 * e;
    assert Doubled(e, 2) == 4 * e;
    assert Doubled(e, 4) == 4 * Doubled(e, 2);
    assert Doubled(e, 6) == 4 * Doubled(e, 4);
  }

  /** Bit 8 i + j of a little-endian number is bit j of byte i. */
  lemma {:induction false} ScalarBit(s: seq<byte>, i: nat, j: nat)
    requires i < |s| && j < 8
    ensures Shr(Little(s), 8 * i + j) % 2 == Shr(s[i], j) % 2
  {
    var rest := Little(s[1..]);
    Byte(rest);
    if i == 0 {
      ShrLow(s[0], rest, 8, j);
    } else {
      ScalarBit(s[1..], i - 1, j);
      ShrHigh(s[0], rest, 8);
      ShrAdd(Little(s), 8, 8 * (i - 1) + j);
    }
  }

  /** decodeScalar25519 of RFC 7748: clear the three low bits and the top bit, set bit 254. */
  function Clamp(s: seq<byte>): seq<byte>
    requires |s| == 32
  {
    s[0 := s[0] - s[0] % 8][31 := s[31] % 64 + 64]
  }

  lemma LowFive(x: nat)
    requires x < 32
    ensures And(31, x) == x
  {
    assert Pow(2, 5) == 32;
    AndMask(x, 5);
  }

  lemma ClearLow(b: byte)
    ensures And(248, b) == b - b % 8
  {
    AndDouble(124, b);
    AndDouble(62, b / 2);
    AndDouble(31, b / 4);
    assert b / 2 / 2 == b / 4 && b / 4 / 2 == b / 8;
    LowFive(b / 8);
  }

  lemma LowSeven(b: nat)
    ensures And(127, b) == b % 128
  {
    assert Pow(2, 7) == 128;
    AndMask(b, 7);
  }

  lemma OrBit6(x: nat)
    requires x < 128
    ensures Or(x, 64) == x % 64 + 64
  {
    var h := x / 64;
    assert Doubled(1, 6) == 64 && Doubled(h, 6) == 64 * h && Or(h, 1) == 1;
    OrSplit(x % 64, h, 1, 6);
  }

  function SwapIf(s: Points, b: int): Points {
    if b == 0 then s else Points(s.x3, s.z3, s.x2, s.z2)
  }

  /**
   The ladder without any lazy swapping: the state after the bits 254 down to t of k.  A one bit
   exchanges the two points before the step and back after it.
   */
  function Ladder(k: nat, u: int, t: nat): Points
    decreases 255 - t
  {
    if t >= 255 then Points(1, 0, u, 1) else
    var b := Shr(k, t) % 2;
    SwapIf(LadderStep(u, SwapIf(Ladder(k, u, t + 1), b)), b)
  }

  /** The affine coordinate at the end of the ladder. */
  function X25519(k: nat, u: int): int {
    var s := Ladder(k, u, 0);
    MulP(s.x2, Pow(s.z2, P - 2) % P)
  }

  method SwapPoints(x2: array<int32>, z2: array<int32>, x3: array<int32>, z3: array<int32>, b: int32, ghost s: Points)
    requires x2 != z2 && x2 != x3 && x2 != z3 && z2 != x3 && z2 != z3 && x3 != z3 && (b == 0 || b == 1)
    requires At(x2, s.x2) && At(z2, s.z2) && At(x3, s.x3) && At(z3, s.z3)
    modifies x2, z2, x3, z3
    ensures At(x2, SwapIf(s, b as int).x2) && At(z2, SwapIf(s, b as int).z2)
    ensures At(x3, SwapIf(s, b as int).x3) && At(z3, SwapIf(s, b as int).z3)
  {
    FeCSwap(x2, x3, b);
    FeCSwap(z2, z3, b);
  }

  method And248(b: byte) returns (r: byte)
    ensures r == b - b % 8
  {
    ClearLow(b);
    r := And(248, b);
  }

  method And127(b: byte) returns (r: byte)
    ensures r == b % 128
  {
    LowSeven(b);
    r := And(127, b);
  }

  method Or64(b: byte) returns (r: byte)
    requires b < 128
    ensures r == b % 64 + 64
  {
    OrBit6(b);
    r := Or(b, 64);
  }

  method ClampScalar(e: array<byte>)
    requires e.Length == 32
    modifies e
    ensures e[..] == Clamp(old(e[..]))
  {
    e[0] := And248(e[0]);
    e[31] := And127(e[31]);
    e[31] := Or64(e[31]);
  }

  lemma UnitResidue(a: array<int32>)
    requires a.Length == 10 && (a[0] == 0 || a[0] == 1) && forall i :: 1 <= i < 10 ==> a[i] == 0
    ensures At(a, a[0] as int)
  {
    UnitValue(Ints(View(a)));
  }

  /** The working storage of the ladder: seven field elements, all different. */
  class Storage {
    const x1: array<int32>
    const x2: array<int32>
    const z2: array<int32>
    const x3: array<int32>
    const z3: array<int32>
    const tmp0: array<int32>
    const tmp1: array<int32>

    constructor ()
      ensures Distinct() && fresh(x1) && fresh(x2) && fresh(z2) && fresh(x3) && fresh(z3) && fresh(tmp0) && fresh(tmp1)
    {
      x1 := new int32[10];
      x2 := new int32[10];
      z2 := new int32[10];
      x3 := new int32[10];
      z3 := new int32[10];
      tmp0 := new int32[10];
      tmp1 := new int32[10];
    }

    ghost predicate Distinct() {
      && Separate(x2, z2, x3, z3, tmp0, tmp1) && Separate(x1, z2, x3, z3, tmp0, tmp1) && x1 != x2
      && x1.Length == 10 && x2.Length == 10 && z2.Length == 10 && x3.Length == 10 && z3.Length == 10
      && tmp0.Length == 10 && tmp1.Length == 10
    }

    ghost predicate Has(s: Points)
      reads x2, z2, x3, z3
    {
      At(x2, s.x2) && At(z2, s.z2) && At(x3, s.x3) && At(z3, s.z3)
    }

    /** One pass of the loop: swap by the change of bit, then step. */
    method Iterate(swap: int32, b: int32, ghost u: int, ghost s: Points)
      requires Distinct() && At(x1, u) && Has(SwapIf(s, swap as int)) && (swap == 0 || swap == 1) && (b == 0 || b == 1)
      modifies x2, z2, x3, z3, tmp0, tmp1
      ensures Has(LadderStep(u, SwapIf(s, b as int)))
    {
      SwapPoints(x2, z2, x3, z3, if swap == b then 0 else 1, SwapIf(s, swap as int));
      Step(x1, x2, z2, x3, z3, tmp0, tmp1, u, SwapIf(s, b as int));
    }
  }

  method InitialPoints(w: Storage, ghost u: int)
    requires w.Distinct() && At(w.x1, u)
    modifies w.x2, w.z2, w.x3, w.z3
    ensures w.Has(Points(1, 0, u, 1))
  {
    FeOne(w.x2);
    UnitResidue(w.x2);
    FeZero(w.z2);
    UnitResidue(w.z2);
    FeCopy(w.x3, w.x1);
    FeOne(w.z3);
    UnitResidue(w.z3);
  }

  lemma SwapTwice(s: Points, b: int)
    ensures SwapIf(SwapIf(s, b), b) == s
  {
  }

  lemma LadderNext(k: nat, u: int, t: nat, b: int, r: Points)
    requires t < 255 && b == Shr(k, t) % 2 && r == LadderStep(u, SwapIf(Ladder(k, u, t + 1), b))
    ensures SwapIf(Ladder(k, u, t), b) == r
  {
    SwapTwice(r, b);
  }

  /** Bit pos of the scalar: e[pos/8] >> (pos & 7), masked to one bit. */
  method ScalarBitAt(e: seq<byte>, pos: nat) returns (b: int32)
    requires |e| == 32 && pos < 255
    ensures (b == 0 || b == 1) && b as int == Shr(Little(e), pos) % 2
  {
    b := (Shr(e[pos / 8], pos % 8) % 2) as int32;
    ScalarBit(e, pos / 8, pos % 8);
  }

  /** The 255 iterations, with the swap of each bit delayed until the next. */
  method LadderLoop(w: Storage, e: seq<byte>, ghost u: int)
    requires w.Distinct() && |e| == 32 && At(w.x1, u)
    requires w.Has(Points(1, 0, u, 1))
    modifies w.x2, w.z2, w.x3, w.z3, w.tmp0, w.tmp1
    ensures w.Has(Ladder(Little(e), u, 0))
  {
    ghost var k := Little(e);
    var swap: int32 := 0;
    var pos := 254;
    ghost var s := Points(1, 0, u, 1);
    while pos >= 0
      invariant -1 <= pos <= 254 && (swap == 0 || swap == 1) && At(w.x1, u)
      invariant s == SwapIf(Ladder(k, u, pos + 1), swap as int) && w.Has(s)
    {
      var b := ScalarBitAt(e, pos);
      s := NextPoints(w, swap, b, k, u, pos, s);
      swap := b;
      pos := pos - 1;
    }
    Unswap(w, swap, Ladder(k, u, 0), s);
  }

  /** The swap after the loop undoes the one that is still pending. */
  method Unswap(w: Storage, swap: int32, ghost l: Points, ghost s: Points)
    requires w.Distinct() && (swap == 0 || swap == 1) && s == SwapIf(l, swap as int) && w.Has(s)
    modifies w.x2, w.z2, w.x3, w.z3
    ensures w.Has(l)
  {
    SwapTwice(l, swap as int);
    SwapPoints(w.x2, w.z2, w.x3, w.z3, swap, s);
  }

  /** One iteration for bit b of k at position pos. */
  method NextPoints(w: Storage, swap: int32, b: int32, ghost k: nat, ghost u: int, ghost pos: nat, ghost s: Points)
    returns (ghost r: Points)
    requires w.Distinct() && At(w.x1, u) && w.Has(s) && (swap == 0 || swap == 1) && (b == 0 || b == 1)
    requires pos < 255 && s == SwapIf(Ladder(k, u, pos + 1), swap as int) && b as int == Shr(k, pos) % 2
    modifies w.x2, w.z2, w.x3, w.z3, w.tmp0, w.tmp1
    ensures r == SwapIf(Ladder(k, u, pos), b as int) && w.Has(r)
  {
    r := LadderStep(u, SwapIf(Ladder(k, u, pos + 1), b as int));
    w.Iterate(swap, b, u, Ladder(k, u, pos + 1));
    LadderNext(k, u, pos, b as int, r);
  }

  /** out = x2 / z2. */
  method Affine(out: array<byte>, x2: array<int32>, z2: array<int32>, ghost x: int, ghost z: int)
    requires out.Length == 32 && At(x2, x) && At(z2, z) && x2 != z2
    modifies out, x2, z2
    ensures Little(out[..]) == MulP(x, Pow(z, P - 2) % P)
  {
    FeInvert(z2, z2);
    FeMul(x2, x2, z2);
    FeToBytes(out, x2);
  }

  method Setup(w: Storage, base: array<byte>)
    requires w.Distinct() && base.Length == 32
    modifies w.x1, w.x2, w.z2, w.x3, w.z3
    ensures At(w.x1, Little(base[..]) % P) && w.Has(Points(1, 0, Little(base[..]) % P, 1))
  {
    FeFromBytes(w.x1, base);
    InitialPoints(w, Little(base[..]) % P);
  }

  method LadderBytes(out: array<byte>, w: Storage, e: seq<byte>, ghost u: int)
    requires w.Distinct() && |e| == 32 && out.Length == 32 && At(w.x1, u) && w.Has(Points(1, 0, u, 1))
    modifies out, w.x2, w.z2, w.x3, w.z3, w.tmp0, w.tmp1
    ensures Little(out[..]) == X25519(Little(e), u)
  {
    ghost var s := Ladder(Little(e), u, 0);
    LadderLoop(w, e, u);
    Affine(out, w.x2, w.z2, s.x2, s.z2);
  }

  /** out = the ladder for the clamped scalar on the coordinate base, fully reduced. */
  method ScalarMult(out: array<byte>, scalar: array<byte>, base: array<byte>)
    requires out.Length == 32 && scalar.Length == 32 && base.Length == 32
    modifies out
    ensures Little(out[..]) == X25519(Little(Clamp(old(scalar[..]))), Little(old(base[..])) % P)
    ensures old(base[31]) < 128 ==> Little(out[..]) == X25519(Little(Clamp(old(scalar[..]))), DecodeU(old(base[..])))
  {
    hide *;
    ghost var b := base[..];
    MaskMatters(b);
    MultiplyClamped(out, scalar, base);
  }

  method MultiplyClamped(out: array<byte>, scalar: array<byte>, base: array<byte>)
    requires out.Length == 32 && scalar.Length == 32 && base.Length == 32
    modifies out
    ensures Little(out[..]) == X25519(Little(Clamp(old(scalar[..]))), Little(old(base[..])) % P)
  {
    hide Little, X25519, Clamp, At, Storage.Distinct, Storage.Has;
    var e := new byte[32];
    Assign(e, scalar[..]);
    ClampScalar(e);
    var w := new Storage();
    Setup(w, base);
    LadderBytes(out, w, e[..], Little(base[..]) % P);
  }
}
