/**
 The sponge of SHA-3 (sha3/sha3.go, sha3/xor_generic.go; sections 4 and 5.1 of FIPS 202) for an
 arbitrary permutation: writing and reading in pieces of any size is absorbing the padded message at
 once and squeezing at once.
 */
module Sha3Sponge {
  import opened Modular
  import opened Bits
  import opened ByteSeqs
  import opened Readers

  const LANES: nat := 25
  const STATE: nat := 200
  const MAX_RATE: nat := 168

  /** The permutation on the 200 bytes of the state. */
  type Permutation = seq<byte> -> seq<byte>

  ghost predicate Permutes(F: Permutation) {
    forall s :: |s| == STATE ==> |F(s)| == STATE
  }

  predicate RateOk(rate: nat) {
    8 <= rate <= MAX_RATE && rate % 8 == 0
  }

  // --------------------------------------------------------------------------
  // The reference
  // --------------------------------------------------------------------------

  /** A block goes into the first bytes of the state. */
  function Mix(s: seq<byte>, block: seq<byte>): (r: seq<byte>)
    requires |block| <= |s|
    ensures |r| == |s|
  {
    XorSeq(s[..|block|], block) + s[|block|..]
  }

  /** Absorbs all whole blocks, and says what is left over. */
  ghost function Absorb(F: Permutation, rate: nat, s: seq<byte>, data: seq<byte>): (r: (seq<byte>, seq<byte>))
    requires Permutes(F) && RateOk(rate) && |s| == STATE
    ensures |r.0| == STATE && |r.1| < rate
    decreases |data|
  {
    if |data| < rate then (s, data) else Absorb(F, rate, F(Mix(s, data[..rate])), data[rate..])
  }

  /** pad10*1 with the domain bits: the first padding bit is part of ds, the last the top bit of the last byte. */
  function Padding(rate: nat, ds: byte, n: nat): seq<byte>
    requires n < rate
  {
    var zeros := seq(rate - n - 1, _ => 0 as byte);
    var p := [ds] + zeros;
    p[..|p| - 1] + [XorByte(p[|p| - 1], 0x80)]
  }

  /** Setting a bit above all others. */
  lemma {:induction false} XorTop(a: nat, n: nat)
    requires a < Two(n)
    ensures Xor(a, Two(n)) == a + Two(n)
  {
    if n == 0 {
      assert Xor(0, 1) == 1 + 2 * Xor(0, 0);
    } else {
      XorTop(a / 2, n - 1);
    }
  }

  lemma TopBit(b: byte)
    requires b < 128
    ensures XorByte(b, 0x80) as int == b + 128
  {
    hide Xor;
    assert Two(3) == 8 && Two(5) == 4 * Two(3) && Two(7) == 4 * Two(5);
    XorTop(b, 7);
  }

  /** Where the padding puts what: the domain byte, zeros, and the top bit of the last byte. */
  ghost predicate Padded(msg: seq<byte>, ds: byte, rate: nat, m: seq<byte>)
    requires RateOk(rate)
  {
    && |m| % rate == 0 && |msg| < |m| <= |msg| + rate && msg <= m
    && forall i :: |msg| <= i < |m| ==>
         m[i] as int == (if i == |msg| then ds as int else 0) + (if i == |m| - 1 then 128 else 0)
  }

  lemma PaddingIs(rate: nat, ds: byte, msg: seq<byte>)
    requires RateOk(rate) && ds < 128
    ensures Padded(msg, ds, rate, msg + Padding(rate, ds, |msg| % rate))
  {
    hide XorByte;
    var n := |msg| % rate;
    var p := Padding(rate, ds, n);
    TopBit(0);
    TopBit(ds);
    WholeBlocks(|msg|, rate);
    forall i | 0 <= i < |p|
      ensures p[i] as int == (if i == 0 then ds as int else 0) + (if i == |p| - 1 then 128 else 0)
    {
    }
  }

  lemma WholeBlocks(n: nat, rate: nat)
    requires rate > 0
    ensures (n + (rate - n % rate)) % rate == 0
  {
    assert n + (rate - n % rate) == 0 + rate * (n / rate + 1);
    CongMultiple(n + (rate - n % rate), 0, n / rate + 1, rate);
  }

  /** The domain byte is the last one that is not zero, apart from the top bit of the last. */
  lemma PaddedLonger(rate: nat, ds: byte, msg: seq<byte>, ds2: byte, msg2: seq<byte>, m: seq<byte>)
    requires RateOk(rate) && 0 < ds2 < 128 && Padded(msg, ds, rate, m) && Padded(msg2, ds2, rate, m)
    ensures |msg2| <= |msg|
  {
    var domain := m[|msg2|];
  }

  /** Different messages are padded differently, under one domain byte and under two. */
  lemma PaddingInjective(rate: nat, ds: byte, msg: seq<byte>, ds2: byte, msg2: seq<byte>)
    requires RateOk(rate) && 0 < ds < 128 && 0 < ds2 < 128
    requires msg + Padding(rate, ds, |msg| % rate) == msg2 + Padding(rate, ds2, |msg2| % rate)
    ensures msg == msg2 && ds == ds2
  {
    hide Padding;
    PaddingIs(rate, ds, msg);
    PaddingIs(rate, ds2, msg2);
    var m := msg + Padding(rate, ds, |msg| % rate);
    PaddedLonger(rate, ds, msg, ds2, msg2, m);
    PaddedLonger(rate, ds2, msg2, ds, msg, m);
    assert msg == m[..|msg|] && msg2 == m[..|msg2|];
    var domain := m[|msg|];
  }

  function Zero(): (r: seq<byte>)
    ensures |r| == STATE
  {
    seq(STATE, _ => 0 as byte)
  }

  /** The padded message, absorbed at once. */
  ghost function AbsorbMessage(F: Permutation, rate: nat, ds: byte, msg: seq<byte>): seq<byte>
    requires Permutes(F) && RateOk(rate)
  {
    Absorb(F, rate, Zero(), msg + Padding(rate, ds, |msg| % rate)).0
  }

  /** The first n bytes of output. */
  ghost function Squeeze(F: Permutation, rate: nat, s: seq<byte>, n: nat): (r: seq<byte>)
    requires Permutes(F) && RateOk(rate) && |s| == STATE
    ensures |r| == n
    decreases n
  {
    if n <= rate then s[..n] else s[..rate] + Squeeze(F, rate, F(s), n - rate)
  }

  // --------------------------------------------------------------------------
  // Pieces
  // --------------------------------------------------------------------------

  /** Absorbing in two pieces, the leftover of the first in front of the second. */
  lemma {:induction false} AbsorbAppend(F: Permutation, rate: nat, s: seq<byte>, a: seq<byte>, b: seq<byte>)
    requires Permutes(F) && RateOk(rate) && |s| == STATE
    ensures var r := Absorb(F, rate, s, a); Absorb(F, rate, s, a + b) == Absorb(F, rate, r.0, r.1 + b)
    decreases |a|
  {
    hide Mix;
    if |a| >= rate {
      AbsorbAppend(F, rate, F(Mix(s, a[..rate])), a[rate..], b);
      assert (a + b)[..rate] == a[..rate] && (a + b)[rate..] == a[rate..] + b;
    }
  }

  lemma {:induction false} LeftoverLength(F: Permutation, rate: nat, s: seq<byte>, a: seq<byte>)
    requires Permutes(F) && RateOk(rate) && |s| == STATE
    ensures |Absorb(F, rate, s, a).1| == |a| % rate
    decreases |a|
  {
    hide Mix, RateOk;
    RatePositive(rate);
    if |a| >= rate {
      LeftoverLength(F, rate, F(Mix(s, a[..rate])), a[rate..]);
      ModShift(|a|, rate);
    } else {
      SmallMod(|a|, rate);
    }
  }

  lemma RatePositive(rate: nat)
    requires RateOk(rate)
    ensures 0 < rate <= STATE
  {
  }

  lemma ModShift(n: nat, rate: nat)
    requires 0 < rate <= n
    ensures (n - rate) % rate == n % rate
  {
    CongMultiple(n, n - rate, 1, rate);
  }

  /** What Read keeps: the state, and the bytes of its rate not given out yet. */
  ghost function Pull(F: Permutation, rate: nat, s: seq<byte>, left: seq<byte>,
      n: nat): (r: (seq<byte>, seq<byte>, seq<byte>))
    requires Permutes(F) && RateOk(rate) && |s| == STATE && 0 < |left| <= rate
    ensures |r.0| == n && |r.1| == STATE && 0 < |r.2| <= rate
    decreases n
  {
    if n < |left| then (left[..n], s, left[n..]) else
    var t := F(s);
    var r := Pull(F, rate, t, t[..rate], n - |left|);
    (left + r.0, r.1, r.2)
  }

  /** Reading in two pieces. */
  lemma {:induction false} PullAppend(F: Permutation, rate: nat, s: seq<byte>, left: seq<byte>, m: nat, n: nat)
    requires Permutes(F) && RateOk(rate) && |s| == STATE && 0 < |left| <= rate
    ensures var a := Pull(F, rate, s, left, m);
            var b := Pull(F, rate, a.1, a.2, n);
            Pull(F, rate, s, left, m + n) == (a.0 + b.0, b.1, b.2)
    decreases m
  {
    if m < |left| {
      if m + n < |left| {
        assert left[m..][..n] == left[m..m + n] && left[m..][n..] == left[m + n..];
        assert left[..m] + left[m..m + n] == left[..m + n];
      } else {
        PullRest(F, rate, s, left, m, n);
      }
    } else {
      var t := F(s);
      PullAppend(F, rate, t, t[..rate], m - |left|, n);
      assert m + n - |left| == (m - |left|) + n;
      var a := Pull(F, rate, t, t[..rate], m - |left|);
      var b := Pull(F, rate, a.1, a.2, n);
      assert left + (a.0 + b.0) == (left + a.0) + b.0;
    }
  }

  lemma PullRest(F: Permutation, rate: nat, s: seq<byte>, left: seq<byte>, m: nat, n: nat)
    requires Permutes(F) && RateOk(rate) && |s| == STATE && 0 < |left| <= rate && m < |left| <= m + n
    ensures var t := F(s);
            var r := Pull(F, rate, t, t[..rate], m + n - |left|);
            && Pull(F, rate, s, left[m..], n) == (left[m..] + r.0, r.1, r.2)
            && Pull(F, rate, s, left, m + n) == (left[..m] + (left[m..] + r.0), r.1, r.2)
  {
    var t := F(s);
    var r := Pull(F, rate, t, t[..rate], m + n - |left|);
    assert left[..m] + (left[m..] + r.0) == left + r.0;
  }

  /** From a full block on, reading is squeezing. */
  lemma {:induction false} PullIsSqueeze(F: Permutation, rate: nat, s: seq<byte>, n: nat)
    requires Permutes(F) && RateOk(rate) && |s| == STATE
    ensures Pull(F, rate, s, s[..rate], n).0 == Squeeze(F, rate, s, n)
    decreases n
  {
    if n >= rate {
      PullIsSqueeze(F, rate, F(s), n - rate);
      if n == rate {
        assert s[..rate] + [] == s[..rate];
      }
    }
  }

  // --------------------------------------------------------------------------
  // Any writes, then any reads
  // --------------------------------------------------------------------------

  function Sum(ns: seq<nat>): nat {
    if ns == [] then 0 else Sum(ns[..|ns| - 1]) + ns[|ns| - 1]
  }

  /** The state and the buffer after some writes. */
  ghost function WriteAll(F: Permutation, rate: nat, ws: seq<seq<byte>>): (r: (seq<byte>, seq<byte>))
    requires Permutes(F) && RateOk(rate)
    ensures |r.0| == STATE && |r.1| < rate
  {
    if ws == [] then (Zero(), []) else
    var r := WriteAll(F, rate, ws[..|ws| - 1]);
    Absorb(F, rate, r.0, r.1 + ws[|ws| - 1])
  }

  lemma {:induction false} WritesAbsorb(F: Permutation, rate: nat, ws: seq<seq<byte>>)
    requires Permutes(F) && RateOk(rate)
    ensures WriteAll(F, rate, ws) == Absorb(F, rate, Zero(), Concat(ws))
  {
    hide Zero, Mix;
    if ws != [] {
      WritesAbsorb(F, rate, ws[..|ws| - 1]);
      ConcatAppend(ws[..|ws| - 1], ws[|ws| - 1]);
      assert ws == ws[..|ws| - 1] + [ws[|ws| - 1]];
      AbsorbAppend(F, rate, Zero(), Concat(ws[..|ws| - 1]), ws[|ws| - 1]);
    }
  }

  /** The last block: buffer and padding. */
  ghost function Finish(F: Permutation, rate: nat, ds: byte, s: seq<byte>, buf: seq<byte>): (r: seq<byte>)
    requires Permutes(F) && RateOk(rate) && |s| == STATE && |buf| < rate
    ensures |r| == STATE
  {
    F(Mix(s, PadBlock(rate, ds, buf)))
  }

  function PadBlock(rate: nat, ds: byte, buf: seq<byte>): (r: seq<byte>)
    requires |buf| < rate
    ensures |r| == rate
  {
    buf + Padding(rate, ds, |buf|)
  }

  lemma FinishIsAbsorb(F: Permutation, rate: nat, ds: byte, msg: seq<byte>)
    requires Permutes(F) && RateOk(rate)
    ensures var r := Absorb(F, rate, Zero(), msg); Finish(F, rate, ds, r.0, r.1) == AbsorbMessage(F, rate, ds, msg)
  {
    hide Padding, Mix, Zero;
    var r := Absorb(F, rate, Zero(), msg);
    LeftoverLength(F, rate, Zero(), msg);
    AbsorbAppend(F, rate, Zero(), msg, Padding(rate, ds, |r.1|));
    OneBlock(F, rate, r.0, PadBlock(rate, ds, r.1));
  }

  lemma OneBlock(F: Permutation, rate: nat, s: seq<byte>, block: seq<byte>)
    requires Permutes(F) && RateOk(rate) && |s| == STATE && |block| == rate
    ensures Absorb(F, rate, s, block) == (F(Mix(s, block)), [])
  {
    hide Mix;
    assert block[..rate] == block && block[rate..] == [];
  }

  /** All output of some reads. */
  ghost function ReadAll(F: Permutation, rate: nat, s: seq<byte>, ns: seq<nat>): (r: (seq<byte>, seq<byte>, seq<byte>))
    requires Permutes(F) && RateOk(rate) && |s| == STATE
    ensures |r.1| == STATE && 0 < |r.2| <= rate
  {
    if ns == [] then ([], s, s[..rate]) else
    var r := ReadAll(F, rate, s, ns[..|ns| - 1]);
    var q := Pull(F, rate, r.1, r.2, ns[|ns| - 1]);
    (r.0 + q.0, q.1, q.2)
  }

  lemma {:induction false} ReadsPull(F: Permutation, rate: nat, s: seq<byte>, ns: seq<nat>)
    requires Permutes(F) && RateOk(rate) && |s| == STATE
    ensures ReadAll(F, rate, s, ns) == Pull(F, rate, s, s[..rate], Sum(ns))
  {
    hide Pull;
    if ns == [] {
      PullNothing(F, rate, s);
    } else {
      ReadsPull(F, rate, s, ns[..|ns| - 1]);
      PullAppend(F, rate, s, s[..rate], Sum(ns[..|ns| - 1]), ns[|ns| - 1]);
    }
  }

  lemma PullNothing(F: Permutation, rate: nat, s: seq<byte>)
    requires Permutes(F) && RateOk(rate) && |s| == STATE
    ensures Pull(F, rate, s, s[..rate], 0) == ([], s, s[..rate])
  {
  }

  /** Any division of the message into writes and of the output into reads gives the one-shot result. */
  lemma StreamingIsOneShot(F: Permutation, rate: nat, ds: byte, ws: seq<seq<byte>>, ns: seq<nat>)
    requires Permutes(F) && RateOk(rate)
    ensures var w := WriteAll(F, rate, ws);
            var s := Finish(F, rate, ds, w.0, w.1);
            ReadAll(F, rate, s, ns).0 == Squeeze(F, rate, AbsorbMessage(F, rate, ds, Concat(ws)), Sum(ns))
  {
    hide WriteAll, Absorb, Finish, ReadAll, Squeeze, AbsorbMessage, Pull, Concat, Sum, Zero;
    WritesAbsorb(F, rate, ws);
    FinishIsAbsorb(F, rate, ds, Concat(ws));
    var w := WriteAll(F, rate, ws);
    var s := Finish(F, rate, ds, w.0, w.1);
    ReadsPull(F, rate, s, ns);
    PullIsSqueeze(F, rate, s, Sum(ns));
  }

  // --------------------------------------------------------------------------
  // Lanes
  // --------------------------------------------------------------------------

  /** The little-endian bytes of a number: the inverse of Little. */
  function Bytes(n: nat, k: nat): (r: seq<byte>)
    ensures |r| == k
  {
    if k == 0 then [] else [n % 256] + Bytes(n / 256, k - 1)
  }

  lemma {:induction false} LittleBytes(n: nat, k: nat)
    requires n < Pow256(k)
    ensures Little(Bytes(n, k)) == n
  {
    if k > 0 {
      LittleBytes(n / 256, k - 1);
    }
  }

  lemma {:induction false} BytesLittle(s: seq<byte>)
    ensures Bytes(Little(s), |s|) == s && Little(s) < Pow256(|s|)
  {
    if s != [] {
      BytesLittle(s[1..]);
      var n := Little(s);
      assert n % 256 == s[0] as int && n / 256 == Little(s[1..]);
      assert [s[0]] + s[1..] == s;
    }
  }

  /** Exclusive or works on the low n bits and on the others apart. */
  lemma {:induction false} XorSplit(a: nat, b: nat, c: nat, d: nat, n: nat)
    requires a < Doubled(1, n) && c < Doubled(1, n)
    ensures Xor(a + Doubled(b, n), c + Doubled(d, n)) == Xor(a, c) + Doubled(Xor(b, d), n)
  {
    hide Xor;
    if n > 0 {
      var x, y := a + Doubled(b, n), c + Doubled(d, n);
      XorSplit(a / 2, b, c / 2, d, n - 1);
      HalfOf(a, Doubled(b, n - 1));
      HalfOf(c, Doubled(d, n - 1));
      HalfOf(Xor(a, c), Doubled(Xor(b, d), n - 1));
      XorStep(x, y);
      XorStep(a, c);
      SameHalves(Xor(x, y), Xor(a, c) + Doubled(Xor(b, d), n));
    } else {
      assert Xor(0, 0) == 0 by { XorZero(0); }
    }
  }

  lemma HalfOf(a: nat, b: nat)
    ensures (a + 2 * b) / 2 == a / 2 + b && (a + 2 * b) % 2 == a % 2
  {
  }

  lemma XorBytes(a: byte, b: nat, c: byte, d: nat)
    ensures Xor(a + 256 * b, c + 256 * d) == XorByte(a, c) + 256 * Xor(b, d)
  {
    Doubled8(b);
    Doubled8(d);
    Doubled8(1);
    Doubled8(Xor(b, d));
    XorSplit(a, b, c, d, 8);
  }

  lemma Doubled8(e: nat)
    ensures Doubled(e, 8) == 256 * e
  {
    DoubledMul(e, 8);
    assert Doubled(1, 4) == 16;
    assert Doubled(1, 8) == 16 * Doubled(1, 4);
  }

  /** Exclusive or of little-endian numbers is exclusive or of their bytes. */
  lemma {:induction false} LittleXor(a: seq<byte>, b: seq<byte>)
    requires |a| == |b|
    ensures Little(XorSeq(a, b)) == Xor(Little(a), Little(b))
  {
    hide XorByte;
    if a != [] {
      LittleXor(a[1..], b[1..]);
      XorBytes(a[0], Little(a[1..]), b[0], Little(b[1..]));
      assert XorSeq(a, b)[1..] == XorSeq(a[1..], b[1..]);
    } else {
      assert Xor(0, 0) == 0;
    }
  }

  /** The bytes of the lanes, and the lanes of bytes. */
  function ToBytes(a: seq<nat>): (r: seq<byte>)
    ensures |r| == 8 * |a|
  {
    if a == [] then [] else Bytes(a[0], 8) + ToBytes(a[1..])
  }

  function ToLanes(s: seq<byte>): (r: seq<nat>)
    requires |s| % 8 == 0
    ensures |r| == |s| / 8
  {
    if s == [] then [] else [Little(s[..8])] + ToLanes(s[8..])
  }

  ghost predicate Words(a: seq<nat>) {
    forall i :: 0 <= i < |a| ==> a[i] < Pow256(8)
  }

  /** keccakF1600 on the lanes. */
  type LanePermutation = seq<nat> -> seq<nat>

  ghost predicate LanesOk(f: LanePermutation) {
    forall a :: |a| == LANES && Words(a) ==> |f(a)| == LANES && Words(f(a))
  }

  /** The same on bytes. */
  function OnState(f: LanePermutation, s: seq<byte>): (r: seq<byte>)
    ensures |r| == |s|
  {
    if |s| == STATE && |f(ToLanes(s))| == LANES then ToBytes(f(ToLanes(s))) else s
  }

  function OnBytes(f: LanePermutation): Permutation {
    (s: seq<byte>) => OnState(f, s)
  }

  lemma OnBytesPermutes(f: LanePermutation)
    ensures Permutes(OnBytes(f))
  {
    hide OnState;
    forall s: seq<byte> | |s| == STATE
      ensures |OnBytes(f)(s)| == STATE
    {
      assert OnBytes(f)(s) == OnState(f, s);
    }
  }

  lemma OnBytesIs(f: LanePermutation, a: seq<nat>)
    requires LanesOk(f) && |a| == LANES && Words(a)
    ensures Words(f(a)) && |f(a)| == LANES && OnBytes(f)(ToBytes(a)) == ToBytes(f(a))
  {
    hide ToBytes, ToLanes, Words;
    LanesOfBytes(a);
  }

  lemma {:induction false} LanesOfBytes(a: seq<nat>)
    requires Words(a)
    ensures |ToBytes(a)| % 8 == 0 && ToLanes(ToBytes(a)) == a
  {
    if a != [] {
      LanesOfBytes(a[1..]);
      LittleBytes(a[0], 8);
      var s := ToBytes(a);
      assert s[..8] == Bytes(a[0], 8) && s[8..] == ToBytes(a[1..]);
    }
  }

  /** One lane is eight bytes of the state. */
  lemma {:induction false} LaneAt(a: seq<nat>, i: nat, v: nat)
    requires i < |a|
    ensures ToBytes(a)[8 * i..8 * i + 8] == Bytes(a[i], 8)
    ensures ToBytes(a[i := v]) == ToBytes(a)[..8 * i] + Bytes(v, 8) + ToBytes(a)[8 * i + 8..]
  {
    hide Bytes;
    var h, t := Bytes(a[0], 8), ToBytes(a[1..]);
    if i == 0 {
      assert a[0 := v][1..] == a[1..];
    } else {
      LaneAt(a[1..], i - 1, v);
      assert a[i := v][1..] == a[1..][i - 1 := v];
      assert (h + t)[8 * i..8 * i + 8] == t[8 * (i - 1)..8 * (i - 1) + 8];
      assert (h + t)[..8 * i] == h + t[..8 * (i - 1)] && (h + t)[8 * i + 8..] == t[8 * (i - 1) + 8..];
    }
  }

  lemma {:induction false} XorSeqAppend(a: seq<byte>, b: seq<byte>, c: seq<byte>, d: seq<byte>)
    requires |a| == |b| && |c| == |d|
    ensures XorSeq(a + c, b + d) == XorSeq(a, b) + XorSeq(c, d)
  {
    hide XorByte;
    if a == [] {
      assert a + c == c && b + d == d;
    } else {
      XorSeqAppend(a[1..], b[1..], c, d);
      assert (a + c)[1..] == a[1..] + c && (b + d)[1..] == b[1..] + d;
    }
  }

  /** Mixing in eight bytes more. */
  lemma MixNext(s: seq<byte>, block: seq<byte>, n: nat)
    requires n + 8 <= |block| <= |s|
    ensures var m := Mix(s, block[..n]);
            && m[n..n + 8] == s[n..n + 8]
            && Mix(s, block[..n + 8]) == m[..n] + XorSeq(s[n..n + 8], block[n..n + 8]) + m[n + 8..]
  {
    hide XorSeq;
    var m := Mix(s, block[..n]);
    XorSeqAppend(s[..n], block[..n], s[n..n + 8], block[n..n + 8]);
    assert s[..n] + s[n..n + 8] == s[..n + 8] && block[..n] + block[n..n + 8] == block[..n + 8];
    assert m[..n] == XorSeq(s[..n], block[..n]) && m[n + 8..] == s[n + 8..];
  }

  /** What xoring a lane does to the state. */
  lemma LaneMix(a: seq<nat>, s: seq<byte>, block: seq<byte>, i: nat)
    requires Words(a) && 8 * i + 8 <= |block| <= |s| && |s| == 8 * |a| && i < |a|
             && ToBytes(a) == Mix(s, block[..8 * i])
    ensures var v := Xor(a[i], Little(block[8 * i..8 * i + 8]));
            Words(a[i := v]) && ToBytes(a[i := v]) == Mix(s, block[..8 * i + 8])
  {
    hide Bytes, Little, XorSeq, Mix;
    var b := block[8 * i..8 * i + 8];
    var v := Xor(a[i], Little(b));
    var old8 := s[8 * i..8 * i + 8];
    LaneAt(a, i, v);
    MixNext(s, block, 8 * i);
    assert old8 == Bytes(a[i], 8);
    LittleBytes(a[i], 8);
    LittleXor(old8, b);
    BytesLittle(XorSeq(old8, b));
    XorLength(old8, b);
  }

  lemma XorLength(a: seq<byte>, b: seq<byte>)
    requires |a| == |b|
    ensures |XorSeq(a, b)| == |a|
  {
  }

  // --------------------------------------------------------------------------
  // The object
  // --------------------------------------------------------------------------

  /** buf is the part of storage from bufAt on, bufLen bytes long. */
  class State {
    const f: LanePermutation
    const rate: nat
    const dsbyte: byte
    const outputLen: nat
    const a: array<nat>
    const storage: array<byte>
    var bufAt: nat
    var bufLen: nat
    var squeezing: bool

    ghost predicate Shape()
      reads this, a
    {
      LanesOk(f) && RateOk(rate) && a.Length == LANES && storage.Length == MAX_RATE && Words(a[..])
          && bufAt + bufLen <= MAX_RATE
    }

    ghost predicate Valid()
      reads this, a
    {
      Shape() && (if squeezing then bufLen > 0 && bufAt + bufLen == rate else bufAt == 0 && bufLen < rate)
    }

    ghost function F(): Permutation
      ensures Permutes(F())
    {
      OnBytesPermutes(f);
      OnBytes(f)
    }

    /** The 200 bytes of the state. */
    ghost function S(): (s: seq<byte>)
      reads this, a
      requires Shape()
      ensures |s| == STATE
    {
      ToBytes(a[..])
    }

    ghost function Buf(): seq<byte>
      reads this, a, storage
      requires Shape()
    {
      storage[bufAt..bufAt + bufLen]
    }

    constructor (f: LanePermutation, rate: nat, dsbyte: byte, outputLen: nat)
      requires LanesOk(f) && RateOk(rate)
      ensures Valid() && !squeezing && S() == Zero() && Buf() == [] && this.rate == rate && this.dsbyte == dsbyte
              && this.f == f
      ensures this.outputLen == outputLen && fresh(a) && fresh(storage)
    {
      this.f, this.rate, this.dsbyte, this.outputLen := f, rate, dsbyte, outputLen;
      a := new nat[LANES](_ => 0);
      storage := new byte[MAX_RATE];
      bufAt, bufLen, squeezing := 0, 0, false;
      new;
      ZeroLanes(a[..]);
    }

    /** xorInGeneric. */
    method XorIn(buf: seq<byte>)
      requires Shape() && |buf| <= MAX_RATE && |buf| % 8 == 0
      modifies a
      ensures Shape() && S() == Mix(old(S()), buf)
    {
      hide ToBytes, Mix, Xor, Little, LanesOk, Words;
      ghost var s := S();
      var n := |buf| / 8;
      MixNothing(s);
      assert buf[..0] == [];
      for i := 0 to n
        invariant Shape() && S() == Mix(s, buf[..8 * i])
      {
        ghost var was := a[..];
        LaneMix(was, s, buf, i);
        XorNat(a[i], Little(buf[8 * i..8 * i + 8]));
        a[i] := Xor(a[i], Little(buf[8 * i..8 * i + 8]));
        assert a[..] == was[i := a[i]];
      }
      assert buf[..8 * n] == buf;
    }

    method Keccak()
      requires Shape()
      modifies a
      ensures Shape() && S() == F()(old(S()))
    {
      hide ToBytes, OnBytes, Words;
      OnBytesIs(f, a[..]);
      var b := f(a[..]);
      for i := 0 to LANES
        invariant a[..i] == b[..i]
      {
        a[i] := b[i];
      }
      assert a[..] == b;
    }

    /** copyOutGeneric: the first rate bytes of the state fill the buffer. */
    method Refill()
      requires Shape()
      modifies this, storage
      ensures Shape() && Buf() == S()[..rate] && bufAt == 0 && bufLen == rate && squeezing == old(squeezing)
    {
      hide ToBytes, Bytes, Words, LanesOk;
      bufAt, bufLen := 0, rate;
      for i := 0 to rate / 8
        invariant Shape() && bufAt == 0 && bufLen == rate && squeezing == old(squeezing)
        invariant storage[..8 * i] == S()[..8 * i]
      {
        ghost var lanes := a[..];
        LaneAt(lanes, i, 0);
        ghost var was := storage[..8 * i];
        Place(storage, 8 * i, Bytes(a[i], 8));
        Extend(storage[..], ToBytes(lanes), 8 * i);
      }
    }

    method Permute()
      requires Shape() && (!squeezing ==> bufLen == rate)
      modifies this, a, storage
      ensures Shape() && squeezing == old(squeezing)
      ensures !squeezing ==> S() == F()(Mix(old(S()), old(Buf()))) && Buf() == [] && bufAt == 0
      ensures squeezing ==> S() == F()(old(S())) && Buf() == S()[..rate] && bufAt == 0 && bufLen == rate
    {
      hide ToBytes, OnBytes, Words, LanesOk, Mix;
      if !squeezing {
        XorIn(storage[bufAt..bufAt + bufLen]);
        bufAt, bufLen := 0, 0;
        Keccak();
      } else {
        Keccak();
        Refill();
      }
    }

    /** The buffered bytes, dsbyte, zeros and the final one bit. */
    method Pad()
      requires Valid() && !squeezing
      modifies storage
      ensures Valid() && storage[..rate] == PadBlock(rate, dsbyte, old(Buf()))
    {
      hide ToBytes, Words, LanesOk, XorByte;
      ghost var was := storage[..bufLen];
      storage[bufLen] := dsbyte;
      for i := bufLen + 1 to rate
        invariant storage[..bufLen] == was && storage[bufLen] == dsbyte
        invariant forall k :: bufLen < k < i ==> storage[k] == 0
      {
        storage[i] := 0;
      }
      storage[rate - 1] := XorByte(storage[rate - 1], 0x80);
      assert storage[..rate] == PadBlock(rate, dsbyte, was);
    }

    method PadAndPermute()
      requires Valid() && !squeezing
      modifies this, a, storage
      ensures Valid() && squeezing
      ensures S() == Finish(F(), rate, dsbyte, old(S()), old(Buf())) && Buf() == S()[..rate]
    {
      hide ToBytes, Words, LanesOk, Mix, PadBlock, OnBytes;
      Pad();
      bufLen := rate;
      Permute();
      squeezing := true;
      Refill();
    }

    /** Takes any number of bytes; after a read it panics. */
    method Write(p: seq<byte>) returns (r: Written)
      requires Valid()
      modifies this, a, storage
      ensures Valid() && squeezing == old(squeezing)
      ensures squeezing ==> r == Panicked && S() == old(S()) && Buf() == old(Buf())
      ensures !squeezing ==> r == Wrote(|p|) && (S(), Buf()) == Absorb(F(), rate, old(S()), old(Buf()) + p)
    {
      hide ToBytes, Words, LanesOk, Mix, OnBytes, Absorb;
      if squeezing {
        return Panicked;
      }
      ghost var s, b := S(), Buf();
      var i := 0;
      assert p[0..] == p;
      while i < |p|
        invariant Valid() && !squeezing && i <= |p|
        invariant Absorb(F(), rate, s, b + p) == Absorb(F(), rate, S(), Buf() + p[i..])
      {
        i := WriteSome(p, i);
      }
      assert Buf() + p[i..] == Buf();
      AbsorbNone(F(), rate, S(), Buf());
      r := Wrote(|p|);
    }

    /** One round of Write: a whole block straight from p, or as much as the buffer takes. */
    method WriteSome(p: seq<byte>, i: nat) returns (j: nat)
      requires Valid() && !squeezing && i < |p|
      modifies this, a, storage
      ensures Valid() && !squeezing && i < j <= |p|
      ensures Absorb(F(), rate, S(), Buf() + p[j..]) == Absorb(F(), rate, old(S()), old(Buf()) + p[i..])
    {
      hide ToBytes, Words, LanesOk, Mix, OnBytes, Absorb;
      if bufLen == 0 && |p| - i >= rate {
        ghost var s, b := S(), Buf();
        BlockThenRest(F(), rate, s, b, p, i, rate);
        XorIn(p[i..i + rate]);
        Keccak();
        j := i + rate;
        assert b + p[i..j] == p[i..j] && Buf() == [];
      } else {
        var todo := if rate - bufLen > |p| - i then |p| - i else rate - bufLen;
        j := WriteBuffered(p, i, todo);
      }
    }

    method WriteBuffered(p: seq<byte>, i: nat, todo: nat) returns (j: nat)
      requires Valid() && !squeezing && i < |p| && todo == (if rate - bufLen > |p| - i then |p| - i else rate - bufLen)
      modifies this, a, storage
      ensures Valid() && !squeezing && j == i + todo
      ensures Absorb(F(), rate, S(), Buf() + p[j..]) == Absorb(F(), rate, old(S()), old(Buf()) + p[i..])
    {
      hide ToBytes, Words, LanesOk, Mix, OnBytes, Absorb;
      ghost var s, b := S(), Buf();
      j := i + todo;
      Place(storage, bufLen, p[i..j]);
      bufLen := bufLen + todo;
      assert Buf() == b + p[i..j];
      if bufLen == rate {
        BlockThenRest(F(), rate, s, b, p, i, todo);
        Permute();
      } else {
        assert b + p[i..] == b + p[i..j] + p[j..];
      }
    }

    /** What Read starts from: the padded state if it is still absorbing. */
    ghost function Ready(): (r: (seq<byte>, seq<byte>))
      reads this, a, storage
      requires Valid()
      ensures |r.0| == STATE && 0 < |r.1| <= rate
    {
      if squeezing then (S(), Buf()) else var t := Finish(F(), rate, dsbyte, S(), Buf()); (t, t[..rate])
    }

    /** Fills the buffer with the next bytes of output. */
    method Read(buf: array<byte>) returns (n: nat)
      requires Valid() && buf != storage
      modifies this, a, storage, buf
      ensures Valid() && squeezing && n == buf.Length
      ensures (buf[..], S(), Buf()) == Pull(F(), rate, old(Ready()).0, old(Ready()).1, buf.Length)
    {
      hide ToBytes, Words, LanesOk, OnBytes, Finish, Pull;
      if !squeezing {
        PadAndPermute();
      }
      ghost var s, left := S(), Buf();
      n := buf.Length;
      var at := 0;
      Prepend([], Pull(F(), rate, s, left, n));
      while at < n
        invariant Valid() && squeezing && at <= n
        invariant Pull(F(), rate, s, left, n) == Prepended(buf[..at], Pull(F(), rate, S(), Buf(), n - at))
      {
        ghost var done := buf[..at];
        var next := ReadSome(buf, at);
        Twice(done, buf[at..next], Pull(F(), rate, S(), Buf(), n - next));
        assert buf[..next] == done + buf[at..next];
        at := next;
      }
      PullEnd(F(), rate, S(), Buf());
      assert buf[..at] + [] == buf[..];
    }

    /** One round of Read: what the buffer has, and a fresh block when it is dry. */
    method ReadSome(buf: array<byte>, at: nat) returns (next: nat)
      requires Valid() && squeezing && buf != storage && at < buf.Length
      modifies this, a, storage, buf
      ensures Valid() && squeezing && at < next <= buf.Length && buf[..at] == old(buf[..at])
      ensures Pull(F(), rate, old(S()), old(Buf()), buf.Length - at)
              == Prepended(buf[at..next], Pull(F(), rate, S(), Buf(), buf.Length - next))
    {
      hide ToBytes, Words, LanesOk, OnBytes, Pull;
      var n := if buf.Length - at < bufLen then buf.Length - at else bufLen;
      next := at + n;
      ghost var got := Buf()[..n];
      assert storage[bufAt..bufAt + n] == got;
      Place(buf, at, storage[bufAt..bufAt + n]);
      Consume(n, buf.Length - at);
    }

    method Consume(n: nat, ghost want: nat)
      requires Valid() && squeezing && 0 < n <= bufLen && n == (if want < bufLen then want else bufLen)
      modifies this, a, storage
      ensures Valid() && squeezing
      ensures Pull(F(), rate, old(S()), old(Buf()), want)
              == Prepended(old(Buf())[..n], Pull(F(), rate, S(), Buf(), want - n))
    {
      hide ToBytes, Words, LanesOk, OnBytes, Pull;
      ghost var b := Buf();
      PullStep(F(), rate, S(), b, want, n);
      bufAt, bufLen := bufAt + n, bufLen - n;
      if bufLen == 0 {
        Permute();
      } else {
        assert Buf() == b[n..];
      }
    }

    /** Where the copy's buffer starts: while squeezing, by the capacity of buf, which reaches to the end of storage. */
    function CloneAt(): int
      reads this
    {
      if squeezing then rate - (MAX_RATE - bufAt) else 0
    }

    /**
     A copy that shares nothing. It has the original's bytes left to read exactly when the original
     is still absorbing or its rate is the whole storage; a negative start panics.
     */
    method Clone() returns (r: Cloned)
      requires Valid()
      ensures r.Failed? <==> CloneAt() < 0
      ensures r.Copied? ==> fresh(r.d) && fresh(r.d.a) && fresh(r.d.storage) && r.d.Valid()
      ensures r.Copied?
              ==> r.d.squeezing == squeezing && r.d.rate == rate && r.d.dsbyte == dsbyte && r.d.f == f
                  && r.d.outputLen == outputLen
      ensures r.Copied? ==> r.d.S() == S() && r.d.storage[..] == storage[..] && r.d.bufAt == CloneAt()
      ensures (r.Copied? && r.d.bufAt == bufAt && r.d.Buf() == Buf()) <==> (!squeezing || rate == MAX_RATE)
    {
      hide ToBytes, Words, LanesOk, OnBytes;
      if CloneAt() < 0 {
        return Failed;
      }
      var d := new State(f, rate, dsbyte, outputLen);
      for i := 0 to LANES
        invariant d.a[..i] == a[..i]
      {
        d.a[i] := a[i];
      }
      assert d.a[..] == a[..];
      for i := 0 to MAX_RATE
        invariant d.a[..] == a[..] && d.storage[..i] == storage[..i]
      {
        d.storage[i] := storage[i];
      }
      assert d.storage[..] == storage[..];
      d.squeezing, d.bufAt := squeezing, CloneAt();
      d.bufLen := if squeezing then rate - d.bufAt else bufLen;
      r := Copied(d);
    }

    /** The digest of what was written so far behind the prefix; the hash itself is as before. */
    method Sum(prefix: seq<byte>) returns (r: Digest)
      requires Valid()
      ensures !squeezing ==> r == Sums(prefix + Squeeze(F(), rate, Finish(F(), rate, dsbyte, S(), Buf()), outputLen))
      ensures squeezing ==> (r.Refused? <==> rate + bufAt < MAX_RATE)
      ensures squeezing && r.Sums? ==> r.bytes == prefix + Pull(F(), rate, S(), storage[CloneAt()..rate], outputLen).0
    {
      hide ToBytes, Words, LanesOk, OnBytes, Finish, Pull, Squeeze;
      var c := Clone();
      if c.Failed? {
        return Refused;
      }
      var hash := new byte[c.d.outputLen];
      assert c.d.Buf() == storage[CloneAt()..CloneAt() + c.d.bufLen];
      var _ := c.d.Read(hash);
      if !squeezing {
        PullIsSqueeze(F(), rate, Finish(F(), rate, dsbyte, S(), Buf()), outputLen);
      }
      r := Sums(prefix + hash[..]);
    }
  }

  datatype Cloned = Failed | Copied(d: State)

  datatype Digest = Refused | Sums(bytes: seq<byte>)

  /**
   Any rate below the storage shows it: after reading fewer bytes than the storage is larger than the
   rate, a clone panics; after reading more, its clone gives bytes again that were read already.
   */
  method CloneBreaks(f: LanePermutation, rate: nat, n: nat) returns (s: State, r: Cloned)
    requires LanesOk(f) && RateOk(rate) && rate < MAX_RATE && 0 < n < rate
    ensures s.Valid() && s.rate == rate && s.squeezing && |s.Buf()| == rate - n
    ensures r.Failed? <==> n < MAX_RATE - rate
    ensures r.Copied? ==> r.d.Valid() && |r.d.Buf()| == |s.Buf()| + (MAX_RATE - rate)
  {
    hide ToBytes, Words, LanesOk, OnBytes, Finish, Squeeze;
    s := new State(f, rate, 0x1f, 0);
    var buf := new byte[n];
    var _ := s.Read(buf);
    r := s.Clone();
  }

  /** ShakeSum128 and ShakeSum256: as many bytes of output as the array holds, for the message. */
  method ShakeSum(f: LanePermutation, rate: nat, hash: array<byte>, data: seq<byte>)
    requires LanesOk(f) && RateOk(rate)
    modifies hash
    ensures Permutes(OnBytes(f)) && hash[..] == Squeeze(OnBytes(f), rate,
            AbsorbMessage(OnBytes(f), rate, 0x1f, data), hash.Length)
  {
    hide ToBytes, Words, LanesOk, OnBytes, Finish, Pull, Squeeze, AbsorbMessage, Absorb, Zero;
    var d := new State(f, rate, 0x1f, 0);
    ghost var F := d.F();
    assert [] + data == data;
    var _ := d.Write(data);
    FinishIsAbsorb(F, rate, 0x1f, data);
    ghost var t := Finish(F, rate, 0x1f, d.S(), d.Buf());
    var _ := d.Read(hash);
    PullIsSqueeze(F, rate, t, hash.Length);
  }

  function Prepended(a: seq<byte>, r: (seq<byte>, seq<byte>, seq<byte>)): (seq<byte>, seq<byte>, seq<byte>) {
    (a + r.0, r.1, r.2)
  }

  lemma Prepend(a: seq<byte>, r: (seq<byte>, seq<byte>, seq<byte>))
    requires a == []
    ensures Prepended(a, r) == r
  {
    assert a + r.0 == r.0;
  }

  lemma Twice(a: seq<byte>, b: seq<byte>, r: (seq<byte>, seq<byte>, seq<byte>))
    ensures Prepended(a, Prepended(b, r)) == Prepended(a + b, r)
  {
    assert a + (b + r.0) == a + b + r.0;
  }

  lemma PullEnd(F: Permutation, rate: nat, s: seq<byte>, left: seq<byte>)
    requires Permutes(F) && RateOk(rate) && |s| == STATE && 0 < |left| <= rate
    ensures Pull(F, rate, s, left, 0) == ([], s, left)
  {
  }

  /** Taking n bytes from what is left. */
  lemma PullStep(F: Permutation, rate: nat, s: seq<byte>, left: seq<byte>, want: nat, n: nat)
    requires Permutes(F) && RateOk(rate) && |s| == STATE && 0 < |left| <= rate
    requires n == if want < |left| then want else |left|
    ensures n < |left| ==> Pull(F, rate, s, left, want) == Prepended(left[..n], Pull(F, rate, s, left[n..], want - n))
    ensures n == |left|
            ==> Pull(F, rate, s, left, want) == Prepended(left[..n], Pull(F, rate, F(s), F(s)[..rate], want - n))
  {
    if n < |left| {
      PullEnd(F, rate, s, left[n..]);
      assert left[..n] + [] == left[..n];
    } else {
      assert left[..n] == left;
    }
  }

  datatype Written = Panicked | Wrote(n: nat)

  lemma AbsorbNone(F: Permutation, rate: nat, s: seq<byte>, buf: seq<byte>)
    requires Permutes(F) && RateOk(rate) && |s| == STATE && |buf| < rate
    ensures Absorb(F, rate, s, buf) == (s, buf)
  {
  }

  lemma BlockThenRest(F: Permutation, rate: nat, s: seq<byte>, buf: seq<byte>, p: seq<byte>, i: nat, n: nat)
    requires Permutes(F) && RateOk(rate) && |s| == STATE && i + n <= |p| && |buf| + n == rate
    ensures Absorb(F, rate, s, buf + p[i..]) == Absorb(F, rate, F(Mix(s, buf + p[i..i + n])), [] + p[i + n..])
  {
    hide Mix;
    var data := buf + p[i..];
    assert data[..rate] == buf + p[i..i + n] && data[rate..] == [] + p[i + n..];
  }

  lemma Extend(a: seq<byte>, b: seq<byte>, n: nat)
    requires n + 8 <= |a| && n + 8 <= |b| && a[..n] == b[..n] && a[n..n + 8] == b[n..n + 8]
    ensures a[..n + 8] == b[..n + 8]
  {
    assert a[..n + 8] == a[..n] + a[n..n + 8] && b[..n + 8] == b[..n] + b[n..n + 8];
  }

  lemma XorNat(a: nat, b: nat)
    ensures Xor(a, b) >= 0
  {
  }

  lemma MixNothing(s: seq<byte>)
    ensures Mix(s, []) == s
  {
    assert s[0..] == s;
  }

  lemma ZeroLanes(a: seq<nat>)
    requires |a| == LANES && forall i :: 0 <= i < LANES ==> a[i] == 0
    ensures Words(a) && ToBytes(a) == Zero()
  {
    ZeroBytes(a);
  }

  lemma {:induction false} ZeroBytes(a: seq<nat>)
    requires forall i :: 0 <= i < |a| ==> a[i] == 0
    ensures forall i :: 0 <= i < |ToBytes(a)| ==> ToBytes(a)[i] == 0
  {
    if a != [] {
      ZeroBytes(a[1..]);
      ZeroWord(8);
    }
  }

  lemma {:induction false} ZeroWord(k: nat)
    ensures forall i :: 0 <= i < k ==> Bytes(0, k)[i] == 0
  {
    if k > 0 {
      ZeroWord(k - 1);
    }
  }
}
