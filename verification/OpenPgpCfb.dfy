/**
 OpenPGP's cipher feedback mode (openpgp/packet/ocfb.go; section 13.9 of RFC 4880), with and without
 the resynchronisation step, for an arbitrary block function.
 */
module OpenPgpCfb {
  import opened Bits
  import opened ByteSeqs
  import opened Wrappers

  type Block = seq<byte> -> seq<byte>

  ghost predicate BlockFunction(E: Block, size: nat) {
    size >= 2 && forall x :: |x| == size ==> |E(x)| == size
  }

  /** The register: its first used bytes are ciphertext, the rest is key stream. */
  datatype Register = Register(fre: seq<byte>, used: nat)

  predicate Fits(r: Register, size: nat) {
    |r.fre| == size && r.used <= size && size > 0
  }

  function Refill(E: Block, r: Register): Register {
    if r.used == |r.fre| then Register(E(r.fre), 0) else r
  }

  /** One ciphertext byte goes into the register. */
  function Shift(E: Block, r: Register, c: byte): Register {
    var s := Refill(E, r);
    if s.used < |s.fre| then Register(s.fre[s.used := c], s.used + 1) else s
  }

  /** The key stream byte that comes next. */
  function Mask(E: Block, r: Register): byte {
    var s := Refill(E, r);
    if s.used < |s.fre| then s.fre[s.used] else 0
  }

  function ShiftAll(E: Block, r: Register, cs: seq<byte>): Register
    decreases cs
  {
    if cs == [] then r else ShiftAll(E, Shift(E, r, cs[0]), cs[1..])
  }

  function Encrypt(E: Block, r: Register, ps: seq<byte>): seq<byte>
    decreases ps
  {
    if ps == [] then [] else
    var c := XorByte(Mask(E, r), ps[0]);
    [c] + Encrypt(E, Shift(E, r, c), ps[1..])
  }

  function Decrypt(E: Block, r: Register, cs: seq<byte>): seq<byte>
    decreases cs
  {
    if cs == [] then [] else [XorByte(Mask(E, r), cs[0])] + Decrypt(E, Shift(E, r, cs[0]), cs[1..])
  }

  /** Decryption undoes encryption from the same register. */
  lemma {:induction false} CfbRoundTrip(E: Block, r: Register, ps: seq<byte>)
    ensures |Encrypt(E, r, ps)| == |ps|
    ensures Decrypt(E, r, Encrypt(E, r, ps)) == ps
    decreases ps
  {
    if ps != [] {
      var c := XorByte(Mask(E, r), ps[0]);
      XorByteCancel(Mask(E, r), ps[0]);
      CfbRoundTrip(E, Shift(E, r, c), ps[1..]);
      assert Encrypt(E, r, ps)[1..] == Encrypt(E, Shift(E, r, c), ps[1..]);
    }
  }

  lemma {:induction false} ShiftAppend(E: Block, r: Register, a: seq<byte>, b: seq<byte>)
    ensures ShiftAll(E, r, a + b) == ShiftAll(E, ShiftAll(E, r, a), b)
    decreases a
  {
    if a == [] {
      assert a + b == b;
    } else {
      ShiftAppend(E, Shift(E, r, a[0]), a[1..], b);
      assert (a + b)[1..] == a[1..] + b;
    }
  }

  lemma ShiftFirst(E: Block, r: Register, c: byte, cs: seq<byte>)
    ensures ShiftAll(E, r, [c] + cs) == ShiftAll(E, Shift(E, r, c), cs)
  {
    assert ([c] + cs)[1..] == cs;
  }

  lemma Joined(c: byte, a: seq<byte>, b: seq<byte>)
    ensures [c] + (a + b) == [c] + a + b
  {
  }

  /** However the plaintext is cut into writes, the ciphertext is the same. */
  lemma {:induction false} EncryptAppend(E: Block, r: Register, a: seq<byte>, b: seq<byte>)
    ensures Encrypt(E, r, a + b) == Encrypt(E, r, a) + Encrypt(E, ShiftAll(E, r, Encrypt(E, r, a)), b)
    decreases a
  {
    hide Shift, Mask, XorByte;
    if a == [] {
      assert a + b == b;
    } else {
      var c := XorByte(Mask(E, r), a[0]);
      var t := Shift(E, r, c);
      EncryptAppend(E, t, a[1..], b);
      assert (a + b)[1..] == a[1..] + b;
      ShiftFirst(E, r, c, Encrypt(E, t, a[1..]));
      Joined(c, Encrypt(E, t, a[1..]), Encrypt(E, ShiftAll(E, t, Encrypt(E, t, a[1..])), b));
    }
  }

  lemma {:induction false} DecryptAppend(E: Block, r: Register, a: seq<byte>, b: seq<byte>)
    ensures |Decrypt(E, r, a)| == |a|
    ensures Decrypt(E, r, a + b) == Decrypt(E, r, a) + Decrypt(E, ShiftAll(E, r, a), b)
    decreases a
  {
    hide Shift, Mask, XorByte;
    if a == [] {
      assert a + b == b;
    } else {
      DecryptAppend(E, Shift(E, r, a[0]), a[1..], b);
      assert (a + b)[1..] == a[1..] + b;
    }
  }

  // --------------------------------------------------------------------------
  // The reference: every block is the plaintext block masked by the encrypted block before it
  // --------------------------------------------------------------------------

  ghost function Cfb(E: Block, feed: seq<byte>, ps: seq<byte>): seq<byte>
    requires BlockFunction(E, |feed|)
    decreases |ps|
  {
    if |ps| <= |feed| then XorSeq(E(feed), ps) else
    var c := XorSeq(E(feed), ps[..|feed|]);
    c + Cfb(E, c, ps[|feed|..])
  }

  lemma RegisterWithin(E: Block, f: seq<byte>, u: nat, c: byte)
    requires u < |f|
    ensures Mask(E, Register(f, u)) == f[u..][0] && Shift(E, Register(f, u), c) == Register(f[u := c], u + 1)
  {
  }

  lemma Spliced(f: seq<byte>, u: nat, c: seq<byte>)
    requires c != [] && u + |c| <= |f|
    ensures var g := f[u := c[0]];
            g[..u + 1] + c[1..] + g[u + |c|..] == f[..u] + c + f[u + |c|..] && f[u..][1..] == g[u + 1..]
  {
  }

  /** Up to the end of the register, bytes are shifted in one behind the other. */
  lemma {:induction false} ShiftWithin(E: Block, f: seq<byte>, u: nat, c: seq<byte>)
    requires u + |c| <= |f|
    ensures ShiftAll(E, Register(f, u), c) == Register(f[..u] + c + f[u + |c|..], u + |c|)
    decreases c
  {
    hide Shift;
    if c == [] {
      assert f[..u] + [] + f[u..] == f;
    } else {
      RegisterWithin(E, f, u, c[0]);
      ShiftWithin(E, f[u := c[0]], u + 1, c[1..]);
      Spliced(f, u, c);
    }
  }

  /** Up to the end of the register, encryption is masking with what is left in it. */
  lemma {:induction false} EncryptWithin(E: Block, f: seq<byte>, u: nat, ps: seq<byte>)
    requires u + |ps| <= |f|
    ensures Encrypt(E, Register(f, u), ps) == XorSeq(f[u..], ps)
    decreases ps
  {
    hide XorByte, Shift, Mask;
    if ps != [] {
      var c := XorByte(f[u], ps[0]);
      RegisterWithin(E, f, u, c);
      EncryptWithin(E, f[u := c], u + 1, ps[1..]);
      assert f[u..][1..] == f[u := c][u + 1..];
    }
  }

  lemma WithinBlock(E: Block, f: seq<byte>, u: nat, ps: seq<byte>)
    requires u + |ps| <= |f|
    ensures var c := XorSeq(f[u..], ps);
            && Encrypt(E, Register(f, u), ps) == c && |c| == |ps|
            && ShiftAll(E, Register(f, u), c) == Register(f[..u] + c + f[u + |ps|..], u + |ps|)
  {
    hide XorSeq, Encrypt, ShiftAll;
    EncryptWithin(E, f, u, ps);
    ShiftWithin(E, f, u, XorSeq(f[u..], ps));
  }

  /** The byte-at-a-time register computes the reference, whole blocks and the rest. */
  lemma {:induction false} EncryptIsCfb(E: Block, feed: seq<byte>, ps: seq<byte>)
    requires BlockFunction(E, |feed|)
    ensures Encrypt(E, Register(feed, |feed|), ps) == Cfb(E, feed, ps)
    decreases |ps|
  {
    var n, key := |feed|, E(feed);
    Refilled(E, feed, ps);
    assert key[0..] == key;
    if |ps| <= n {
      WithinBlock(E, key, 0, ps);
    } else {
      var a, b := ps[..n], ps[n..];
      WithinBlock(E, key, 0, a);
      var c := XorSeq(key, a);
      EncryptAppend(E, Register(key, 0), a, b);
      assert key[..0] + c + key[n..] == c && a + b == ps;
      EncryptIsCfb(E, c, b);
    }
  }

  /** A full register and its encryption behave alike. */
  lemma Refilled(E: Block, feed: seq<byte>, ps: seq<byte>)
    requires BlockFunction(E, |feed|)
    ensures Encrypt(E, Register(feed, |feed|), ps) == Encrypt(E, Register(E(feed), 0), ps)
    ensures Decrypt(E, Register(feed, |feed|), ps) == Decrypt(E, Register(E(feed), 0), ps)
    ensures ps != [] ==> ShiftAll(E, Register(feed, |feed|), ps) == ShiftAll(E, Register(E(feed), 0), ps)
  {
  }

  // --------------------------------------------------------------------------
  // The prefix
  // --------------------------------------------------------------------------

  function Zeros(n: nat): seq<byte> {
    seq(n, _ => 0)
  }

  /** The random block and its last two bytes again. */
  function Marked(rand: seq<byte>): seq<byte>
    requires |rand| >= 2
  {
    rand + rand[|rand| - 2..]
  }

  /** The first size + 2 bytes of ciphertext. */
  function Prefix(E: Block, rand: seq<byte>): (c: seq<byte>)
    requires |rand| >= 2
    ensures |c| == |rand| + 2
  {
    CfbRoundTrip(E, Register(Zeros(|rand|), |rand|), Marked(rand));
    Encrypt(E, Register(Zeros(|rand|), |rand|), Marked(rand))
  }

  /** The register after the prefix. */
  function Start(E: Block, prefix: seq<byte>, resync: bool): Register
    requires |prefix| >= 4
  {
    var n := |prefix| - 2;
    if resync then Register(E(prefix[2..]), 0) else ShiftAll(E, Register(Zeros(n), n), prefix)
  }

  function DecryptPrefix(E: Block, prefix: seq<byte>): seq<byte>
    requires |prefix| >= 4
  {
    Decrypt(E, Register(Zeros(|prefix| - 2), |prefix| - 2), prefix)
  }

  /** The quick check for a wrong key: the last two bytes come twice. */
  predicate PrefixAccepted(d: seq<byte>) {
    |d| >= 4 && d[|d| - 4] == d[|d| - 2] && d[|d| - 3] == d[|d| - 1]
  }

  /** Encryption undoes decryption too. */
  lemma {:induction false} CfbBack(E: Block, r: Register, cs: seq<byte>)
    ensures |Decrypt(E, r, cs)| == |cs|
    ensures Encrypt(E, r, Decrypt(E, r, cs)) == cs
    decreases cs
  {
    if cs != [] {
      XorByteCancel(Mask(E, r), cs[0]);
      CfbBack(E, Shift(E, r, cs[0]), cs[1..]);
      assert Decrypt(E, r, cs)[1..] == Decrypt(E, Shift(E, r, cs[0]), cs[1..]);
    }
  }

  /** The bytes that pass the quick check are exactly the prefixes of the encrypter under the same key. */
  lemma PrefixExactly(E: Block, c: seq<byte>)
    requires |c| >= 4
    ensures PrefixAccepted(DecryptPrefix(E, c)) <==> exists rand :: |rand| == |c| - 2 && c == Prefix(E, rand)
  {
    hide Encrypt, Decrypt, Zeros, PrefixAccepted;
    var n := |c| - 2;
    var r, d := Register(Zeros(n), n), DecryptPrefix(E, c);
    CfbBack(E, r, c);
    AcceptedIsMarked(d);
    if PrefixAccepted(d) {
      assert c == Prefix(E, d[..n]);
    }
    forall rand | |rand| == n && c == Prefix(E, rand) ensures PrefixAccepted(d) {
      CfbRoundTrip(E, r, Marked(rand));
      assert Marked(rand)[..n] == rand;
    }
  }

  lemma AcceptedIsMarked(d: seq<byte>)
    requires |d| >= 4
    ensures PrefixAccepted(d) <==> d == Marked(d[..|d| - 2])
  {
    var n := |d| - 2;
    var m := Marked(d[..n]);
    assert m[|d| - 2] == d[|d| - 4] && m[|d| - 1] == d[|d| - 3];
    assert d == d[..n] + d[n..];
  }

  /** In both modes the decrypter accepts the encrypter's prefix, starts where it started, and undoes it. */
  lemma OcfbRoundTrip(E: Block, rand: seq<byte>, resync: bool, ps: seq<byte>)
    requires |rand| >= 2
    ensures var prefix := Prefix(E, rand);
            && |prefix| == |rand| + 2
            && DecryptPrefix(E, prefix) == Marked(rand) && PrefixAccepted(DecryptPrefix(E, prefix))
            && Decrypt(E, Start(E, prefix, resync), Encrypt(E, Start(E, prefix, resync), ps)) == ps
  {
    var r := Register(Zeros(|rand|), |rand|);
    CfbRoundTrip(E, r, Marked(rand));
    CfbRoundTrip(E, Start(E, Prefix(E, rand), resync), ps);
  }

  /** Without resynchronisation, prefix and data are one CFB stream from a zero block. */
  lemma NoResyncIsCfb(E: Block, rand: seq<byte>, ps: seq<byte>)
    requires BlockFunction(E, |rand|)
    ensures Prefix(E, rand) + Encrypt(E, ShiftAll(E, Register(Zeros(|rand|), |rand|), Prefix(E, rand)), ps)
            == Cfb(E, Zeros(|rand|), Marked(rand) + ps)
  {
    var zeros := Zeros(|rand|);
    EncryptAppend(E, Register(zeros, |rand|), Marked(rand), ps);
    EncryptIsCfb(E, zeros, Marked(rand) + ps);
  }

  /** With it, the data are a CFB stream whose first block feeds on the last ciphertext of the prefix. */
  lemma ResyncIsCfb(E: Block, prefix: seq<byte>, ps: seq<byte>)
    requires |prefix| >= 4 && BlockFunction(E, |prefix| - 2)
    ensures Encrypt(E, Start(E, prefix, true), ps) == Cfb(E, prefix[2..], ps)
  {
    Refilled(E, prefix[2..], ps);
    EncryptIsCfb(E, prefix[2..], ps);
  }

  /** The register after the prefix, as the constructors set it up. */
  lemma StartRegister(E: Block, prefix: seq<byte>)
    requires |prefix| >= 4 && BlockFunction(E, |prefix| - 2)
    ensures var n := |prefix| - 2;
            Start(E, prefix, false) == Register(E(prefix[..n])[0 := prefix[n]][1 := prefix[n + 1]], 2)
  {
    hide ShiftAll, Shift, Encrypt, Decrypt;
    var n := |prefix| - 2;
    var zeros, a, b := Zeros(n), prefix[..n], prefix[n..];
    ShiftAppend(E, Register(zeros, n), a, b);
    Refilled(E, zeros, a);
    ShiftWithin(E, E(zeros), 0, a);
    assert prefix == a + b && E(zeros)[..0] + a + E(zeros)[n..] == a;
    Refilled(E, a, b);
    ShiftWithin(E, E(a), 0, b);
    assert E(a)[..0] + b + E(a)[2..] == E(a)[0 := prefix[n]][1 := prefix[n + 1]];
  }

  /** The prefix, block by block. */
  lemma PrefixShape(E: Block, rand: seq<byte>)
    requires BlockFunction(E, |rand|)
    ensures var n := |rand|;
            var c := XorSeq(E(Zeros(n)), rand);
            && |c| == n
            && Prefix(E, rand) == c + [XorByte(E(c)[0], rand[n - 2]), XorByte(E(c)[1], rand[n - 1])]
  {
    hide Encrypt, XorSeq, XorByte;
    var n := |rand|;
    EncryptIsCfb(E, Zeros(n), Marked(rand));
    assert Marked(rand)[..n] == rand && Marked(rand)[n..] == rand[n - 2..];
    TwoBytes(E(XorSeq(E(Zeros(n)), rand)), rand[n - 2..]);
  }

  lemma TwoBytes(a: seq<byte>, b: seq<byte>)
    requires |b| == 2 <= |a|
    ensures XorSeq(a, b) == [XorByte(a[0], b[0]), XorByte(a[1], b[1])]
  {
    hide XorByte;
    assert XorSeq(a[1..], b[1..]) == [XorByte(a[1], b[1])] + XorSeq(a[1..][1..], b[1..][1..]);
  }

  /** The prefix as NewOCFBEncrypter computes it. */
  method MakePrefix(E: Block, rand: seq<byte>) returns (prefix: seq<byte>)
    requires BlockFunction(E, |rand|)
    ensures prefix == Prefix(E, rand)
  {
    hide XorByte, Prefix, XorSeq;
    var n := |rand|;
    PrefixShape(E, rand);
    prefix := Combine(E(Zeros(n)), rand);
    var fre := E(prefix);
    prefix := prefix + [XorByte(fre[0], rand[n - 2]), XorByte(fre[1], rand[n - 1])];
  }

  method Combine(a: seq<byte>, b: seq<byte>) returns (r: seq<byte>)
    requires |a| == |b|
    ensures r == XorSeq(a, b)
  {
    hide XorByte;
    r := [];
    for i := 0 to |a|
      invariant |r| == i && forall k :: 0 <= k < i ==> r[k] == XorByte(a[k], b[k])
    {
      r := r + [XorByte(a[i], b[i])];
    }
    forall k | 0 <= k < |a| ensures r[k] == XorSeq(a, b)[k] {
      XorSeqAt(a, b, k);
    }
  }

  lemma {:induction false} XorSeqAt(a: seq<byte>, b: seq<byte>, k: nat)
    requires k < |b| <= |a|
    ensures k < |XorSeq(a, b)| && XorSeq(a, b)[k] == XorByte(a[k], b[k])
  {
    hide XorByte;
    if k > 0 {
      XorSeqAt(a[1..], b[1..], k - 1);
    }
  }

  // --------------------------------------------------------------------------
  // The objects
  // --------------------------------------------------------------------------

  /** The state that encrypter and decrypter share. */
  class Ocfb {
    const E: Block
    const fre: array<byte>
    var outUsed: nat

    ghost predicate Valid()
      reads this
    {
      BlockFunction(E, fre.Length) && outUsed <= fre.Length
    }

    ghost function Reg(): Register
      reads this, fre
    {
      Register(fre[..], outUsed)
    }

    /** NewOCFBEncrypter, after the prefix. */
    constructor Encrypter(E: Block, rand: seq<byte>, resync: bool)
      requires BlockFunction(E, |rand|)
      ensures Valid() && this.E == E && fre.Length == |rand| && fresh(fre)
      ensures Reg() == Start(E, Prefix(E, rand), resync)
    {
      this.E := E;
      fre := new byte[|rand|];
      outUsed := 0;
      new;
      OcfbRoundTrip(E, rand, resync, []);
      Restart(Prefix(E, rand), resync);
    }

    /** The object that NewOCFBDecrypter returns. */
    constructor Decrypter(E: Block, prefix: seq<byte>, resync: bool)
      requires |prefix| >= 4 && BlockFunction(E, |prefix| - 2)
      ensures Valid() && this.E == E && fre.Length == |prefix| - 2 && fresh(fre)
      ensures Reg() == Start(E, prefix, resync)
    {
      this.E := E;
      fre := new byte[|prefix| - 2];
      outUsed := 0;
      new;
      Restart(prefix, resync);
    }

    /** What both constructors do once the prefix is there. */
    method Restart(prefix: seq<byte>, resync: bool)
      requires Valid() && |prefix| == fre.Length + 2
      modifies this, fre
      ensures Valid() && Reg() == Start(E, prefix, resync)
    {
      hide ShiftAll;
      var n := fre.Length;
      StartRegister(E, prefix);
      Assign(fre, E(if resync then prefix[2..] else prefix[..n]));
      outUsed := 0;
      if !resync {
        fre[0] := prefix[n];
        fre[1] := prefix[n + 1];
        outUsed := 2;
      }
    }

    method RefillIfEmpty()
      requires Valid()
      modifies this, fre
      ensures Valid() && outUsed < fre.Length && Reg() == Refill(E, old(Reg()))
    {
      if outUsed == fre.Length {
        Assign(fre, E(fre[..]));
        outUsed := 0;
      }
    }

    method EncryptOne(p: byte) returns (c: byte)
      requires Valid()
      modifies this, fre
      ensures Valid() && c == XorByte(Mask(E, old(Reg())), p) && Reg() == Shift(E, old(Reg()), c)
    {
      hide XorByte;
      RefillIfEmpty();
      c := XorByte(fre[outUsed], p);
      fre[outUsed] := c;
      outUsed := outUsed + 1;
    }

    method DecryptOne(c: byte) returns (p: byte)
      requires Valid()
      modifies this, fre
      ensures Valid() && p == XorByte(Mask(E, old(Reg())), c) && Reg() == Shift(E, old(Reg()), c)
    {
      hide XorByte;
      RefillIfEmpty();
      p := XorByte(fre[outUsed], c);
      fre[outUsed] := c;
      outUsed := outUsed + 1;
    }

    /** XORKeyStream of the encrypter: a new buffer with the ciphertext. */
    method EncryptStream(src: seq<byte>) returns (dst: seq<byte>)
      requires Valid()
      modifies this, fre
      ensures Valid() && dst == Encrypt(E, old(Reg()), src) && Reg() == ShiftAll(E, old(Reg()), dst)
    {
      ghost var r := Reg();
      dst := [];
      for i := 0 to |src|
        invariant Valid() && |dst| == i
        invariant dst == Encrypt(E, r, src[..i]) && Reg() == ShiftAll(E, r, dst)
      {
        hide XorByte, Shift, Mask, Encrypt, ShiftAll;
        var c := EncryptOne(src[i]);
        EncryptNext(E, r, src[..i], src[i]);
        assert src[..i + 1] == src[..i] + [src[i]];
        ShiftNext(E, r, dst, c);
        dst := dst + [c];
      }
      assert src[..|src|] == src;
    }

    /** XORKeyStream of the decrypter, in place on a part of a buffer. */
    method DecryptInPlace(buf: array<byte>, off: nat, n: nat)
      requires Valid() && buf != fre && off + n <= buf.Length
      modifies this, fre, buf
      ensures Valid() && Reg() == ShiftAll(E, old(Reg()), old(buf[off..off + n]))
      ensures buf[off..off + n] == Decrypt(E, old(Reg()), old(buf[off..off + n]))
      ensures buf[..off] == old(buf[..off]) && buf[off + n..] == old(buf[off + n..])
    {
      ghost var r := Reg();
      ghost var cs := buf[off..off + n];
      for i := 0 to n
        invariant Valid()
        invariant Reg() == ShiftAll(E, r, cs[..i])
        invariant buf[off..off + i] == Decrypt(E, r, cs[..i])
        invariant buf[off + i..off + n] == cs[i..]
        invariant buf[..off] == old(buf[..off]) && buf[off + n..] == old(buf[off + n..])
      {
        hide XorByte, Shift, Mask, Decrypt, ShiftAll;
        var c := buf[off + i];
        assert c == buf[off + i..off + n][0] == cs[i];
        var p := DecryptOne(c);
        buf[off + i] := p;
        DecryptNext(E, r, cs[..i], c);
        assert cs[..i + 1] == cs[..i] + [c];
        ShiftNext(E, r, cs[..i], c);
      }
      assert cs[..n] == cs;
    }
  }

  lemma EncryptNext(E: Block, r: Register, a: seq<byte>, p: byte)
    ensures Encrypt(E, r, a + [p]) == Encrypt(E, r, a) + [XorByte(Mask(E, ShiftAll(E, r, Encrypt(E, r, a))), p)]
  {
    EncryptAppend(E, r, a, [p]);
  }

  /** Shifting one more byte. */
  lemma ShiftNext(E: Block, r: Register, a: seq<byte>, c: byte)
    ensures ShiftAll(E, r, a + [c]) == Shift(E, ShiftAll(E, r, a), c)
  {
    ShiftAppend(E, r, a, [c]);
  }

  lemma DecryptNext(E: Block, r: Register, a: seq<byte>, c: byte)
    ensures Decrypt(E, r, a + [c]) == Decrypt(E, r, a) + [XorByte(Mask(E, ShiftAll(E, r, a)), c)]
  {
    DecryptAppend(E, r, a, [c]);
  }

  /** Up to the end of the register, decryption is masking too. */
  lemma {:induction false} DecryptWithin(E: Block, f: seq<byte>, u: nat, cs: seq<byte>)
    requires u + |cs| <= |f|
    ensures Decrypt(E, Register(f, u), cs) == XorSeq(f[u..], cs)
    decreases cs
  {
    hide XorByte, Shift, Mask;
    if cs != [] {
      var g := f[u := cs[0]];
      RegisterWithin(E, f, u, cs[0]);
      DecryptWithin(E, g, u + 1, cs[1..]);
      assert f[u..][1..] == g[u + 1..];
    }
  }

  /** The decrypted prefix, block by block. */
  lemma DecryptPrefixShape(E: Block, prefix: seq<byte>)
    requires |prefix| >= 4 && BlockFunction(E, |prefix| - 2)
    ensures var n := |prefix| - 2;
            DecryptPrefix(E, prefix) == XorSeq(E(Zeros(n)), prefix[..n]) + XorSeq(E(prefix[..n]), prefix[n..])
  {
    hide XorSeq, Decrypt, ShiftAll;
    var n := |prefix| - 2;
    var zeros, a, b := Zeros(n), prefix[..n], prefix[n..];
    assert prefix == a + b;
    DecryptAppend(E, Register(zeros, n), a, b);
    Refilled(E, zeros, a);
    DecryptWithin(E, E(zeros), 0, a);
    ShiftWithin(E, E(zeros), 0, a);
    assert E(zeros)[0..] == E(zeros) && E(zeros)[..0] + a + E(zeros)[n..] == a;
    Refilled(E, a, b);
    DecryptWithin(E, E(a), 0, b);
    assert E(a)[0..] == E(a);
  }

  /** NewOCFBEncrypter: nothing for random data of another length than a block. */
  method NewEncrypter(E: Block, size: nat, rand: seq<byte>, resync: bool) returns (c: Option<Ocfb>, prefix: seq<byte>)
    requires BlockFunction(E, size)
    ensures c.Some? <==> |rand| == size
    ensures c.Some? ==> fresh(c.value) && fresh(c.value.fre) && c.value.Valid() && c.value.E == E
    ensures c.Some? ==> prefix == Prefix(E, rand) && c.value.Reg() == Start(E, prefix, resync)
  {
    if |rand| != size {
      return None, [];
    }
    prefix := MakePrefix(E, rand);
    var o := new Ocfb.Encrypter(E, rand, resync);
    c := Some(o);
  }

  /**
   NewOCFBDecrypter: nothing for a prefix of the wrong length, or one that does not repeat its last two
   bytes; otherwise the decrypter behind the prefix, and the decrypted prefix.
   */
  method NewDecrypter(E: Block, size: nat, prefix: seq<byte>, resync: bool) returns (c: Option<Ocfb>, d: seq<byte>)
    requires BlockFunction(E, size)
    ensures c.Some? <==> |prefix| == size + 2 && PrefixAccepted(DecryptPrefix(E, prefix))
    ensures c.Some? ==> fresh(c.value) && fresh(c.value.fre) && c.value.Valid() && c.value.E == E
    ensures c.Some? ==> c.value.Reg() == Start(E, prefix, resync) && d == DecryptPrefix(E, prefix)
  {
    hide XorSeq, Start, DecryptPrefix;
    if |prefix| != size + 2 {
      return None, prefix;
    }
    DecryptPrefixShape(E, prefix);
    var first := Combine(E(Zeros(size)), prefix[..size]);
    var fre := E(prefix[..size]);
    TwoBytes(fre, prefix[size..]);
    d := first + [XorByte(fre[0], prefix[size]), XorByte(fre[1], prefix[size + 1])];
    if d[size - 2] != d[size] || d[size - 1] != d[size + 1] {
      return None, prefix;
    }
    var o := new Ocfb.Decrypter(E, prefix, resync);
    c := Some(o);
  }
}
