/**
 The packet framings of the SSH transport (ssh/cipher.go; section 6 of RFC 4253): stream ciphers with
 an optional MAC, AES-GCM, and CBC.  Key stream, MAC, AEAD and block functions are arbitrary, as far as
 decryption undoes encryption.
 */
module SshFraming {
  import opened Bits
  import opened ByteSeqs
  import opened BigEndian
  import opened Counter
  import opened Readers
  import opened Wrappers

  const MAX_PACKET: nat := 0x4_0000
  const MULTIPLE: nat := 16
  const TAG_SIZE: nat := 16

  datatype Error = Short | TooSmall | TooLarge | BadMAC | BadPadding | BadMultiple | OpenFailed | Panics

  /** A packet, what follows it on the wire, and the state of the cipher afterwards. */
  datatype Parsed<S> = Packet(packet: seq<byte>, rest: seq<byte>, state: S) | Fail(error: Error)

  /** The padding that brings n + offset to a multiple of 16, and is at least 4. */
  function Padding(offset: nat, n: nat): (p: nat)
    ensures 4 <= p <= 19 && (offset + n + p) % MULTIPLE == 0
  {
    var p := MULTIPLE - (offset + n) % MULTIPLE;
    if p < 4 then p + MULTIPLE else p
  }

  /** The cap of the readers on the length field. */
  predicate Readable(offset: nat, n: nat) {
    1 <= n && 1 + n + Padding(offset, n) <= MAX_PACKET
  }

  // --------------------------------------------------------------------------
  // Stream ciphers
  // --------------------------------------------------------------------------

  /** A key stream and an optional MAC over the sequence number and the plaintext. */
  datatype Stream = Stream(key: nat -> byte, mac: Option<seq<byte> -> seq<byte>>, macSize: nat)

  ghost predicate StreamOk(c: Stream) {
    match c.mac
    case None => c.macSize == 0
    case Some(m) => forall s :: |m(s)| == c.macSize
  }

  function Crypt(key: nat -> byte, pos: nat, s: seq<byte>): (r: seq<byte>)
    ensures |r| == |s|
    decreases s
  {
    if s == [] then [] else [XorByte(key(pos), s[0])] + Crypt(key, pos + 1, s[1..])
  }

  lemma {:induction false} CryptTwice(key: nat -> byte, pos: nat, s: seq<byte>)
    ensures Crypt(key, pos, Crypt(key, pos, s)) == s
    decreases s
  {
    if s != [] {
      XorByteCancel(key(pos), s[0]);
      CryptTwice(key, pos + 1, s[1..]);
      assert Crypt(key, pos, s)[1..] == Crypt(key, pos + 1, s[1..]);
    }
  }

  /** Byte by byte. */
  lemma {:induction false} CryptIs(key: nat -> byte, pos: nat, s: seq<byte>, t: seq<byte>)
    requires |t| == |s| && forall k :: 0 <= k < |s| ==> t[k] == XorByte(key(pos + k), s[k])
    ensures t == Crypt(key, pos, s)
    decreases s
  {
    hide XorByte;
    if s != [] {
      CryptIs(key, pos + 1, s[1..], t[1..]);
      assert t == [t[0]] + t[1..];
    }
  }

  lemma {:induction false} CryptAppend(key: nat -> byte, pos: nat, a: seq<byte>, b: seq<byte>)
    ensures Crypt(key, pos, a + b) == Crypt(key, pos, a) + Crypt(key, pos + |a|, b)
    decreases a
  {
    hide XorByte;
    if a == [] {
      assert a + b == b;
    } else {
      CryptAppend(key, pos + 1, a[1..], b);
      assert (a + b)[1..] == a[1..] + b;
    }
  }

  function MacOf(c: Stream, seqNum: nat, plain: seq<byte>): seq<byte>
    requires seqNum < U32_LIMIT
  {
    if c.mac.None? then [] else c.mac.value(U32(seqNum) + plain)
  }

  /** Length, padding length, payload, padding. */
  function Plain(packet: seq<byte>, pad: seq<byte>): seq<byte>
    requires |packet| + |pad| + 1 < U32_LIMIT && |pad| < 256
  {
    U32(|packet| + 1 + |pad|) + [|pad|] + packet + pad
  }

  function StreamFrame(c: Stream, pos: nat, seqNum: nat, packet: seq<byte>, pad: seq<byte>): seq<byte>
    requires seqNum < U32_LIMIT && |packet| + |pad| + 1 < U32_LIMIT && |pad| < 256
  {
    Crypt(c.key, pos, Plain(packet, pad)) + MacOf(c, seqNum, Plain(packet, pad))
  }

  function StreamParse(c: Stream, pos: nat, seqNum: nat, input: seq<byte>): Parsed<nat>
    requires seqNum < U32_LIMIT
  {
    if |input| < 5 then Fail(Short) else
    var prefix := Crypt(c.key, pos, input[..5]);
    var length, padding := FromU32(prefix[..4]), prefix[4] as int;
    if length <= padding + 1 then Fail(TooSmall) else
    if length > MAX_PACKET then Fail(TooLarge) else
    if |input| < 4 + length + c.macSize then Fail(Short) else
    var data := Crypt(c.key, pos + 5, input[5..4 + length]);
    if c.mac.Some? && MacOf(c, seqNum, prefix + data) != input[4 + length..4 + length + c.macSize]
        then Fail(BadMAC) else
    Packet(data[..length - padding - 1], input[4 + length + c.macSize..], pos + 4 + length)
  }

  /** What the reader sees of a frame: the plaintext again, and the MAC. */
  lemma StreamPieces(c: Stream, pos: nat, seqNum: nat, packet: seq<byte>, pad: seq<byte>, rest: seq<byte>)
    requires StreamOk(c) && seqNum < U32_LIMIT && |packet| + |pad| + 1 < U32_LIMIT && |pad| < 256
    ensures var input := StreamFrame(c, pos, seqNum, packet, pad) + rest;
            var n := 4 + |packet| + 1 + |pad|;
            && |input| >= n + c.macSize
            && Crypt(c.key, pos, input[..5]) == U32(|packet| + 1 + |pad|) + [|pad|]
            && Crypt(c.key, pos + 5, input[5..n]) == packet + pad
            && input[n..n + c.macSize] == MacOf(c, seqNum, Plain(packet, pad))
            && input[n + c.macSize..] == rest
  {
    hide Crypt, XorByte, U32;
    var head, body := U32(|packet| + 1 + |pad|) + [|pad|], packet + pad;
    var mac := MacOf(c, seqNum, Plain(packet, pad));
    assert Plain(packet, pad) == head + body;
    CryptAppend(c.key, pos, head, body);
    CryptTwice(c.key, pos, head);
    CryptTwice(c.key, pos + 5, body);
    var x, y := Crypt(c.key, pos, head), Crypt(c.key, pos + 5, body);
    Slices(x, y, mac, rest);
  }

  lemma Slices(x: seq<byte>, y: seq<byte>, m: seq<byte>, rest: seq<byte>)
    ensures var s := x + y + m + rest;
            && s[..|x|] == x && s[|x|..|x| + |y|] == y
            && s[|x| + |y|..|x| + |y| + |m|] == m && s[|x| + |y| + |m|..] == rest
  {
  }

  /** A frame reads back exactly when the payload is not empty and the length field is within the cap. */
  lemma StreamRoundTrip(c: Stream, pos: nat, seqNum: nat, packet: seq<byte>, pad: seq<byte>, rest: seq<byte>)
    requires StreamOk(c) && seqNum < U32_LIMIT && |packet| <= MAX_PACKET && |pad| == Padding(5, |packet|)
    ensures var p := StreamParse(c, pos, seqNum, StreamFrame(c, pos, seqNum, packet, pad) + rest);
            p == if Readable(5, |packet|) then Packet(packet, rest, pos + 5 + |packet| + |pad|)
                 else Fail(if packet == [] then TooSmall else TooLarge)
  {
    hide Crypt, U32, FromU32, StreamFrame;
    StreamPieces(c, pos, seqNum, packet, pad, rest);
    var length := |packet| + 1 + |pad|;
    U32RoundTrip(length);
    assert (U32(length) + [|pad|])[..4] == U32(length);
    assert U32(length) + [|pad|] + (packet + pad) == Plain(packet, pad);
    assert (packet + pad)[..|packet|] == packet;
  }

  /** The input starts with the frame of the packet under some padding, and q is the position behind it. */
  ghost predicate StreamHolds(c: Stream, pos: nat, seqNum: nat, input: seq<byte>,
                              packet: seq<byte>, pad: seq<byte>, rest: seq<byte>, q: nat)
    requires seqNum < U32_LIMIT
  {
    && packet != [] && |pad| < 256 && |packet| + 1 + |pad| <= MAX_PACKET
    && input == StreamFrame(c, pos, seqNum, packet, pad) + rest && q == pos + 5 + |packet| + |pad|
  }

  /** A packet is read exactly if its frame, with the right MAC, is what arrived. */
  lemma StreamExactly(c: Stream, pos: nat, seqNum: nat, input: seq<byte>, packet: seq<byte>, rest: seq<byte>, q: nat)
    requires StreamOk(c) && seqNum < U32_LIMIT
    ensures StreamParse(c, pos, seqNum, input) == Packet(packet, rest, q)
            <==> exists pad :: StreamHolds(c, pos, seqNum, input, packet, pad, rest, q)
  {
    hide StreamHolds, StreamParse;
    if StreamParse(c, pos, seqNum, input) == Packet(packet, rest, q) {
      var pad := StreamReads(c, pos, seqNum, input, packet, rest, q);
    }
    forall pad | StreamHolds(c, pos, seqNum, input, packet, pad, rest, q)
      ensures StreamParse(c, pos, seqNum, input) == Packet(packet, rest, q)
    {
      StreamReadsBack(c, pos, seqNum, input, packet, pad, rest, q);
    }
  }

  lemma StreamReadsBack(c: Stream, pos: nat, seqNum: nat, input: seq<byte>,
                        packet: seq<byte>, pad: seq<byte>, rest: seq<byte>, q: nat)
    requires StreamOk(c) && seqNum < U32_LIMIT && StreamHolds(c, pos, seqNum, input, packet, pad, rest, q)
    ensures StreamParse(c, pos, seqNum, input) == Packet(packet, rest, q)
  {
    hide Crypt, U32, FromU32, StreamFrame;
    StreamPieces(c, pos, seqNum, packet, pad, rest);
    var length := |packet| + 1 + |pad|;
    U32RoundTrip(length);
    assert (U32(length) + [|pad|])[..4] == U32(length);
    assert U32(length) + [|pad|] + (packet + pad) == Plain(packet, pad);
    assert (packet + pad)[..|packet|] == packet;
  }

  /** The padding is what the reader cuts off. */
  lemma StreamReads(c: Stream, pos: nat, seqNum: nat, input: seq<byte>, packet: seq<byte>, rest: seq<byte>, q: nat)
    returns (pad: seq<byte>)
    requires StreamOk(c) && seqNum < U32_LIMIT && StreamParse(c, pos, seqNum, input) == Packet(packet, rest, q)
    ensures StreamHolds(c, pos, seqNum, input, packet, pad, rest, q)
  {
    hide Crypt, U32, FromU32;
    var prefix := Crypt(c.key, pos, input[..5]);
    var length, padding := FromU32(prefix[..4]), prefix[4] as int;
    var n := 4 + length;
    var data := Crypt(c.key, pos + 5, input[5..n]);
    pad := data[length - padding - 1..];
    FromU32Inverse(prefix[..4]);
    assert prefix == U32(length) + [|pad|] && data == packet + pad;
    assert Plain(packet, pad) == prefix + data;
    CryptAppend(c.key, pos, prefix, data);
    CryptTwice(c.key, pos, input[..5]);
    CryptTwice(c.key, pos + 5, input[5..n]);
    Reassembled(input, 5, n, n + c.macSize);
    assert MacOf(c, seqNum, Plain(packet, pad)) == input[n..n + c.macSize];
  }

  lemma Reassembled(s: seq<byte>, a: nat, b: nat, c: nat)
    requires a <= b <= c <= |s|
    ensures s == s[..a] + s[a..b] + s[b..c] + s[c..]
  {
  }

  // --------------------------------------------------------------------------
  // AES-GCM
  // --------------------------------------------------------------------------

  /** Seal and open of an AEAD: nonce, text, additional data. */
  datatype Aead = Aead(seal: (seq<byte>, seq<byte>, seq<byte>) -> seq<byte>,
                       open: (seq<byte>, seq<byte>, seq<byte>) -> Option<seq<byte>>)

  ghost predicate AeadOk(c: Aead) {
    forall iv, p, a :: |c.seal(iv, p, a)| == |p| + TAG_SIZE && c.open(iv, c.seal(iv, p, a), a) == Some(p)
  }

  /** incIV: the last eight bytes count up. */
  function CountIV(iv: seq<byte>, i: nat): (r: seq<byte>)
    requires 3 <= i < |iv|
    ensures |r| == |iv|
    decreases i
  {
    if i == 3 then iv
    else if iv[i] < 255 then iv[i := iv[i] as int + 1]
    else CountIV(iv[i := 0], i - 1)
  }

  function NextIV(iv: seq<byte>): seq<byte>
    requires |iv| == 12
  {
    CountIV(iv, 11)
  }

  function GcmFrame(c: Aead, iv: seq<byte>, packet: seq<byte>, pad: seq<byte>): seq<byte>
    requires |packet| + |pad| + 1 < U32_LIMIT && |pad| < 256
  {
    var prefix := U32(|packet| + |pad| + 1);
    prefix + c.seal(iv, [|pad|] + packet + pad, prefix)
  }

  function GcmParse(c: Aead, iv: seq<byte>, input: seq<byte>): Parsed<seq<byte>>
    requires |iv| == 12
  {
    if |input| < 4 then Fail(Short) else
    var length := FromU32(input[..4]);
    if length > MAX_PACKET then Fail(TooLarge) else
    if |input| < 4 + length + TAG_SIZE then Fail(Short) else
    var plain := c.open(iv, input[4..4 + length + TAG_SIZE], input[..4]);
    if plain.None? then Fail(OpenFailed) else
    if |plain.value| != length then Fail(OpenFailed) else
    if plain.value == [] then Fail(Panics) else
    var padding := plain.value[0] as int;
    if padding < 4 || padding >= 20 then Fail(BadPadding) else
    if padding + 1 >= |plain.value| then Fail(BadPadding) else
    Packet(plain.value[1..length - padding], input[4 + length + TAG_SIZE..], NextIV(iv))
  }

  lemma GcmRoundTrip(c: Aead, iv: seq<byte>, packet: seq<byte>, pad: seq<byte>, rest: seq<byte>)
    requires AeadOk(c) && |iv| == 12 && |packet| + 20 < U32_LIMIT && |pad| == Padding(1, |packet|)
    ensures var p := GcmParse(c, iv, GcmFrame(c, iv, packet, pad) + rest);
            p == if Readable(1, |packet|) then Packet(packet, rest, NextIV(iv))
                 else Fail(if packet == [] then BadPadding else TooLarge)
  {
    hide U32, FromU32, NextIV;
    var length := |packet| + |pad| + 1;
    var prefix, plain := U32(length), [|pad|] + packet + pad;
    var sealed := c.seal(iv, plain, prefix);
    U32RoundTrip(length);
    Slices(prefix, sealed, [], rest);
    assert GcmFrame(c, iv, packet, pad) + rest == prefix + sealed + [] + rest;
    assert plain[1..length - |pad|] == packet;
  }

  /** The input starts with a length and a ciphertext that opens to the packet, with its padding, under it. */
  ghost predicate GcmHolds(c: Aead, iv: seq<byte>, input: seq<byte>, packet: seq<byte>, pad: seq<byte>,
                           sealed: seq<byte>, rest: seq<byte>, next: seq<byte>)
    requires |iv| == 12
  {
    && packet != [] && 4 <= |pad| < 20 && |packet| + |pad| + 1 <= MAX_PACKET
    && var prefix := U32(|packet| + |pad| + 1);
    && |sealed| == |packet| + |pad| + 1 + TAG_SIZE && c.open(iv, sealed, prefix) == Some([|pad|] + packet + pad)
    && input == prefix + sealed + rest && next == NextIV(iv)
  }

  /** A packet is read exactly if it is what the ciphertext that arrived opens to, under its length. */
  lemma GcmExactly(c: Aead, iv: seq<byte>, input: seq<byte>, packet: seq<byte>, rest: seq<byte>, next: seq<byte>)
    requires |iv| == 12
    ensures GcmParse(c, iv, input) == Packet(packet, rest, next)
            <==> exists pad, sealed :: GcmHolds(c, iv, input, packet, pad, sealed, rest, next)
  {
    hide GcmHolds, GcmParse;
    if GcmParse(c, iv, input) == Packet(packet, rest, next) {
      var pad, sealed := GcmReads(c, iv, input, packet, rest, next);
    }
    forall pad, sealed | GcmHolds(c, iv, input, packet, pad, sealed, rest, next)
      ensures GcmParse(c, iv, input) == Packet(packet, rest, next)
    {
      GcmReadsBack(c, iv, input, packet, pad, sealed, rest, next);
    }
  }

  lemma GcmReadsBack(c: Aead, iv: seq<byte>, input: seq<byte>, packet: seq<byte>, pad: seq<byte>,
                     sealed: seq<byte>, rest: seq<byte>, next: seq<byte>)
    requires |iv| == 12 && GcmHolds(c, iv, input, packet, pad, sealed, rest, next)
    ensures GcmParse(c, iv, input) == Packet(packet, rest, next)
  {
    hide U32, FromU32, NextIV;
    var length := |packet| + |pad| + 1;
    U32RoundTrip(length);
    Slices(U32(length), sealed, [], rest);
    assert input == U32(length) + sealed + [] + rest;
    assert ([|pad|] + packet + pad)[1..length - |pad|] == packet;
  }

  lemma GcmReads(c: Aead, iv: seq<byte>, input: seq<byte>, packet: seq<byte>, rest: seq<byte>, next: seq<byte>)
    returns (pad: seq<byte>, sealed: seq<byte>)
    requires |iv| == 12 && GcmParse(c, iv, input) == Packet(packet, rest, next)
    ensures GcmHolds(c, iv, input, packet, pad, sealed, rest, next)
  {
    hide U32, FromU32, NextIV;
    var length := FromU32(input[..4]);
    sealed := input[4..4 + length + TAG_SIZE];
    var plain := c.open(iv, sealed, input[..4]).value;
    pad := plain[length - plain[0] as int..];
    FromU32Inverse(input[..4]);
    assert plain == [|pad|] + packet + pad;
    Reassembled(input, 4, 4 + length + TAG_SIZE, 4 + length + TAG_SIZE);
  }

  /** With a mode that opens nothing but what it seals, only frames are read. */
  lemma GcmFrames(c: Aead, iv: seq<byte>, input: seq<byte>, packet: seq<byte>, rest: seq<byte>, next: seq<byte>)
    returns (pad: seq<byte>)
    requires |iv| == 12 && GcmParse(c, iv, input) == Packet(packet, rest, next)
    requires forall n, s, a :: c.open(n, s, a).Some? ==> s == c.seal(n, c.open(n, s, a).value, a)
    ensures 4 <= |pad| < 20 && |packet| + |pad| + 1 < U32_LIMIT
    ensures input == GcmFrame(c, iv, packet, pad) + rest && next == NextIV(iv)
  {
    hide U32, FromU32, NextIV;
    var sealed;
    pad, sealed := GcmReads(c, iv, input, packet, rest, next);
  }

  /** The reader indexes out of range exactly on an authentic packet whose plaintext is empty. */
  lemma GcmPanics(c: Aead, iv: seq<byte>, s: seq<byte>)
    requires |iv| == 12
    ensures GcmParse(c, iv, s) == Fail(Panics)
            <==> |s| >= 4 + TAG_SIZE && FromU32(s[..4]) == 0 && c.open(iv, s[4..4 + TAG_SIZE], s[..4]) == Some([])
  {
    hide FromU32, NextIV;
  }

  /** Whoever has the key can send one: the seal of nothing, under the length zero. */
  lemma GcmPanicReached(c: Aead, iv: seq<byte>, rest: seq<byte>)
    requires AeadOk(c) && |iv| == 12
    ensures GcmParse(c, iv, U32(0) + c.seal(iv, [], U32(0)) + rest) == Fail(Panics)
  {
    hide U32, FromU32, NextIV;
    var sealed := c.seal(iv, [], U32(0));
    U32RoundTrip(0);
    Slices(U32(0), sealed, [], rest);
    assert U32(0) + sealed + rest == U32(0) + sealed + [] + rest;
  }

  // --------------------------------------------------------------------------
  // CBC
  // --------------------------------------------------------------------------

  datatype Cbc = Cbc(enc: seq<byte> -> seq<byte>, dec: seq<byte> -> seq<byte>,
                     mac: Option<seq<byte> -> seq<byte>>, macSize: nat)

  ghost predicate CbcOk(c: Cbc) {
    && (forall x :: |x| == 16 ==> |c.enc(x)| == 16 && c.dec(c.enc(x)) == x)
    && (match c.mac case None => c.macSize == 0 case Some(m) => forall s :: |m(s)| == c.macSize)
  }

  function XorBlock(a: seq<byte>, b: seq<byte>): (r: seq<byte>)
    requires |a| == |b|
    ensures |r| == |a|
  {
    if a == [] then [] else [XorByte(a[0], b[0])] + XorBlock(a[1..], b[1..])
  }

  lemma {:induction false} XorBlockTwice(a: seq<byte>, b: seq<byte>)
    requires |a| == |b|
    ensures XorBlock(a, XorBlock(a, b)) == b
  {
    if a != [] {
      XorByteCancel(a[0], b[0]);
      XorBlockTwice(a[1..], b[1..]);
      assert XorBlock(a, b)[1..] == XorBlock(a[1..], b[1..]);
    }
  }

  /** CryptBlocks of the encrypter from a chaining value; only whole blocks are passed to it. */
  function EncryptBlocks(c: Cbc, iv: seq<byte>, s: seq<byte>): (r: seq<byte>)
    requires |iv| == 16
    ensures |r| == |s|
    decreases |s|
  {
    if |s| < 16 then s else
    var x := c.enc(XorBlock(iv, s[..16]));
    var y := if |x| == 16 then x else s[..16];
    y + EncryptBlocks(c, y, s[16..])
  }

  function DecryptBlocks(c: Cbc, iv: seq<byte>, s: seq<byte>): (r: seq<byte>)
    requires |iv| == 16
    ensures |r| == |s|
    decreases |s|
  {
    if |s| < 16 then s else
    var y := c.dec(s[..16]);
    (if |y| == 16 then XorBlock(iv, y) else s[..16]) + DecryptBlocks(c, s[..16], s[16..])
  }

  /** The last ciphertext block chains on. */
  function Chain(iv: seq<byte>, s: seq<byte>): seq<byte> {
    if |s| < 16 then iv else s[|s| - 16..]
  }

  lemma {:induction false} BlocksRoundTrip(c: Cbc, iv: seq<byte>, s: seq<byte>)
    requires CbcOk(c) && |iv| == 16
    ensures DecryptBlocks(c, iv, EncryptBlocks(c, iv, s)) == s
    decreases |s|
  {
    hide XorBlock;
    if |s| >= 16 {
      var b := s[..16];
      var x := c.enc(XorBlock(iv, b));
      XorBlockTwice(iv, b);
      BlocksRoundTrip(c, x, s[16..]);
      var e := EncryptBlocks(c, iv, s);
      assert e[..16] == x && e[16..] == EncryptBlocks(c, x, s[16..]);
      assert b + s[16..] == s;
    }
  }

  /** The first block can be decrypted on its own, and chains to the others. */
  lemma FirstBlock(c: Cbc, iv: seq<byte>, s: seq<byte>)
    requires |iv| == 16 && |s| >= 16
    ensures DecryptBlocks(c, iv, s) == DecryptBlocks(c, iv, s[..16]) + DecryptBlocks(c, s[..16], s[16..])
  {
    hide XorBlock;
    assert s[..16][..16] == s[..16] && s[..16][16..] == [];
    assert DecryptBlocks(c, s[..16], []) == [];
  }

  function CbcMac(c: Cbc, seqNum: nat, plain: seq<byte>): seq<byte>
    requires seqNum < U32_LIMIT
  {
    if c.mac.None? then [] else c.mac.value(U32(seqNum) + plain)
  }

  /** The padding as the length arithmetic of the writer gives it. */
  function CbcPadding(n: nat): int {
    var encLength := (5 + n + 4 + MULTIPLE - 1) / MULTIPLE * MULTIPLE;
    encLength - 4 - (1 + n)
  }

  lemma CbcPaddingSame(n: nat)
    ensures CbcPadding(n) == Padding(5, n)
  {
  }

  function CbcFrame(c: Cbc, iv: seq<byte>, seqNum: nat, packet: seq<byte>, pad: seq<byte>): seq<byte>
    requires |iv| == 16 && seqNum < U32_LIMIT && |packet| + |pad| + 1 < U32_LIMIT && |pad| < 256
  {
    EncryptBlocks(c, iv, Plain(packet, pad)) + CbcMac(c, seqNum, Plain(packet, pad))
  }

  /** What the reader checks before it reads on. */
  function CbcCheck(length: nat, padding: nat): (e: Option<Error>)
    ensures e == None ==> 12 <= length <= MAX_PACKET && padding + 1 < length
  {
    if length > MAX_PACKET then Some(TooLarge) else
    if length + 4 < 16 then Some(TooSmall) else
    if (length + 4) % 16 != 0 then Some(BadMultiple) else
    if padding < 4 || length <= padding + 1 then Some(BadPadding) else None
  }

  lemma CbcCheckExact(n: nat)
    ensures CbcCheck(n + 1 + Padding(5, n), Padding(5, n)) ==
            if Readable(5, n) then None else Some(if n == 0 then BadPadding else TooLarge)
  {
  }

  /** The first block is decrypted on its own for the length, then the rest. */
  function CbcParse(c: Cbc, iv: seq<byte>, seqNum: nat, input: seq<byte>): Parsed<seq<byte>>
    requires |iv| == 16 && seqNum < U32_LIMIT
  {
    if |input| < 16 then Fail(Short) else
    var first := DecryptBlocks(c, iv, input[..16]);
    var length, padding := FromU32(first[..4]), first[4] as int;
    var error := CbcCheck(length, padding);
    if error.Some? then Fail(error.value) else
    var end := 4 + length;
    if |input| < end + c.macSize then Fail(Short) else
    var plain := first + DecryptBlocks(c, input[..16], input[16..end]);
    if c.mac.Some? && CbcMac(c, seqNum, plain) != input[end..end + c.macSize] then Fail(BadMAC) else
    Packet(plain[5..end - padding], input[end + c.macSize..], input[end - 16..end])
  }

  lemma PlainParts(packet: seq<byte>, pad: seq<byte>)
    requires |packet| + |pad| + 1 < U32_LIMIT && |pad| < 256 && 5 + |packet| + |pad| >= 16
    ensures var plain := Plain(packet, pad);
            && |plain| == 5 + |packet| + |pad|
            && plain[..4] == U32(|packet| + 1 + |pad|) && plain[4] == |pad|
            && plain[..16][..4] == U32(|packet| + 1 + |pad|) && plain[..16][4] == |pad|
            && plain[5..5 + |packet|] == packet
  {
    hide U32;
  }

  lemma PaddedLength(packet: seq<byte>, pad: seq<byte>)
    requires |pad| == Padding(5, |packet|)
    ensures (5 + |packet| + |pad|) % 16 == 0 && 5 + |packet| + |pad| >= 16
  {
  }

  /** The encrypted part and what the reader makes of its first block and of the others. */
  lemma CbcPieces(c: Cbc, iv: seq<byte>, plain: seq<byte>)
    requires CbcOk(c) && |iv| == 16 && |plain| >= 16
    ensures var e := EncryptBlocks(c, iv, plain);
            && DecryptBlocks(c, iv, e[..16]) == plain[..16]
            && plain[..16] + DecryptBlocks(c, e[..16], e[16..]) == plain
            && Chain(iv, e) == e[|e| - 16..]
  {
    hide EncryptBlocks, DecryptBlocks, XorBlock;
    var e := EncryptBlocks(c, iv, plain);
    BlocksRoundTrip(c, iv, plain);
    FirstBlock(c, iv, e);
    var d := DecryptBlocks(c, iv, e[..16]);
    assert plain[..16] == (d + DecryptBlocks(c, e[..16], e[16..]))[..16] == d;
  }

  lemma CbcSlices(e: seq<byte>, mac: seq<byte>, rest: seq<byte>)
    requires |e| >= 16
    ensures var input := e + mac + rest;
            && input[..16] == e[..16] && input[16..|e|] == e[16..] && input[|e| - 16..|e|] == e[|e| - 16..]
            && input[|e|..|e| + |mac|] == mac && input[|e| + |mac|..] == rest
  {
  }

  lemma MacLength(c: Cbc, seqNum: nat, plain: seq<byte>)
    requires CbcOk(c) && seqNum < U32_LIMIT
    ensures |CbcMac(c, seqNum, plain)| == c.macSize
  {
    hide U32;
  }

  /** Reading a frame whose pieces are known: n is the length of the encrypted part. */
  lemma CbcParsePieces(c: Cbc, iv: seq<byte>, seqNum: nat, input: seq<byte>, n: nat, padding: nat, plain: seq<byte>)
    requires |iv| == 16 && seqNum < U32_LIMIT && |plain| == n >= 16 && |input| >= n + c.macSize && n - 4 < U32_LIMIT
    requires DecryptBlocks(c, iv, input[..16]) == plain[..16]
    requires plain[..16] + DecryptBlocks(c, input[..16], input[16..n]) == plain
    requires FromU32(plain[..16][..4]) == n - 4 && plain[..16][4] as int == padding
    requires c.mac.Some? ==> CbcMac(c, seqNum, plain) == input[n..n + c.macSize]
    ensures CbcParse(c, iv, seqNum, input) ==
            match CbcCheck(n - 4, padding)
            case None => Packet(plain[5..n - padding], input[n + c.macSize..], input[n - 16..n])
            case Some(e) => Fail(e)
  {
    hide DecryptBlocks, FromU32, CbcCheck, CbcMac;
  }

  lemma CbcRoundTrip(c: Cbc, iv: seq<byte>, seqNum: nat, packet: seq<byte>, pad: seq<byte>, rest: seq<byte>)
    requires CbcOk(c) && |iv| == 16 && seqNum < U32_LIMIT && |packet| + 20 < U32_LIMIT && |pad| == Padding(5, |packet|)
    ensures var p := CbcParse(c, iv, seqNum, CbcFrame(c, iv, seqNum, packet, pad) + rest);
            p == if Readable(5, |packet|) then Packet(packet, rest, Chain(iv, EncryptBlocks(c, iv, Plain(packet, pad))))
                 else Fail(if packet == [] then BadPadding else TooLarge)
  {
    hide DecryptBlocks, EncryptBlocks, U32, FromU32, CbcParse, Plain, Padding, Chain, CbcOk, CbcMac, CbcCheck, Readable;
    var plain := Plain(packet, pad);
    var n := 5 + |packet| + |pad|;
    var e, mac := EncryptBlocks(c, iv, plain), CbcMac(c, seqNum, plain);
    PaddedLength(packet, pad);
    PlainParts(packet, pad);
    CbcPieces(c, iv, plain);
    MacLength(c, seqNum, plain);
    CbcSlices(e, mac, rest);
    U32RoundTrip(n - 4);
    CbcParsePieces(c, iv, seqNum, e + mac + rest, n, |pad|, plain);
    CbcCheckExact(|packet|);
  }

  /** A block cipher is a permutation of the blocks. */
  ghost predicate Permutes(c: Cbc) {
    forall y :: |y| == 16 ==> |c.dec(y)| == 16 && c.enc(c.dec(y)) == y
  }

  lemma {:induction false} BlocksBack(c: Cbc, iv: seq<byte>, s: seq<byte>)
    requires CbcOk(c) && Permutes(c) && |iv| == 16
    ensures EncryptBlocks(c, iv, DecryptBlocks(c, iv, s)) == s
    decreases |s|
  {
    hide XorBlock;
    if |s| >= 16 {
      var y := c.dec(s[..16]);
      XorBlockTwice(iv, y);
      BlocksBack(c, s[..16], s[16..]);
      var d := DecryptBlocks(c, iv, s);
      assert d[..16] == XorBlock(iv, y) && d[16..] == DecryptBlocks(c, s[..16], s[16..]);
      assert s[..16] + s[16..] == s;
    }
  }

  /** The input starts with the frame of the packet under some padding; next is the last encrypted block. */
  ghost predicate CbcHolds(c: Cbc, iv: seq<byte>, seqNum: nat, input: seq<byte>,
                           packet: seq<byte>, pad: seq<byte>, rest: seq<byte>, next: seq<byte>)
    requires |iv| == 16 && seqNum < U32_LIMIT
  {
    && packet != [] && 4 <= |pad| < 256 && |packet| + 1 + |pad| <= MAX_PACKET && (5 + |packet| + |pad|) % 16 == 0
    && input == CbcFrame(c, iv, seqNum, packet, pad) + rest
    && next == Chain(iv, EncryptBlocks(c, iv, Plain(packet, pad)))
  }

  /** A packet is read exactly if its frame, of whole blocks and with the right MAC, is what arrived. */
  lemma CbcExactly(c: Cbc, iv: seq<byte>, seqNum: nat, input: seq<byte>, packet: seq<byte>, rest: seq<byte>,
                   next: seq<byte>)
    requires CbcOk(c) && Permutes(c) && |iv| == 16 && seqNum < U32_LIMIT
    ensures CbcParse(c, iv, seqNum, input) == Packet(packet, rest, next)
            <==> exists pad :: CbcHolds(c, iv, seqNum, input, packet, pad, rest, next)
  {
    hide CbcHolds, CbcParse, CbcOk, Permutes;
    if CbcParse(c, iv, seqNum, input) == Packet(packet, rest, next) {
      var pad := CbcReads(c, iv, seqNum, input, packet, rest, next);
    }
    forall pad | CbcHolds(c, iv, seqNum, input, packet, pad, rest, next)
      ensures CbcParse(c, iv, seqNum, input) == Packet(packet, rest, next)
    {
      CbcReadsBack(c, iv, seqNum, input, packet, pad, rest, next);
    }
  }

  lemma CbcReadsBack(c: Cbc, iv: seq<byte>, seqNum: nat, input: seq<byte>,
                     packet: seq<byte>, pad: seq<byte>, rest: seq<byte>, next: seq<byte>)
    requires CbcOk(c) && |iv| == 16 && seqNum < U32_LIMIT && CbcHolds(c, iv, seqNum, input, packet, pad, rest, next)
    ensures CbcParse(c, iv, seqNum, input) == Packet(packet, rest, next)
  {
    hide DecryptBlocks, EncryptBlocks, U32, FromU32, CbcParse, Plain, CbcOk, CbcMac;
    var plain := Plain(packet, pad);
    var n := 5 + |packet| + |pad|;
    var e, mac := EncryptBlocks(c, iv, plain), CbcMac(c, seqNum, plain);
    PlainParts(packet, pad);
    CbcPieces(c, iv, plain);
    MacLength(c, seqNum, plain);
    CbcSlices(e, mac, rest);
    U32RoundTrip(n - 4);
    CbcParsePieces(c, iv, seqNum, e + mac + rest, n, |pad|, plain);
  }

  lemma CbcReads(c: Cbc, iv: seq<byte>, seqNum: nat, input: seq<byte>, packet: seq<byte>, rest: seq<byte>,
                 next: seq<byte>)
    returns (pad: seq<byte>)
    requires CbcOk(c) && Permutes(c) && |iv| == 16 && seqNum < U32_LIMIT
    requires CbcParse(c, iv, seqNum, input) == Packet(packet, rest, next)
    ensures CbcHolds(c, iv, seqNum, input, packet, pad, rest, next)
  {
    hide DecryptBlocks, EncryptBlocks, U32, FromU32, Permutes, CbcOk, Plain, Chain;
    var n := 4 + FromU32(DecryptBlocks(c, iv, input[..16])[..4]);
    var plain := CbcDecrypted(c, iv, input, n);
    var padding := plain[4] as int;
    pad := plain[n - padding..];
    MacLength(c, seqNum, plain);
    PlainIs(plain, packet, pad);
    BlocksBack(c, iv, input[..n]);
    assert Chain(iv, input[..n]) == input[n - 16..n] by { LastBlock(iv, input, n); }
    Reassembled(input, n, n, n + c.macSize);
    hide CbcParse;
    assert CbcMac(c, seqNum, plain) == input[n..n + c.macSize];
  }

  lemma LastBlock(iv: seq<byte>, s: seq<byte>, n: nat)
    requires 16 <= n <= |s|
    ensures Chain(iv, s[..n]) == s[n - 16..n]
  {
  }

  /** The plaintext of the encrypted part, whose first block has the length and the padding. */
  lemma CbcDecrypted(c: Cbc, iv: seq<byte>, input: seq<byte>, n: nat) returns (plain: seq<byte>)
    requires |iv| == 16 && 16 <= n <= |input| && n == 4 + FromU32(DecryptBlocks(c, iv, input[..16])[..4])
    ensures plain == DecryptBlocks(c, iv, input[..n])
    ensures plain == DecryptBlocks(c, iv, input[..16]) + DecryptBlocks(c, input[..16], input[16..n])
    ensures |plain| == n && n - 4 < U32_LIMIT && plain[..4] == U32(n - 4)
    ensures plain[4] == DecryptBlocks(c, iv, input[..16])[4]
  {
    hide DecryptBlocks, U32, FromU32;
    plain := DecryptBlocks(c, iv, input[..n]);
    var first := DecryptBlocks(c, iv, input[..16]);
    assert input[..n][..16] == input[..16] && input[..n][16..] == input[16..n];
    FirstBlock(c, iv, input[..n]);
    FromU32Inverse(first[..4]);
    assert plain[..4] == first[..4];
  }

  lemma PlainIs(plain: seq<byte>, packet: seq<byte>, pad: seq<byte>)
    requires 5 <= |plain| && |plain| - 4 < U32_LIMIT && plain[..4] == U32(|plain| - 4)
    requires var padding := plain[4] as int;
             padding + 5 <= |plain| && packet == plain[5..|plain| - padding] && pad == plain[|plain| - padding..]
    ensures |packet| + |pad| + 1 < U32_LIMIT && |pad| == plain[4] as int && Plain(packet, pad) == plain
  {
    hide U32;
  }

  // --------------------------------------------------------------------------
  // Sequences of packets
  // --------------------------------------------------------------------------

  datatype Suite = StreamSuite(stream: Stream) | GcmSuite(aead: Aead) | CbcSuite(cbc: Cbc)

  /** The position in the key stream, or the nonce or chaining value. */
  datatype State = At(pos: nat) | With(iv: seq<byte>)

  ghost predicate SuiteOk(s: Suite) {
    match s
    case StreamSuite(c) => StreamOk(c)
    case GcmSuite(c) => AeadOk(c)
    case CbcSuite(c) => CbcOk(c)
  }

  predicate StateOk(s: Suite, st: State) {
    match s
    case StreamSuite(_) => st.At?
    case GcmSuite(_) => st.With? && |st.iv| == 12
    case CbcSuite(_) => st.With? && |st.iv| == 16
  }

  function Offset(s: Suite): nat {
    if s.GcmSuite? then 1 else 5
  }

  ghost function Frame(s: Suite, st: State, seqNum: nat, packet: seq<byte>, pad: seq<byte>): seq<byte>
    requires SuiteOk(s) && StateOk(s, st) && seqNum < U32_LIMIT && |packet| <= MAX_PACKET
             && |pad| == Padding(Offset(s), |packet|)
  {
    match s
    case StreamSuite(c) => StreamFrame(c, st.pos, seqNum, packet, pad)
    case GcmSuite(c) => GcmFrame(c, st.iv, packet, pad)
    case CbcSuite(c) => CbcFrame(c, st.iv, seqNum, packet, pad)
  }

  /** The writer's state after a packet. */
  ghost function After(s: Suite, st: State, packet: seq<byte>, pad: seq<byte>): State
    requires SuiteOk(s) && StateOk(s, st) && |packet| <= MAX_PACKET && |pad| == Padding(Offset(s), |packet|)
  {
    match s
    case StreamSuite(_) => At(st.pos + 5 + |packet| + |pad|)
    case GcmSuite(_) => With(NextIV(st.iv))
    case CbcSuite(c) => With(Chain(st.iv, EncryptBlocks(c, st.iv, Plain(packet, pad))))
  }

  function Parse(s: Suite, st: State, seqNum: nat, input: seq<byte>): Parsed<State>
    requires StateOk(s, st) && seqNum < U32_LIMIT
  {
    match s
    case StreamSuite(c) =>
      (match StreamParse(c, st.pos, seqNum, input)
       case Packet(p, rest, n) => Packet(p, rest, At(n))
       case Fail(e) => Fail(e))
    case GcmSuite(c) =>
      (match GcmParse(c, st.iv, input)
       case Packet(p, rest, iv) => Packet(p, rest, With(iv))
       case Fail(e) => Fail(e))
    case CbcSuite(c) =>
      (match CbcParse(c, st.iv, seqNum, input)
       case Packet(p, rest, iv) => Packet(p, rest, With(iv))
       case Fail(e) => Fail(e))
  }

  /** In every framing, one packet reads back and the two ends stay in step. */
  lemma FrameRoundTrip(s: Suite, st: State, seqNum: nat, packet: seq<byte>, pad: seq<byte>, rest: seq<byte>)
    requires SuiteOk(s) && StateOk(s, st) && seqNum < U32_LIMIT && |packet| <= MAX_PACKET
             && |pad| == Padding(Offset(s), |packet|)
    ensures StateOk(s, After(s, st, packet, pad))
    ensures var p := Parse(s, st, seqNum, Frame(s, st, seqNum, packet, pad) + rest);
            if Readable(Offset(s), |packet|) then p == Packet(packet, rest, After(s, st, packet, pad)) else p.Fail?
  {
    hide StreamOk, AeadOk, CbcOk, StreamParse, GcmParse, CbcParse, StreamFrame, GcmFrame, CbcFrame, Plain,
        EncryptBlocks, CountIV;
    match s
    case StreamSuite(c) => StreamRoundTrip(c, st.pos, seqNum, packet, pad, rest);
    case GcmSuite(c) => GcmRoundTrip(c, st.iv, packet, pad, rest);
    case CbcSuite(c) => CbcRoundTrip(c, st.iv, seqNum, packet, pad, rest);
  }

  /** Payloads of one to MAX_PACKET - 20 bytes always fit. */
  lemma ReadableRange(offset: nat, n: nat)
    requires 1 <= n <= MAX_PACKET - 20
    ensures Readable(offset, n)
  {
  }

  ghost predicate PadsFit(s: Suite, ps: seq<seq<byte>>, pads: seq<seq<byte>>) {
    |ps| == |pads| && forall i :: 0 <= i < |ps| ==>
      Readable(Offset(s), |ps[i]|) && |pads[i]| == Padding(Offset(s), |ps[i]|)
  }

  ghost function FrameAll(s: Suite, st: State, seqNum: nat, ps: seq<seq<byte>>, pads: seq<seq<byte>>)
    : (seq<byte>, State)
    requires SuiteOk(s) && StateOk(s, st) && seqNum < U32_LIMIT && PadsFit(s, ps, pads)
    ensures StateOk(s, FrameAll(s, st, seqNum, ps, pads).1)
    decreases ps
  {
    if ps == [] then ([], st) else
    FrameRoundTrip(s, st, seqNum, ps[0], pads[0], []);
    var r := FrameAll(s, After(s, st, ps[0], pads[0]), (seqNum + 1) % U32_LIMIT, ps[1..], pads[1..]);
    (Frame(s, st, seqNum, ps[0], pads[0]) + r.0, r.1)
  }

  /** Reads n packets, or fails at the first that does not parse. */
  function ParseAll(s: Suite, st: State, seqNum: nat, n: nat, input: seq<byte>)
    : Option<(seq<seq<byte>>, seq<byte>, State)>
    requires seqNum < U32_LIMIT
    decreases n
  {
    if n == 0 then Some(([], input, st)) else
    if !StateOk(s, st) then None else
    match Parse(s, st, seqNum, input)
    case Fail(_) => None
    case Packet(p, rest, t) =>
      var r := ParseAll(s, t, (seqNum + 1) % U32_LIMIT, n - 1, rest);
      if r.None? then None else Some(([p] + r.value.0, r.value.1, r.value.2))
  }

  /**
   In every framing, any sequence of packets reads back as it was written: the reader consumes exactly
   the bytes of the writer, and both end in the same cipher state.
   */
  lemma {:induction false} PacketsRoundTrip(s: Suite, st: State, seqNum: nat, ps: seq<seq<byte>>,
      pads: seq<seq<byte>>, rest: seq<byte>)
    requires SuiteOk(s) && StateOk(s, st) && seqNum < U32_LIMIT && PadsFit(s, ps, pads)
    ensures var w := FrameAll(s, st, seqNum, ps, pads);
            ParseAll(s, st, seqNum, |ps|, w.0 + rest) == Some((ps, rest, w.1))
    decreases ps
  {
    hide SuiteOk, Frame, Parse, After, Padding;
    if ps == [] {
      assert FrameAll(s, st, seqNum, ps, pads).0 + rest == rest;
    } else {
      FrameRoundTrip(s, st, seqNum, ps[0], pads[0], []);
      var t := After(s, st, ps[0], pads[0]);
      var next := (seqNum + 1) % U32_LIMIT;
      var w := FrameAll(s, t, next, ps[1..], pads[1..]);
      var first := Frame(s, st, seqNum, ps[0], pads[0]);
      FrameRoundTrip(s, st, seqNum, ps[0], pads[0], w.0 + rest);
      PacketsRoundTrip(s, t, next, ps[1..], pads[1..], rest);
      assert first + w.0 + rest == first + (w.0 + rest);
      assert ps == [ps[0]] + ps[1..];
    }
  }

  /** The input starts with the packet, framed for this state and sequence number; t is the state behind it. */
  ghost predicate Holds(s: Suite, st: State, seqNum: nat, input: seq<byte>,
                        packet: seq<byte>, rest: seq<byte>, t: State)
    requires StateOk(s, st) && seqNum < U32_LIMIT
  {
    match s
    case StreamSuite(c) => t.At? && exists pad :: StreamHolds(c, st.pos, seqNum, input, packet, pad, rest, t.pos)
    case GcmSuite(c) =>
      t.With? && exists pad, sealed :: GcmHolds(c, st.iv, input, packet, pad, sealed, rest, t.iv)
    case CbcSuite(c) => t.With? && exists pad :: CbcHolds(c, st.iv, seqNum, input, packet, pad, rest, t.iv)
  }

  lemma ParseExactly(s: Suite, st: State, seqNum: nat, input: seq<byte>, packet: seq<byte>, rest: seq<byte>, t: State)
    requires SuiteOk(s) && (s.CbcSuite? ==> Permutes(s.cbc)) && StateOk(s, st) && seqNum < U32_LIMIT
    ensures Parse(s, st, seqNum, input) == Packet(packet, rest, t)
            <==> Holds(s, st, seqNum, input, packet, rest, t)
  {
    hide StreamParse, GcmParse, CbcParse, StreamHolds, GcmHolds, CbcHolds, StreamOk, AeadOk, CbcOk, Permutes;
    match s
    case StreamSuite(c) => StreamExactly(c, st.pos, seqNum, input, packet, rest, if t.At? then t.pos else 0);
    case GcmSuite(c) => GcmExactly(c, st.iv, input, packet, rest, if t.With? then t.iv else []);
    case CbcSuite(c) => CbcExactly(c, st.iv, seqNum, input, packet, rest, if t.With? then t.iv else []);
  }

  /** The input is the packets in order, framed under consecutive sequence numbers, and the rest. */
  ghost predicate Carries(s: Suite, st: State, seqNum: nat, input: seq<byte>,
                          ps: seq<seq<byte>>, rest: seq<byte>, t: State)
    requires seqNum < U32_LIMIT
    decreases ps
  {
    if ps == [] then input == rest && t == st
    else StateOk(s, st) && exists after, next :: Follows(s, st, seqNum, input, ps, rest, t, after, next)
  }

  ghost predicate Follows(s: Suite, st: State, seqNum: nat, input: seq<byte>, ps: seq<seq<byte>>, rest: seq<byte>,
                          t: State, after: seq<byte>, next: State)
    requires seqNum < U32_LIMIT && ps != [] && StateOk(s, st)
    decreases ps, 0
  {
    && Holds(s, st, seqNum, input, ps[0], after, next)
    && Carries(s, next, (seqNum + 1) % U32_LIMIT, after, ps[1..], rest, t)
  }

  /**
   In every framing the reader gives out packets exactly if they are what the input carries: in this order,
   none left out, each authenticated where there is a MAC.
   */
  lemma PacketsExactly(s: Suite, st: State, seqNum: nat, input: seq<byte>, ps: seq<seq<byte>>, rest: seq<byte>,
                       t: State)
    requires SuiteOk(s) && (s.CbcSuite? ==> Permutes(s.cbc)) && seqNum < U32_LIMIT
    ensures ParseAll(s, st, seqNum, |ps|, input) == Some((ps, rest, t))
            <==> Carries(s, st, seqNum, input, ps, rest, t)
  {
    hide SuiteOk, ParseAll, Carries, Permutes;
    if ParseAll(s, st, seqNum, |ps|, input) == Some((ps, rest, t)) {
      PacketsRead(s, st, seqNum, input, ps, rest, t);
    }
    if Carries(s, st, seqNum, input, ps, rest, t) {
      PacketsReadBack(s, st, seqNum, input, ps, rest, t);
    }
  }

  lemma {:induction false} PacketsRead(s: Suite, st: State, seqNum: nat, input: seq<byte>, ps: seq<seq<byte>>,
      rest: seq<byte>, t: State)
    requires SuiteOk(s) && (s.CbcSuite? ==> Permutes(s.cbc)) && seqNum < U32_LIMIT
    requires ParseAll(s, st, seqNum, |ps|, input) == Some((ps, rest, t))
    ensures Carries(s, st, seqNum, input, ps, rest, t)
    decreases ps
  {
    hide SuiteOk, Parse, Holds, Permutes;
    if ps != [] {
      var r := Parse(s, st, seqNum, input);
      var u := ParseAll(s, r.state, (seqNum + 1) % U32_LIMIT, |ps| - 1, r.rest);
      ConsParts(r.packet, u.value.0, ps);
      ParseExactly(s, st, seqNum, input, r.packet, r.rest, r.state);
      PacketsRead(s, r.state, (seqNum + 1) % U32_LIMIT, r.rest, ps[1..], rest, t);
      assert Follows(s, st, seqNum, input, ps, rest, t, r.rest, r.state);
    }
  }

  lemma ConsParts(p: seq<byte>, qs: seq<seq<byte>>, ps: seq<seq<byte>>)
    requires ps == [p] + qs
    ensures ps[0] == p && ps[1..] == qs
  {
  }

  lemma {:induction false} PacketsReadBack(s: Suite, st: State, seqNum: nat, input: seq<byte>, ps: seq<seq<byte>>,
      rest: seq<byte>, t: State)
    requires SuiteOk(s) && (s.CbcSuite? ==> Permutes(s.cbc)) && seqNum < U32_LIMIT
    requires Carries(s, st, seqNum, input, ps, rest, t)
    ensures ParseAll(s, st, seqNum, |ps|, input) == Some((ps, rest, t))
    decreases ps
  {
    hide SuiteOk, Parse, Holds, Permutes;
    if ps != [] {
      var after, next :| Follows(s, st, seqNum, input, ps, rest, t, after, next);
      ParseExactly(s, st, seqNum, input, ps[0], after, next);
      PacketsReadBack(s, next, (seqNum + 1) % U32_LIMIT, after, ps[1..], rest, t);
      assert ps == [ps[0]] + ps[1..];
    }
  }

  /** A frame for one sequence number is refused at another, as far as the MAC tells the two apart. */
  lemma StreamNumbered(c: Stream, pos: nat, i: nat, j: nat, packet: seq<byte>, pad: seq<byte>, rest: seq<byte>)
    requires StreamOk(c) && i < U32_LIMIT && j < U32_LIMIT
    requires packet != [] && |pad| < 256 && |packet| + 1 + |pad| <= MAX_PACKET
    requires c.mac.Some? && c.mac.value(U32(i) + Plain(packet, pad)) != c.mac.value(U32(j) + Plain(packet, pad))
    ensures StreamParse(c, pos, j, StreamFrame(c, pos, i, packet, pad) + rest) == Fail(BadMAC)
  {
    hide Crypt, U32, FromU32, StreamFrame;
    StreamPieces(c, pos, i, packet, pad, rest);
    var length := |packet| + 1 + |pad|;
    U32RoundTrip(length);
    assert (U32(length) + [|pad|])[..4] == U32(length);
    assert U32(length) + [|pad|] + (packet + pad) == Plain(packet, pad);
  }

  lemma CbcNumbered(c: Cbc, iv: seq<byte>, i: nat, j: nat, packet: seq<byte>, pad: seq<byte>, rest: seq<byte>)
    requires CbcOk(c) && |iv| == 16 && i < U32_LIMIT && j < U32_LIMIT && (5 + |packet| + |pad|) % 16 == 0
    requires packet != [] && 4 <= |pad| < 256 && |packet| + 1 + |pad| <= MAX_PACKET
    requires c.mac.Some? && c.mac.value(U32(i) + Plain(packet, pad)) != c.mac.value(U32(j) + Plain(packet, pad))
    ensures CbcParse(c, iv, j, CbcFrame(c, iv, i, packet, pad) + rest) == Fail(BadMAC)
  {
    hide DecryptBlocks, EncryptBlocks, U32, FromU32, Plain, CbcOk;
    var plain := Plain(packet, pad);
    var n := 5 + |packet| + |pad|;
    var e, mac := EncryptBlocks(c, iv, plain), CbcMac(c, i, plain);
    PlainParts(packet, pad);
    CbcPieces(c, iv, plain);
    MacLength(c, i, plain);
    CbcSlices(e, mac, rest);
    U32RoundTrip(n - 4);
  }

  // --------------------------------------------------------------------------
  // The objects
  // --------------------------------------------------------------------------

  /** A stream cipher with its position; the prefix buffer is reused for every packet. */
  class StreamPacketCipher {
    const c: Stream
    const prefix: array<byte>
    var pos: nat

    constructor (c: Stream)
      ensures this.c == c && pos == 0 && prefix.Length == 5 && fresh(prefix)
    {
      this.c := c;
      prefix := new byte[5];
      pos := 0;
    }

    /** XORKeyStream in place on part of a buffer. */
    method XorKeyStream(a: array<byte>, lo: nat, n: nat)
      requires lo + n <= a.Length
      modifies this`pos, a
      ensures pos == old(pos) + n && a[lo..lo + n] == Crypt(c.key, old(pos), old(a[lo..lo + n]))
      ensures a[..lo] == old(a[..lo]) && a[lo + n..] == old(a[lo + n..])
    {
      ghost var s, start := a[lo..lo + n], pos;
      hide XorByte, Crypt;
      for i := 0 to n
        invariant pos == start + i
        invariant forall k :: 0 <= k < i ==> a[lo + k] == XorByte(c.key(start + k), s[k])
        invariant forall k :: 0 <= k < a.Length && !(lo <= k < lo + i) ==> a[k] == old(a[k])
      {
        a[lo + i] := XorByte(c.key(pos), a[lo + i]);
        pos := pos + 1;
      }
      CryptIs(c.key, start, s, a[lo..lo + n]);
    }

    /** Prefix, packet and padding are encrypted one after the other; the caller's buffers are overwritten. */
    method WritePacket(seqNum: nat, packet: array<byte>, rand: seq<byte>) returns (ok: bool, out: seq<byte>)
      requires seqNum < U32_LIMIT && |rand| >= 2 * MULTIPLE && prefix.Length == 5 && packet != prefix
      modifies this`pos, prefix, packet
      ensures ok <==> packet.Length <= MAX_PACKET
      ensures ok ==>
        var pad := rand[..Padding(5, packet.Length)];
        && out == StreamFrame(c, old(pos), seqNum, old(packet[..]), pad) && pos == old(pos) + 5 + packet.Length + |pad|
      ensures !ok ==> out == [] && pos == old(pos)
    {
      hide Crypt, U32, Padding;
      if packet.Length > MAX_PACKET {
        return false, [];
      }
      var n := Padding(5, packet.Length);
      var padding := new byte[n];
      Place(padding, 0, rand[..n]);
      assert padding[..] == padding[0..n] == rand[..n];
      ghost var plain, text, pad := Plain(packet[..], rand[..n]), packet[..], rand[..n];
      var head := U32(packet.Length + 1 + n) + [n];
      Place(prefix, 0, head);
      assert prefix[..] == prefix[0..5] == head;
      var mac := MacOf(c, seqNum, prefix[..] + packet[..] + padding[..]);
      assert prefix[..] + packet[..] + padding[..] == plain;
      ThreeParts(c.key, pos, head, text, pad);
      assert prefix[0..5] == prefix[..] && packet[0..packet.Length] == packet[..] && padding[0..n] == padding[..];
      XorKeyStream(prefix, 0, 5);
      XorKeyStream(packet, 0, packet.Length);
      XorKeyStream(padding, 0, n);
      assert prefix[0..5] == prefix[..] && packet[0..packet.Length] == packet[..] && padding[0..n] == padding[..];
      out := prefix[..] + packet[..] + padding[..] + mac;
      ok := true;
    }

    /** Reads the prefix, then as much as it announces. */
    method ReadPacket(seqNum: nat, r: Source) returns (p: Parsed<nat>)
      requires seqNum < U32_LIMIT && prefix.Length == 5
      modifies this`pos, prefix, r
      ensures p == StreamParse(c, old(pos), seqNum, old(r.data))
      ensures p.Packet? ==> r.data == p.rest && pos == p.state
    {
      hide Crypt, FromU32, MacOf;
      ghost var input := r.data;
      var n, ok := ReadFull(r, prefix, 0, 5);
      if !ok {
        return Fail(Short);
      }
      assert prefix[0..5] == prefix[..] == input[..5];
      XorKeyStream(prefix, 0, 5);
      assert prefix[0..5] == prefix[..];
      var head := prefix[..];
      var length, padding := FromU32(head[..4]), head[4] as int;
      if length <= padding + 1 {
        return Fail(TooSmall);
      }
      if length > MAX_PACKET {
        return Fail(TooLarge);
      }
      var data := new byte[length - 1 + c.macSize];
      n, ok := ReadFull(r, data, 0, data.Length);
      if !ok {
        return Fail(Short);
      }
      ReadSlices(input, data[..], length, c.macSize);
      assert data[0..data.Length] == data[..];
      var mac := data[length - 1..];
      XorKeyStream(data, 0, length - 1);
      var text := data[0..length - 1];
      if c.mac.Some? && MacOf(c, seqNum, head + text) != mac {
        return Fail(BadMAC);
      }
      assert data[..length - padding - 1] == text[..length - padding - 1];
      return Packet(data[..length - padding - 1], r.data, pos);
    }
  }

  class GcmCipher {
    const aead: Aead
    const iv: array<byte>

    constructor (aead: Aead, iv: seq<byte>)
      requires |iv| == 12
      ensures this.aead == aead && this.iv.Length == 12 && this.iv[..] == iv && fresh(this.iv)
    {
      this.aead := aead;
      this.iv := new byte[12];
      new;
      Place(this.iv, 0, iv);
      assert this.iv[..] == this.iv[0..12];
    }

    /** The nonce for the next packet: four fixed bytes and a counter that wraps. */
    method IncIV()
      requires iv.Length == 12
      modifies iv
      ensures iv[..] == NextIV(old(iv[..]))
    {
      var i := 11;
      while i >= 4
        invariant 3 <= i <= 11 && NextIV(old(iv[..])) == CountIV(iv[..], i)
      {
        if iv[i] < 255 {
          iv[i] := iv[i] + 1;
          return;
        }
        iv[i] := 0;
        i := i - 1;
      }
    }

    method WritePacket(packet: seq<byte>, rand: seq<byte>) returns (out: seq<byte>)
      requires iv.Length == 12 && |packet| + 20 < U32_LIMIT && |rand| >= 2 * MULTIPLE
      modifies iv
      ensures out == GcmFrame(aead, old(iv[..]), packet, rand[..Padding(1, |packet|)]) && iv[..] == NextIV(old(iv[..]))
    {
      hide U32, NextIV;
      var n := Padding(1, |packet|);
      var prefix := U32(|packet| + n + 1);
      var buf := [n] + packet + rand[..n];
      out := prefix + aead.seal(iv[..], buf, prefix);
      IncIV();
    }

    /** An authentic packet without even a padding length makes the original index out of range. */
    method ReadPacket(r: Source) returns (p: Parsed<seq<byte>>)
      requires iv.Length == 12 && AeadOpens(aead)
      modifies iv, r
      ensures p == GcmParse(aead, old(iv[..]), old(r.data))
      ensures p.Packet? ==> r.data == p.rest && iv[..] == p.state
    {
      hide FromU32, NextIV;
      ghost var input := r.data;
      var prefix := new byte[4];
      var n, ok := ReadFull(r, prefix, 0, 4);
      if !ok {
        return Fail(Short);
      }
      assert prefix[0..4] == prefix[..] == input[..4];
      var length := FromU32(prefix[..]);
      if length > MAX_PACKET {
        return Fail(TooLarge);
      }
      var buf := new byte[length + TAG_SIZE];
      n, ok := ReadFull(r, buf, 0, buf.Length);
      if !ok {
        return Fail(Short);
      }
      assert buf[0..buf.Length] == buf[..] == input[4..4 + length + TAG_SIZE];
      var plain := aead.open(iv[..], buf[..], prefix[..]);
      if plain.None? {
        return Fail(OpenFailed);
      }
      IncIV();
      if plain.value == [] {
        return Fail(Panics);
      }
      var padding := plain.value[0] as int;
      if padding < 4 || padding >= 20 || padding + 1 >= |plain.value| {
        return Fail(BadPadding);
      }
      return Packet(plain.value[1..length - padding], r.data, iv[..]);
    }
  }

  /** Open takes the tag off. */
  ghost predicate AeadOpens(c: Aead) {
    forall iv, x, a :: c.open(iv, x, a).Some? ==> |c.open(iv, x, a).value| + TAG_SIZE == |x|
  }

  /** The nonce never changes its fixed part, and its counter goes up by one modulo 2^64. */
  lemma NextIVCounts(iv: seq<byte>)
    requires |iv| == 12
    ensures NextIV(iv)[..4] == iv[..4] && BigValue(NextIV(iv)[4..]) == (BigValue(iv[4..]) + 1) % Pow256(8)
  {
    hide BigValue, Pow256;
    IncCounts(iv, iv, 11);
  }

  lemma {:induction false} IncCounts(was: seq<byte>, iv: seq<byte>, i: nat)
    requires |was| == |iv| == 12 && 3 <= i <= 11 && forall k :: 0 <= k <= i ==> iv[k] == was[k]
    requires forall k :: i < k < 12 ==> iv[k] == 0 && was[k] == 255
    ensures CountIV(iv, i)[..4] == was[..4] && BigValue(CountIV(iv, i)[4..]) == (BigValue(was[4..]) + 1) % Pow256(8)
    decreases i
  {
    hide BigValue, Pow256;
    if i == 3 {
      Wrapped(was[4..], iv[4..]);
      Modulo(0, Pow256(8));
    } else if iv[i] < 255 {
      var r := iv[i := iv[i] as int + 1];
      assert r[4..][..i - 4] == was[4..][..i - 4];
      Carried(was[4..], r[4..], i - 4);
      ValueBelow(r[4..]);
      Modulo(BigValue(r[4..]), Pow256(8));
    } else {
      IncCounts(was, iv[i := 0], i - 1);
    }
  }

  class CbcCipher {
    const c: Cbc
    var iv: seq<byte>

    constructor (c: Cbc, iv: seq<byte>)
      ensures this.c == c && this.iv == iv
    {
      this.c, this.iv := c, iv;
    }

    /** The MAC covers the plaintext; header, payload and padding are encrypted as whole blocks. */
    method WritePacket(seqNum: nat, packet: seq<byte>, rand: seq<byte>) returns (out: seq<byte>)
      requires |iv| == 16 && seqNum < U32_LIMIT && |packet| + 20 < U32_LIMIT && |rand| >= 2 * MULTIPLE
      modifies this
      ensures var pad := rand[..Padding(5, |packet|)];
              && out == CbcFrame(c, old(iv), seqNum, packet, pad)
              && iv == Chain(old(iv), EncryptBlocks(c, old(iv), Plain(packet, pad)))
    {
      hide EncryptBlocks, U32, Chain;
      CbcPaddingSame(|packet|);
      var encLength := (5 + |packet| + 4 + MULTIPLE - 1) / MULTIPLE * MULTIPLE;
      var length := encLength - 4;
      var padding := length - (1 + |packet|);
      var p := U32(length) + [padding] + packet + rand[..padding];
      assert p == Plain(packet, rand[..padding]);
      var mac := CbcMac(c, seqNum, p);
      var e := EncryptBlocks(c, iv, p);
      iv := Chain(iv, e);
      out := e + mac;
    }

    method ReadPacket(seqNum: nat, r: Source) returns (p: Parsed<seq<byte>>)
      requires |iv| == 16 && seqNum < U32_LIMIT
      modifies this, r
      ensures p == CbcParse(c, old(iv), seqNum, old(r.data))
      ensures p.Packet? ==> r.data == p.rest && iv == p.state
    {
      hide DecryptBlocks, FromU32, CbcCheck, CbcMac;
      ghost var input := r.data;
      var head, ok := ReadBytes(r, 16);
      if !ok {
        return Fail(Short);
      }
      var first := DecryptBlocks(c, iv, head);
      var length, padding := FromU32(first[..4]), first[4] as int;
      var error := CbcCheck(length, padding);
      if error.Some? {
        return Fail(error.value);
      }
      var end := 4 + length;
      var more;
      more, ok := ReadBytes(r, end + c.macSize - 16);
      if !ok {
        return Fail(Short);
      }
      CbcReadSlices(input, more, end, c.macSize);
      var plain := first + DecryptBlocks(c, head, more[..end - 16]);
      var whole := head + more[..end - 16];
      iv := whole[|whole| - 16..];
      if c.mac.Some? && CbcMac(c, seqNum, plain) != more[end - 16..] {
        return Fail(BadMAC);
      }
      return Packet(plain[5..end - padding], r.data, iv);
    }
  }

  lemma CbcReadSlices(input: seq<byte>, more: seq<byte>, end: nat, macSize: nat)
    requires end >= 16 && |input| >= end + macSize && |more| == end + macSize - 16 && more == input[16..][..|more|]
    ensures more[..end - 16] == input[16..end] && more[end - 16..] == input[end..end + macSize]
    ensures input[16..][|more|..] == input[end + macSize..]
    ensures (input[..16] + more[..end - 16])[end - 16..] == input[end - 16..end]
  {
    assert input[..16] + input[16..end] == input[..end];
  }

  lemma ThreeParts(key: nat -> byte, pos: nat, a: seq<byte>, b: seq<byte>, c: seq<byte>)
    ensures Crypt(key, pos, a + b + c) == Crypt(key, pos, a) + Crypt(key, pos + |a|, b) + Crypt(key, pos + |a| + |b|, c)
  {
    hide Crypt;
    CryptAppend(key, pos, a + b, c);
    CryptAppend(key, pos, a, b);
  }

  lemma ReadSlices(input: seq<byte>, data: seq<byte>, length: nat, macSize: nat)
    requires length > 0 && |input| >= 4 + length + macSize && |data| == length - 1 + macSize
             && data == input[5..][..|data|]
    ensures data[..length - 1] == input[5..4 + length] && data[length - 1..] == input[4 + length..4 + length + macSize]
    ensures input[5..][|data|..] == input[4 + length + macSize..]
  {
  }
}
