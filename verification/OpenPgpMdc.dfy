/**
 Symmetrically encrypted, integrity protected packets of OpenPGP
 (openpgp/packet/symmetrically_encrypted.go; section 5.13 of RFC 4880): the writer that appends the
 modification detection code, the reader that holds the last 22 bytes back, and the whole way from
 written bytes to read bytes.  The block function and the hash are arbitrary.
 */
module OpenPgpMdc {
  import opened Bits
  import opened ByteSeqs
  import opened Readers
  import opened OpenPgpCfb
  import opened OpenPgpPartial
  import opened Wrappers

  const TRAILER: nat := 22
  const TAG: byte := 0xD3
  const DIGEST: byte := 20
  const MDC_PACKET: nat := 18
  const VERSION: byte := 1

  type Hash = seq<byte> -> seq<byte>

  ghost predicate IsHash(h: Hash) {
    forall s :: |h(s)| == 20
  }

  /** The modification detection code of some bytes. */
  function Trailer(h: Hash, prefix: seq<byte>, data: seq<byte>): seq<byte> {
    [TAG, DIGEST] + h(prefix + data + [TAG, DIGEST])
  }

  /** The bytes end in their own modification detection code. */
  predicate Protected(h: Hash, prefix: seq<byte>, t: seq<byte>) {
    |t| >= TRAILER && t[|t| - TRAILER..] == Trailer(h, prefix, t[..|t| - TRAILER])
  }

  // --------------------------------------------------------------------------
  // Writing
  // --------------------------------------------------------------------------

  /** The ciphertext of each write. */
  function EncryptWrites(E: Block, r: Register, ws: seq<seq<byte>>): seq<seq<byte>>
    decreases ws
  {
    if ws == [] then [] else
    var c := Encrypt(E, r, ws[0]);
    [c] + EncryptWrites(E, ShiftAll(E, r, c), ws[1..])
  }

  lemma {:induction false} EncryptWritesConcat(E: Block, r: Register, ws: seq<seq<byte>>)
    ensures Concat(EncryptWrites(E, r, ws)) == Encrypt(E, r, Concat(ws))
    decreases ws
  {
    hide Encrypt, ShiftAll;
    if ws == [] {
      EncryptNothing(E, r);
    } else {
      var c := Encrypt(E, r, ws[0]);
      EncryptWritesConcat(E, ShiftAll(E, r, c), ws[1..]);
      EncryptAppend(E, r, ws[0], Concat(ws[1..]));
      assert EncryptWrites(E, r, ws)[1..] == EncryptWrites(E, ShiftAll(E, r, c), ws[1..]);
    }
  }

  lemma EncryptNothing(E: Block, r: Register)
    ensures Encrypt(E, r, []) == []
  {
  }

  /** Everything that SerializeSymmetricallyEncrypted and the writes and the Close after it put out. */
  function Sealed(E: Block, h: Hash, rand: seq<byte>, ws: seq<seq<byte>>): seq<byte>
    requires |rand| >= 2
  {
    var prefix := Prefix(E, rand);
    var all := ws + [Trailer(h, Marked(rand), Concat(ws))];
    [192 + MDC_PACKET] + (ChunkAll([[VERSION], prefix] + EncryptWrites(E, Start(E, prefix, false), all)) + [0])
  }

  /**
   The sealed packet opens: its contents are the version, the prefix that the decrypter accepts, and
   a ciphertext that decrypts to the bytes written, in order, followed by their valid code.
   */
  lemma SealedOpens(E: Block, h: Hash, rand: seq<byte>, ws: seq<seq<byte>>, rest: seq<byte>)
    requires |rand| >= 2 && IsHash(h)
    ensures var p := ParsePacket(Sealed(E, h, rand, ws) + rest);
            && p.Some? && p.value.0 == MDC_PACKET && p.value.2 == rest
            && var c := p.value.1;
            && |c| >= |rand| + 3 && c[0] == VERSION && c[1..|rand| + 3] == Prefix(E, rand)
            && DecryptPrefix(E, c[1..|rand| + 3]) == Marked(rand) && PrefixAccepted(Marked(rand))
            && var t := Decrypt(E, Start(E, c[1..|rand| + 3], false), c[|rand| + 3..]);
            && Protected(h, Marked(rand), t) && t[..|t| - TRAILER] == Concat(ws)
  {
    hide ParsePacket, Encrypt, Decrypt, ShiftAll, ChunkAll, Prefix, Start, DecryptPrefix, PrefixAccepted;
    var prefix := Prefix(E, rand);
    var r := Start(E, prefix, false);
    var code := Trailer(h, Marked(rand), Concat(ws));
    var all := ws + [code];
    var cs := EncryptWrites(E, r, all);
    var chunks := [[VERSION], prefix] + cs;
    StreamedPacketRoundTrip(MDC_PACKET, chunks, rest);
    Layout(Sealed(E, h, rand, ws), ChunkAll(chunks), rest);
    EncryptWritesConcat(E, r, all);
    ChunkAllAppend(ws, code);
    TwoFirst([VERSION], prefix, cs);
    OcfbRoundTrip(E, rand, false, Concat(all));
    var c := Concat(chunks);
    assert c[1..|rand| + 3] == prefix && c[|rand| + 3..] == Concat(cs);
    assert Concat(all)[..|Concat(ws)|] == Concat(ws) && Concat(all)[|Concat(ws)|..] == code;
  }

  lemma Layout(s: seq<byte>, body: seq<byte>, rest: seq<byte>)
    requires s == [192 + MDC_PACKET] + (body + [0])
    ensures s + rest == [192 + MDC_PACKET] + (body + [0] + rest)
  {
  }

  lemma TwoFirst(a: seq<byte>, b: seq<byte>, cs: seq<seq<byte>>)
    ensures Concat([a, b] + cs) == a + b + Concat(cs)
  {
    assert ([a, b] + cs)[1..] == [b] + cs && ([b] + cs)[1..] == cs;
  }

  /** The plaintext writer over the stream cipher over the partial length writer. */
  class MdcWriter {
    const E: Block
    const h: Hash
    const cipher: Ocfb
    const out: PartialWriter
    var hashed: seq<byte>

    ghost predicate Valid()
      reads this, cipher
    {
      cipher.Valid() && cipher.E == E
    }

    /** Header, version and prefix are already written; what goes into the hash first is the marked random block. */
    constructor (E: Block, h: Hash, rand: seq<byte>)
      requires BlockFunction(E, |rand|)
      ensures Valid() && this.E == E && this.h == h && hashed == Marked(rand)
      ensures cipher.Reg() == Start(E, Prefix(E, rand), false)
      ensures out.sink == [192 + MDC_PACKET] + Chunk([VERSION]) + Chunk(Prefix(E, rand))
      ensures fresh(cipher) && fresh(cipher.fre) && fresh(out)
    {
      hide ShiftAll, Encrypt, Chunk;
      this.E, this.h := E, h;
      var prefix := MakePrefix(E, rand);
      var w := new PartialWriter([192 + MDC_PACKET]);
      w.Write([VERSION]);
      w.Write(prefix);
      cipher := new Ocfb.Encrypter(E, rand, false);
      out := w;
      hashed := Marked(rand);
    }

    method Write(buf: seq<byte>)
      requires Valid()
      modifies this, cipher, cipher.fre, out
      ensures Valid() && hashed == old(hashed) + buf
      ensures var c := Encrypt(E, old(cipher.Reg()), buf);
              out.sink == old(out.sink) + Chunk(c) && cipher.Reg() == ShiftAll(E, old(cipher.Reg()), c)
    {
      hide ShiftAll, Encrypt, Chunk;
      hashed := hashed + buf;
      var c := cipher.EncryptStream(buf);
      out.Write(c);
    }

    method Close()
      requires Valid()
      modifies this, cipher, cipher.fre, out
      ensures Valid()
      ensures out.sink == old(out.sink) + Chunk(Encrypt(E, old(cipher.Reg()),
                          [TAG, DIGEST] + h(old(hashed) + [TAG, DIGEST]))) + [0]
    {
      hide ShiftAll, Encrypt, Chunk;
      hashed := hashed + [TAG, DIGEST];
      var digest := h(hashed);
      var c := cipher.EncryptStream([TAG, DIGEST] + digest);
      out.Write(c);
      out.Close();
    }
  }

  /** Writing in any pieces and closing puts out the sealed packet. */
  method Seal(E: Block, h: Hash, rand: seq<byte>, ws: seq<seq<byte>>) returns (packet: seq<byte>)
    requires BlockFunction(E, |rand|)
    ensures packet == Sealed(E, h, rand, ws)
  {
    hide ShiftAll, Encrypt, Chunk, Prefix, Start, ChunkAll;
    var w := new MdcWriter(E, h, rand);
    ghost var r := w.cipher.Reg();
    ghost var head := [[VERSION], Prefix(E, rand)];
    HeadChunks(Prefix(E, rand));
    ghost var cs: seq<seq<byte>> := [];
    EncryptWritesNone(E, r);
    for i := 0 to |ws|
      invariant w.Valid() && w.E == E && w.h == h && fresh(w) && fresh(w.cipher) && fresh(w.cipher.fre) && fresh(w.out)
      invariant cs == EncryptWrites(E, r, ws[..i])
      invariant w.out.sink == [192 + MDC_PACKET] + ChunkAll(head + cs)
      invariant w.cipher.Reg() == ShiftAll(E, r, Concat(cs))
      invariant w.hashed == Marked(rand) + Concat(ws[..i])
    {
      SealNext(E, r, head, cs, ws[..i], ws[i], w.out.sink, w.hashed, Marked(rand));
      assert ws[..i + 1] == ws[..i] + [ws[i]];
      ghost var c := Encrypt(E, w.cipher.Reg(), ws[i]);
      w.Write(ws[i]);
      cs := cs + [c];
    }
    assert ws[..|ws|] == ws;
    ghost var code := Trailer(h, Marked(rand), Concat(ws));
    SealNext(E, r, head, cs, ws, code, w.out.sink, w.hashed, Marked(rand));
    w.Close();
    packet := w.out.sink;
  }

  lemma EncryptWritesNone(E: Block, r: Register)
    ensures EncryptWrites(E, r, []) == [] && ShiftAll(E, r, Concat([])) == r
  {
  }

  lemma HeadChunks(prefix: seq<byte>)
    ensures [192 + MDC_PACKET] + Chunk([VERSION]) + Chunk(prefix)
            == [192 + MDC_PACKET] + ChunkAll([[VERSION], prefix] + [])
  {
    hide Chunk;
    assert [[VERSION], prefix] + [] == [[VERSION], prefix] && [[VERSION], prefix][1..] == [prefix]
           && [prefix][1..] == [];
    assert ChunkAll([prefix]) == Chunk(prefix) + [] == Chunk(prefix);
  }

  /** One more write at the end. */
  lemma SealNext(E: Block, r: Register, head: seq<seq<byte>>, cs: seq<seq<byte>>, ws: seq<seq<byte>>, w: seq<byte>,
                 sink: seq<byte>, hashed: seq<byte>, mark: seq<byte>)
    requires cs == EncryptWrites(E, r, ws) && sink == [192 + MDC_PACKET] + ChunkAll(head + cs)
             && hashed == mark + Concat(ws)
    ensures var q := ShiftAll(E, r, Concat(cs));
            var c := Encrypt(E, q, w);
            && EncryptWrites(E, r, ws + [w]) == cs + [c]
            && sink + Chunk(c) == [192 + MDC_PACKET] + ChunkAll(head + (cs + [c]))
            && ShiftAll(E, q, c) == ShiftAll(E, r, Concat(cs + [c]))
            && hashed + w == mark + Concat(ws + [w])
  {
    hide ShiftAll, Encrypt, Chunk, ChunkAll, Concat, EncryptWrites;
    var q := ShiftAll(E, r, Concat(cs));
    var c := Encrypt(E, q, w);
    EncryptWritesAppend(E, r, ws, w);
    ChunkAllAppend(head + cs, c);
    assert head + (cs + [c]) == (head + cs) + [c];
    Associate([192 + MDC_PACKET], ChunkAll(head + cs), Chunk(c));
    ChunkAllAppend(cs, c);
    ShiftAppend(E, r, Concat(cs), c);
    ChunkAllAppend(ws, w);
    Associate(mark, Concat(ws), w);
  }

  lemma Associate(a: seq<byte>, b: seq<byte>, c: seq<byte>)
    ensures a + b + c == a + (b + c)
  {
  }

  lemma {:induction false} EncryptWritesAppend(E: Block, r: Register, ws: seq<seq<byte>>, w: seq<byte>)
    ensures EncryptWrites(E, r, ws + [w]) ==
            EncryptWrites(E, r, ws) + [Encrypt(E, ShiftAll(E, r, Concat(EncryptWrites(E, r, ws))), w)]
    decreases ws
  {
    hide ShiftAll, Encrypt;
    if ws == [] {
      assert ws + [w] == [w];
      EncryptWritesNone(E, r);
      OneWrite(E, r, w);
    } else {
      var c := Encrypt(E, r, ws[0]);
      EncryptWritesAppend(E, ShiftAll(E, r, c), ws[1..], w);
      assert (ws + [w])[1..] == ws[1..] + [w];
      var rest := EncryptWrites(E, ShiftAll(E, r, c), ws[1..]);
      ShiftAppend(E, r, c, Concat(rest));
      assert EncryptWrites(E, r, ws)[1..] == rest;
    }
  }

  lemma OneWrite(E: Block, r: Register, w: seq<byte>)
    ensures EncryptWrites(E, r, [w]) == [Encrypt(E, r, w)]
  {
    hide Encrypt, ShiftAll;
    assert [w][1..] == [];
  }

  // --------------------------------------------------------------------------
  // Reading
  // --------------------------------------------------------------------------

  /** cipher.StreamReader over the contents of a packet. */
  class StreamReader {
    const r: BodyReader
    const cipher: Ocfb

    constructor (r: BodyReader, cipher: Ocfb)
      ensures this.r == r && this.cipher == cipher
    {
      this.r, this.cipher := r, cipher;
    }

    ghost predicate Valid()
      reads this, r, r.r, cipher
    {
      r.Valid() && cipher.Valid()
    }

    /** The packet is not cut off. */
    ghost predicate Intact()
      reads this, r, r.r
    {
      r.Intact()
    }

    /** The plaintext still to come. */
    ghost function Plain(): seq<byte>
      reads this, r, r.r, cipher, cipher.fre
    {
      Decrypt(cipher.E, cipher.Reg(), r.Avail())
    }

    method Read(buf: array<byte>, off: nat, len: nat) returns (n: nat, status: Status)
      requires Valid() && off + len <= buf.Length && buf != cipher.fre
      modifies r, r.r, cipher, cipher.fre, buf
      ensures Valid() && n <= len && n <= |old(Plain())|
      ensures buf[off..off + n] == old(Plain())[..n] && Plain() == old(Plain())[n..]
      ensures buf[..off] == old(buf[..off]) && buf[off + len..] == old(buf[off + len..])
      ensures (status != Ok ==> Plain() == []) && (status == UnexpectedEOF ==> !Intact())
              && (Intact() <==> old(Intact()))
      ensures !Intact() ==> (status == EOF <==> old(r.Forgot()) || r.EndsCleanly())
      ensures status != UnexpectedEOF ==> (r.Forgot() <==> old(r.Forgot()))
      ensures old(r.Lacking()) ==> if status == Ok then r.Lacking() else status == UnexpectedEOF && r.Forgot()
      ensures |r.r.schedule| <= |old(r.r.schedule)|
      ensures len > 0 && n == 0 && status == Ok ==> |r.r.schedule| < |old(r.r.schedule)|
    {
      hide Decrypt, ShiftAll, BodyReader.Contents, BodyReader.Avail, BodyReader.Intact, BodyReader.Lacking,
        BodyReader.Forgot, BodyReader.EndsCleanly;
      ghost var cs := r.Avail();
      n, status := r.Read(buf, off, len);
      ghost var tail := buf[off + n..];
      DecryptAppend(cipher.E, cipher.Reg(), cs[..n], cs[n..]);
      assert cs == cs[..n] + cs[n..];
      cipher.DecryptInPlace(buf, off, n);
      assert buf[off + len..] == buf[off + n..][len - n..] == tail[len - n..];
      DecryptLength(cipher.E, cipher.Reg(), r.Avail());
    }
  }

  lemma DecryptLength(E: Block, r: Register, cs: seq<byte>)
    ensures |Decrypt(E, r, cs)| == |cs|
  {
    DecryptAppend(E, r, cs, []);
  }

  /** readFull over the stream reader. */
  method ReadFullStream(s: StreamReader, buf: array<byte>, len: nat) returns (n: nat)
    requires s.Valid() && len <= buf.Length && buf != s.cipher.fre
    modifies s.r, s.r.r, s.cipher, s.cipher.fre, buf
    ensures s.Valid() && n == if len <= |old(s.Plain())| then len else |old(s.Plain())|
    ensures buf[..n] == old(s.Plain())[..n] && s.Plain() == old(s.Plain())[n..]
    ensures |s.r.r.schedule| <= |old(s.r.r.schedule)| && (s.Intact() <==> old(s.Intact()))
  {
    hide Decrypt, ShiftAll, Unchunk, Available;
    n := 0;
    ghost var all := s.Plain();
    while n < len
      invariant s.Valid() && 0 <= n <= len && n <= |all| && s.Plain() == all[n..] && buf[..n] == all[..n]
      invariant |s.r.r.schedule| <= |old(s.r.r.schedule)| && (s.Intact() <==> old(s.Intact()))
      decreases len - n, |s.r.r.schedule|
    {
      ghost var was := buf[..n];
      var m, status := s.Read(buf, n, len - n);
      assert buf[..n + m] == buf[..n] + buf[n..n + m];
      assert all[..n + m] == all[..n] + all[n..][..m];
      n := n + m;
      if status != Ok {
        break;
      }
    }
  }

  /** Holds back the last 22 bytes of the plaintext, which are the code and not data. */
  class MdcReader {
    const stream: StreamReader
    const h: Hash
    const trailer: array<byte>
    const scratch: array<byte>
    var hashed: seq<byte>
    var trailerUsed: nat
    var error: bool
    var eof: bool

    /** What goes into the hash before the data, all of the plaintext, and what Read has given out. */
    ghost const prefix: seq<byte>
    ghost const total: seq<byte>
    ghost var returned: seq<byte>

    ghost predicate Apart()
      reads this
    {
      && trailer.Length == TRAILER && scratch.Length == TRAILER
      && trailer != scratch && trailer != stream.cipher.fre && scratch != stream.cipher.fre
    }

    /** Bytes returned, bytes held back and bytes to come are the plaintext. */
    ghost predicate Valid()
      reads this, stream, stream.r, stream.r.r, stream.cipher, stream.cipher.fre, trailer
    {
      && Apart() && stream.Valid() && trailerUsed <= TRAILER
      && total == returned + trailer[..trailerUsed] + stream.Plain()
      && hashed == prefix + returned
      && (trailerUsed < TRAILER ==> returned == [])
      && (eof ==> trailerUsed == TRAILER && stream.Plain() == [])
      && (error ==> |total| < TRAILER)
    }

    ghost predicate Intact()
      reads this, stream, stream.r, stream.r.r
    {
      stream.Intact()
    }

    ghost function Left(): nat
      reads this, stream, stream.r, stream.r.r, stream.cipher, stream.cipher.fre
    {
      |stream.Plain()| + |stream.r.r.schedule|
    }

    constructor (stream: StreamReader, h: Hash, prefix: seq<byte>)
      requires stream.Valid()
      ensures Valid() && this.stream == stream && this.h == h && this.prefix == prefix && total == stream.Plain()
      ensures returned == [] && !error && !eof && fresh(trailer) && fresh(scratch)
    {
      this.stream, this.h := stream, h;
      trailer := new byte[TRAILER];
      scratch := new byte[TRAILER];
      hashed, trailerUsed, error, eof := prefix, 0, false, false;
      this.prefix, total, returned := prefix, stream.Plain(), [];
    }

    /** One read into the free part of the trailer. */
    method TopUp() returns (status: Status)
      requires Valid() && !error && !eof && trailerUsed < TRAILER
      modifies this`trailerUsed, trailer, stream.r, stream.r.r, stream.cipher, stream.cipher.fre
      ensures Valid() && (status != Ok ==> stream.Plain() == []) && (status == UnexpectedEOF ==> !Intact())
      ensures Intact() <==> old(Intact())
      ensures !Intact() ==> (status == EOF <==> old(stream.r.Forgot()) || stream.r.EndsCleanly())
      ensures old(stream.r.Lacking())
              ==> if status == Ok then stream.r.Lacking() else status == UnexpectedEOF && stream.r.Forgot()
      ensures status != UnexpectedEOF ==> (stream.r.Forgot() <==> old(stream.r.Forgot()))
      ensures trailerUsed >= old(trailerUsed) && |stream.Plain()| <= |old(stream.Plain())|
      ensures |stream.r.r.schedule| <= |old(stream.r.r.schedule)|
      ensures status == Ok && trailerUsed == old(trailerUsed) ==> |stream.r.r.schedule| < |old(stream.r.r.schedule)|
    {
      hide Decrypt, Unchunk, Available, StreamReader.Plain, StreamReader.Intact;
      var k := trailerUsed;
      ghost var held, plain := trailer[..k], stream.Plain();
      var n;
      n, status := stream.Read(trailer, k, TRAILER - k);
      trailerUsed := k + n;
      assert trailer[..k + n] == held + plain[..n] by {
        assert trailer[..k + n] == trailer[..k] + trailer[k..k + n];
      }
      HeldMore(held, plain, n);
    }

    /** The first 22 bytes. */
    method FillTrailer() returns (status: Status)
      requires Valid() && !error && !eof
      modifies this, trailer, stream.r, stream.r.r, stream.cipher, stream.cipher.fre
      ensures Valid() && returned == old(returned)
      ensures status == Ok ==> trailerUsed == TRAILER && !eof && !error
      ensures status == EOF ==> eof && !error
      ensures status == UnexpectedEOF ==> !eof && (error || !Intact())
      ensures |total| > TRAILER || old(trailerUsed) == TRAILER ==> status == Ok
      ensures (Intact() <==> old(Intact()))
      ensures !Intact() && status != Ok && !error
              ==> (status == EOF <==> old(stream.r.Forgot()) || stream.r.EndsCleanly())
      ensures old(stream.r.Lacking())
              ==> if status == Ok then stream.r.Lacking() else status == UnexpectedEOF && stream.r.Forgot()
      ensures status != UnexpectedEOF ==> (stream.r.Forgot() <==> old(stream.r.Forgot()))
      ensures |stream.r.r.schedule| <= |old(stream.r.r.schedule)| && |stream.Plain()| <= |old(stream.Plain())|
    {
      hide Decrypt, Unchunk, Available, StreamReader.Plain, StreamReader.Intact;
      while trailerUsed < TRAILER
        invariant Valid() && !error && !eof && returned == old(returned) && (Intact() <==> old(Intact()))
        invariant (stream.r.Forgot() <==> old(stream.r.Forgot())) && (old(stream.r.Lacking()) ==> stream.r.Lacking())
        invariant |stream.r.r.schedule| <= |old(stream.r.r.schedule)| && |stream.Plain()| <= |old(stream.Plain())|
        decreases TRAILER - trailerUsed, |stream.r.r.schedule|
      {
        status := TopUp();
        if status == EOF {
          if trailerUsed != TRAILER {
            error := true;
            return UnexpectedEOF;
          }
          eof := true;
          return EOF;
        }
        if status != Ok {
          return;
        }
      }
      return Ok;
    }

    /**
     At most 22 bytes: they come out of the trailer, and as many new ones go in.  Too few new ones count
     as the end, also of a packet that is cut off.
     */
    method ReadShort(buf: array<byte>) returns (n: nat, status: Status)
      requires Valid() && !error && !eof && trailerUsed == TRAILER && buf.Length <= TRAILER
      requires buf != trailer && buf != scratch && buf != stream.cipher.fre
      modifies this, trailer, scratch, buf, stream.r, stream.r.r, stream.cipher, stream.cipher.fre
      ensures Valid() && !error && n <= buf.Length && returned == old(returned) + buf[..n]
      ensures status == (if n < buf.Length then EOF else Ok) && eof == (status == EOF) && (Intact() <==> old(Intact()))
      ensures |stream.r.r.schedule| <= |old(stream.r.r.schedule)| && |stream.Plain()| + n == |old(stream.Plain())|
    {
      hide Decrypt, Unchunk, Available, StreamReader.Plain, StreamReader.Intact;
      ghost var t, plain := trailer[..], stream.Plain();
      n := ReadFullStream(stream, scratch, buf.Length);
      GiveOut(buf, n);
      ShiftHeld(old(returned), t, plain, n);
      if n < buf.Length {
        eof := true;
        status := EOF;
      } else {
        status := Ok;
      }
    }

    /** n held bytes go to the caller and into the hash; n bytes of the scratch buffer are held behind the others. */
    method GiveOut(buf: array<byte>, n: nat)
      requires Apart() && n <= buf.Length && n <= TRAILER && buf != trailer && buf != scratch
      modifies this`hashed, this`returned, trailer, buf
      ensures buf[..n] == old(trailer[..n]) && trailer[..] == old(trailer[n..]) + scratch[..n]
              && trailer[..TRAILER] == trailer[..]
      ensures hashed == old(hashed) + buf[..n] && returned == old(returned) + buf[..n]
    {
      Place(buf, 0, trailer[..n]);
      assert buf[0..n] == buf[..n];
      hashed := hashed + buf[..n];
      returned := returned + buf[..n];
      var next := trailer[n..] + scratch[..n];
      Place(trailer, 0, next);
      assert trailer[..] == trailer[0..|next|];
    }

    /** The held bytes go in front of n new ones; the first n of all go out and the rest is held. */
    method PassThrough(buf: array<byte>, n: nat)
      requires Apart() && TRAILER + n <= buf.Length && buf != trailer
      modifies this`hashed, this`returned, trailer, buf
      ensures var both := old(trailer[..]) + old(buf[TRAILER..TRAILER + n]);
              && buf[..n] == both[..n] && trailer[..] == both[n..] && trailer[..TRAILER] == trailer[..]
              && hashed == old(hashed) + both[..n] && returned == old(returned) + both[..n]
    {
      ghost var both := trailer[..] + buf[TRAILER..TRAILER + n];
      Place(buf, 0, trailer[..]);
      assert buf[..TRAILER + n] == both by {
        assert buf[..TRAILER + n] == buf[0..TRAILER] + buf[TRAILER..][..n];
      }
      assert buf[..n] == both[..n] && buf[n..n + TRAILER] == both[n..];
      hashed := hashed + buf[..n];
      returned := returned + buf[..n];
      var next := buf[n..n + TRAILER];
      Place(trailer, 0, next);
      assert trailer[..] == trailer[0..|next|];
    }

    /** More than 22 bytes: new ones go behind the held ones, and the last 22 are held again. */
    method ReadLong(buf: array<byte>) returns (n: nat, status: Status)
      requires Valid() && !error && !eof && trailerUsed == TRAILER && buf.Length > TRAILER
      requires buf != trailer && buf != scratch && buf != stream.cipher.fre
      modifies this, trailer, buf, stream.r, stream.r.r, stream.cipher, stream.cipher.fre
      ensures Valid() && !error && n <= buf.Length && returned == old(returned) + buf[..n]
      ensures (status == UnexpectedEOF ==> !Intact()) && eof == (status == EOF) && (Intact() <==> old(Intact()))
      ensures !Intact() ==> (status == EOF <==> old(stream.r.Forgot()) || stream.r.EndsCleanly())
      ensures old(stream.r.Lacking())
              ==> if status == Ok then stream.r.Lacking() else status == UnexpectedEOF && stream.r.Forgot()
      ensures status != UnexpectedEOF ==> (stream.r.Forgot() <==> old(stream.r.Forgot()))
      ensures |stream.r.r.schedule| <= |old(stream.r.r.schedule)| && |stream.Plain()| + n == |old(stream.Plain())|
      ensures status == Ok && n == 0 ==> |stream.r.r.schedule| < |old(stream.r.r.schedule)|
    {
      hide Decrypt, Unchunk, Available, StreamReader.Plain, StreamReader.Intact;
      ghost var t, plain := trailer[..], stream.Plain();
      n, status := stream.Read(buf, TRAILER, buf.Length - TRAILER);
      PassThrough(buf, n);
      ShiftThrough(old(returned), t, plain, n);
      if status == EOF {
        eof := true;
      }
    }

    method Read(buf: array<byte>) returns (n: nat, status: Status)
      requires Valid() && buf != trailer && buf != scratch && buf != stream.cipher.fre
      modifies this, trailer, scratch, buf, stream.r, stream.r.r, stream.cipher, stream.cipher.fre
      ensures Valid() && n <= buf.Length && returned == old(returned) + buf[..n]
      ensures (status == EOF <==> eof) && (error ==> status == UnexpectedEOF) && (Intact() <==> old(Intact()))
      ensures status == UnexpectedEOF ==> error || !Intact()
      ensures |total| > TRAILER && buf.Length <= TRAILER ==> status != UnexpectedEOF
      ensures !Intact() && !old(eof) && !error && buf.Length > TRAILER
              ==> (status == EOF <==> old(stream.r.Forgot()) || stream.r.EndsCleanly())
      ensures status != UnexpectedEOF && buf.Length > TRAILER ==> (stream.r.Forgot() <==> old(stream.r.Forgot()))
      ensures old(stream.r.Lacking()) && !old(eof) && !old(error) && buf.Length > TRAILER
              ==> if status == Ok then stream.r.Lacking() else status == UnexpectedEOF && stream.r.Forgot()
      ensures !old(eof) && old(trailerUsed) == TRAILER && buf.Length <= TRAILER && !error
              ==> (status == EOF <==> n < buf.Length)
      ensures status == Ok && buf.Length > 0 ==> Left() < old(Left())
    {
      if error {
        return 0, UnexpectedEOF;
      }
      if eof {
        return 0, EOF;
      }
      status := FillTrailer();
      if status != Ok {
        return 0, status;
      }
      if buf.Length <= TRAILER {
        n, status := ReadShort(buf);
      } else {
        n, status := ReadLong(buf);
      }
    }

    /**
     Reads to the end.  It fails when there is not even a code, and on a packet that is cut off unless the
     source has made it look complete, or an earlier failure has.
     */
    method Drain() returns (ok: bool)
      requires Valid()
      modifies this, trailer, scratch, stream.r, stream.r.r, stream.cipher, stream.cipher.fre
      ensures Valid() && ok == eof && (Intact() <==> old(Intact())) && (!ok ==> |total| < TRAILER || !Intact())
      ensures old(eof) ==> eof
      ensures !Intact() && !old(eof) && |total| >= TRAILER
              ==> (ok <==> old(stream.r.Forgot()) || stream.r.EndsCleanly())
    {
      hide Decrypt, Unchunk, Available, StreamReader.Plain, StreamReader.Intact;
      if error {
        NotBoth();
        return false;
      }
      var buf := new byte[1024];
      while !eof
        invariant Valid() && !error && fresh(buf) && (Intact() <==> old(Intact()))
        invariant stream.r.Forgot() <==> old(stream.r.Forgot())
        invariant !Intact() && !old(eof) && eof ==> old(stream.r.Forgot()) || stream.r.EndsCleanly()
        decreases !eof, Left()
      {
        var n, status := Read(buf);
        if status == UnexpectedEOF {
          return false;
        }
      }
      return true;
    }

    /** At the end everything but the held bytes is returned. */
    lemma AllReturned()
      requires Valid()
      ensures eof ==> |total| >= TRAILER && returned == total[..|total| - TRAILER]
    {
      if eof {
        assert total == returned + trailer[..TRAILER] + [];
      }
    }

    lemma ForgotReturned()
      requires Valid()
      ensures stream.r.Forgot() && |total| >= TRAILER ==> returned == total[..|total| - TRAILER]
    {
      if stream.r.Forgot() && |total| >= TRAILER {
        assert stream.Plain() == [];
        assert total == returned + trailer[..trailerUsed] + [];
      }
    }

    lemma NotBoth()
      requires Valid()
      ensures !(error && eof)
    {
    }

    /**
     Reads what is left, then compares the held bytes with the hash of all before them.  Of an intact
     packet it accepts exactly the protected ones.  Of one that is cut off, if Read has not come to an
     end before, exactly those protected ones behind a partial length whose source gave the last bytes it
     was asked for together with its end, or on which Read has failed for want of a length; so none of
     known length.
     */
    method Close() returns (ok: bool)
      requires Valid() && IsHash(h)
      modifies this, trailer, scratch, stream.r, stream.r.r, stream.cipher, stream.cipher.fre
      ensures (ok <==> eof && Protected(h, prefix, total)) && (old(eof) ==> eof)
      ensures Intact() <==> old(Intact())
      ensures Intact() || old(eof) ==> (ok <==> Protected(h, prefix, total))
      ensures !Intact() && !old(eof)
              ==> (ok <==> (old(stream.r.Forgot()) || stream.r.EndsCleanly()) && Protected(h, prefix, total))
    {
      hide Decrypt, Unchunk, Available, Trailer, StreamReader.Plain, StreamReader.Intact;
      var complete := Drain();
      if !complete {
        return false;
      }
      HeldIsTrailer(h, prefix, returned, trailer[..]);
      assert trailer[..TRAILER] == trailer[..] && total == returned + trailer[..];
      if trailer[0] != TAG || trailer[1] != DIGEST {
        return false;
      }
      hashed := hashed + trailer[..2];
      assert trailer[..2] == [TAG, DIGEST];
      ok := h(hashed) == trailer[2..];
    }
  }

  lemma HeldMore(held: seq<byte>, plain: seq<byte>, n: nat)
    requires n <= |plain|
    ensures [] + (held + plain[..n]) + plain[n..] == [] + held + plain
  {
    assert plain == plain[..n] + plain[n..];
  }

  lemma ShiftHeld(returned: seq<byte>, t: seq<byte>, plain: seq<byte>, n: nat)
    requires |t| == TRAILER && n <= TRAILER && n <= |plain|
    ensures returned + t + plain == (returned + t[..n]) + (t[n..] + plain[..n]) + plain[n..]
  {
    assert t == t[..n] + t[n..] && plain == plain[..n] + plain[n..];
  }

  lemma ShiftThrough(returned: seq<byte>, t: seq<byte>, plain: seq<byte>, n: nat)
    requires |t| == TRAILER && n <= |plain|
    ensures var both := t + plain[..n]; returned + t + plain == (returned + both[..n]) + both[n..] + plain[n..]
  {
    var both := t + plain[..n];
    assert both == both[..n] + both[n..] && plain == plain[..n] + plain[n..];
  }

  lemma HeldIsTrailer(h: Hash, prefix: seq<byte>, returned: seq<byte>, t: seq<byte>)
    requires |t| == TRAILER && IsHash(h)
    ensures Protected(h, prefix, returned + t) <==>
            t[0] == TAG && t[1] == DIGEST && t[2..] == h(prefix + returned + [TAG, DIGEST])
  {
    var total := returned + t;
    assert total[|total| - TRAILER..] == t && total[..|total| - TRAILER] == returned;
    var code := Trailer(h, prefix, returned);
    assert code[2..] == h(prefix + returned + [TAG, DIGEST]);
    if t[0] == TAG && t[1] == DIGEST && t[2..] == h(prefix + returned + [TAG, DIGEST]) {
      assert t == t[..2] + t[2..] && t[..2] == [TAG, DIGEST];
    }
  }

  // --------------------------------------------------------------------------
  // The whole way
  // --------------------------------------------------------------------------

  /** readFull over the contents of a packet. */
  method ReadFullBody(p: BodyReader, len: nat) returns (s: seq<byte>)
    requires p.Valid()
    modifies p, p.r
    ensures p.Valid() && (p.Intact() <==> old(p.Intact()))
    ensures var c := old(p.Avail());
            var n := if len <= |c| then len else |c|;
            s == c[..n] && p.Avail() == c[n..]
    ensures |s| == len && !old(p.cut) ==> !p.cut
    ensures |s| == len && old(p.Lacking()) ==> p.Lacking()
  {
    hide Unchunk, Available, BodyReader.Contents, BodyReader.Avail, BodyReader.Intact;
    var buf := new byte[len];
    var n := 0;
    ghost var all := p.Avail();
    while n < len
      invariant p.Valid() && 0 <= n <= len && n <= |all| && p.Avail() == all[n..] && buf[..n] == all[..n]
      invariant p.Intact() <==> old(p.Intact())
      invariant (!old(p.cut) ==> !p.cut) && (old(p.Lacking()) ==> p.Lacking())
      decreases len - n, |p.r.schedule|
    {
      var m, status := p.Read(buf, n, len - n);
      assert buf[..n + m] == buf[..n] + buf[n..n + m];
      assert all[..n + m] == all[..n] + all[n..][..m];
      n := n + m;
      if status != Ok {
        break;
      }
    }
    s := buf[..n];
  }

  /** Every sealed packet starts with a partial length of one byte, less than the RFC allows. */
  lemma SealedIsPartial(E: Block, h: Hash, rand: seq<byte>, ws: seq<seq<byte>>, rest: seq<byte>)
    requires |rand| >= 2
    ensures var p := ParseHeader(Sealed(E, h, rand, ws) + rest);
            p.Some? && p.value.extent == Partial(1) && p.value.tag == MDC_PACKET
    ensures 1 < FIRST_PARTIAL
  {
    var prefix := Prefix(E, rand);
    var chunks := [[VERSION], prefix] + EncryptWrites(E, Start(E, prefix, false),
                  ws + [Trailer(h, Marked(rand), Concat(ws))]);
    hide Prefix, EncryptWrites, Start, Trailer, Concat;
    VersionChunk();
    var s := Sealed(E, h, rand, ws) + rest;
    assert s[1] == 224 by {
      assert ChunkAll(chunks) == Chunk(chunks[0]) + ChunkAll(chunks[1..]) && chunks[0] == [VERSION];
    }
    assert s[0] == 210 && s[1..][0] == 224;
  }

  lemma VersionChunk()
    ensures |Chunk([VERSION])| > 0 && Chunk([VERSION])[0] == 224
  {
    TwoGrows(Top(1, 14));
  }

  lemma TwoGrows(k: nat)
    ensures k > 0 ==> Two(k) >= 2
  {
  }

  datatype Refusal = BadHeader | OtherPacket | TooShort | BadVersion | BadKey

  /** Why a packet is not opened; None when it is. */
  function Objection(E: Block, size: nat, s: seq<byte>): Option<Refusal>
    requires size >= 2
  {
    var h := ParseHeader(s);
    if h.None? then Some(BadHeader) else
    if h.value.tag != MDC_PACKET then Some(OtherPacket) else
    var c := AvailableOf(h.value.extent, h.value.rest);
    if |c| < 1 then Some(TooShort) else
    if c[0] != VERSION then Some(BadVersion) else
    if |c| < size + 3 then Some(TooShort) else
    if !PrefixAccepted(DecryptPrefix(E, c[1..size + 3])) then Some(BadKey) else None
  }

  /** A packet is opened exactly if it is of the right kind and has the version and a prefix under this key. */
  lemma OpenedExactly(E: Block, size: nat, s: seq<byte>)
    requires size >= 2
    ensures Objection(E, size, s).None? <==>
            && ParseHeader(s).Some? && ParseHeader(s).value.tag == 18
            && var c := AvailableOf(ParseHeader(s).value.extent, ParseHeader(s).value.rest);
            && |c| >= size + 3 && c[0] == 1 && exists rand :: |rand| == size && c[1..size + 3] == Prefix(E, rand)
  {
    hide ParseHeader, AvailableOf, Prefix, DecryptPrefix, PrefixAccepted;
    var h := ParseHeader(s);
    if h.Some? {
      var c := AvailableOf(h.value.extent, h.value.rest);
      if |c| >= size + 3 {
        PrefixExactly(E, c[1..size + 3]);
      }
    }
  }

  datatype Opening = Refused(why: Refusal) | Opened(m: MdcReader)

  /** Header, version, prefix and cipher: all before the protected data, for every packet, damaged ones included. */
  method Open(E: Block, h: Hash, size: nat, src: Source) returns (r: Opening)
    requires BlockFunction(E, size) && IsHash(h)
    modifies src
    ensures r.Refused? <==> old(Objection(E, size, src.data)).Some?
    ensures r.Refused? ==> r.why == old(Objection(E, size, src.data)).value
    ensures r.Opened? ==>
              var head := old(ParseHeader(src.data)).value;
              var c := AvailableOf(head.extent, head.rest);
              && r.m.Valid() && r.m.h == h && !r.m.eof && !r.m.error && r.m.returned == []
              && r.m.prefix == DecryptPrefix(E, c[1..size + 3])
              && r.m.total == Decrypt(E, Start(E, c[1..size + 3], false), c[size + 3..])
              && (r.m.Intact() <==> ContentsOf(head.extent, head.rest).Some?) && !r.m.stream.r.cut
              && (Patient(old(src.schedule)) && LacksLength(head.extent, head.rest) ==> r.m.stream.r.Lacking())
    ensures r.Opened? ==>
              && fresh(r.m) && fresh(r.m.trailer) && fresh(r.m.scratch) && fresh(r.m.stream.r) && r.m.stream.r.r == src
              && fresh(r.m.stream.cipher) && fresh(r.m.stream.cipher.fre)
  {
    hide Encrypt, Decrypt, ShiftAll, ParseHeader, Start, DecryptPrefix, PrefixAccepted, LacksLength, Patient,
      ContentsOf, AvailableOf, BodyReader.Contents, BodyReader.Avail, BodyReader.Lacking, MdcReader.Valid;
    var header := TakeHeader(src);
    if header.None? {
      return Refused(BadHeader);
    }
    if header.value.tag != MDC_PACKET {
      return Refused(OtherPacket);
    }
    ghost var c := AvailableOf(header.value.extent, src.data);
    var p := new BodyReader(src, header.value.extent);
    var version := ReadFullBody(p, 1);
    if |version| < 1 {
      return Refused(TooShort);
    }
    if version[0] != VERSION {
      return Refused(BadVersion);
    }
    var prefix := ReadFullBody(p, size + 2);
    if |prefix| < size + 2 {
      return Refused(TooShort);
    }
    assert prefix == c[1..][..size + 2] == c[1..size + 3] && c[1..][size + 2..] == c[size + 3..];
    var cipher, d := NewDecrypter(E, size, prefix, false);
    if cipher.None? {
      return Refused(BadKey);
    }
    var stream := new StreamReader(p, cipher.value);
    var m := new MdcReader(stream, h, d);
    r := Opened(m);
  }

  /**
   Opens a sealed packet and reads it to the end through buffers of the given sizes, then closes.  The
   bytes come back as they were written and the check succeeds, for every block function and hash,
   every division into writes, every way in which the underlying reader delivers its bytes, and every
   choice of buffers.
   */
  method Unseal(E: Block, h: Hash, rand: seq<byte>, ws: seq<seq<byte>>, rest: seq<byte>, schedule: seq<Choice>,
                sizes: nat -> nat)
    returns (out: seq<byte>, ok: bool)
    requires BlockFunction(E, |rand|) && IsHash(h) && forall i :: sizes(i) > 0
    ensures out == Concat(ws) && ok
  {
    hide Encrypt, Decrypt, ShiftAll, Chunk, ChunkAll, Prefix, Start, ParsePacket, ParseHeader, Unchunk, DecryptPrefix,
      PrefixAccepted, Sealed, Concat, Trailer, Available;
    var src := new Source(Sealed(E, h, rand, ws) + rest, schedule);
    SealedOpens(E, h, rand, ws, rest);
    SealedIsPartial(E, h, rand, ws, rest);
    IntactPacket(src.data);
    var r := Open(E, h, |rand|, src);
    var m := r.m;
    var status;
    out, status := ReadToEnd(m, sizes);
    ok := m.Close();
  }

  /** The contents of an intact packet are what can be read of it. */
  lemma IntactPacket(s: seq<byte>)
    requires ParsePacket(s).Some? && ParseHeader(s).value.extent.Partial?
    ensures var h, p := ParseHeader(s).value, ParsePacket(s).value;
            ContentsOf(h.extent, h.rest).Some? && AvailableOf(h.extent, h.rest) == p.1
  {
    hide ParseHeader, Unchunk, Available;
    var h := ParseHeader(s).value;
    AllAvailable(h.extent.n, true, h.rest);
  }

  /** Reads on until Read reports something: all but the held bytes of what looks complete. */
  method ReadToEnd(m: MdcReader, sizes: nat -> nat) returns (out: seq<byte>, status: Status)
    requires m.Valid() && forall i :: sizes(i) > 0
    modifies m, m.trailer, m.scratch, m.stream.r, m.stream.r.r, m.stream.cipher, m.stream.cipher.fre
    ensures m.Valid() && m.returned == old(m.returned) + out && status != Ok && (m.Intact() <==> old(m.Intact()))
    ensures status == EOF ==> m.eof && |m.total| >= TRAILER && m.returned == m.total[..|m.total| - TRAILER]
    ensures m.Intact() && |m.total| >= TRAILER ==> status == EOF
    ensures |m.total| > TRAILER && (forall i :: sizes(i) <= TRAILER) ==> status == EOF
    ensures old(m.stream.r.Lacking()) && !old(m.eof) && |m.total| >= TRAILER && (forall i :: sizes(i) > TRAILER)
            ==> && status == UnexpectedEOF && m.stream.r.Forgot() && !m.eof
                && m.returned == m.total[..|m.total| - TRAILER]
  {
    hide Decrypt, Unchunk, Available, StreamReader.Plain, StreamReader.Intact;
    out := [];
    var i := 0;
    status := Ok;
    assert old(m.returned) + [] == old(m.returned);
    while status == Ok
      invariant m.Valid() && m.returned == old(m.returned) + out && i >= 0 && (m.Intact() <==> old(m.Intact()))
      invariant (status == EOF ==> m.eof) && (status == UnexpectedEOF ==> m.error || !m.Intact())
      invariant |m.total| > TRAILER && (forall i :: sizes(i) <= TRAILER) ==> status != UnexpectedEOF
      invariant old(m.stream.r.Lacking()) && !old(m.eof) && |m.total| >= TRAILER && (forall i :: sizes(i) > TRAILER)
                ==> && !m.eof && (status == Ok ==> m.stream.r.Lacking())
                    && (status != Ok ==> status == UnexpectedEOF && m.stream.r.Forgot())
      decreases status == Ok, m.Left()
    {
      var buf := new byte[sizes(i)];
      var n;
      n, status := m.Read(buf);
      out := out + buf[..n];
      i := i + 1;
    }
    m.AllReturned();
    m.ForgotReturned();
  }

  /** A sealed packet that has lost its last byte, the end of its partial lengths. */
  function CutOff(E: Block, h: Hash, rand: seq<byte>, ws: seq<seq<byte>>): seq<byte>
    requires |rand| >= 2
  {
    var s := Sealed(E, h, rand, ws);
    s[..|s| - 1]
  }

  /** It is damaged, but all its bytes can be read. */
  lemma CutOffOpens(E: Block, h: Hash, rand: seq<byte>, ws: seq<seq<byte>>)
    requires |rand| >= 2 && IsHash(h)
    ensures var s := CutOff(E, h, rand, ws);
            && ParseHeader(s).Some? && ParsePacket(s).None? && ParseHeader(s).value.tag == MDC_PACKET
            && var head := ParseHeader(s).value;
            && ContentsOf(head.extent, head.rest).None?
            && ParsePacket(Sealed(E, h, rand, ws) + []).Some?
            && AvailableOf(head.extent, head.rest) == ParsePacket(Sealed(E, h, rand, ws) + []).value.1
            && LacksLength(head.extent, head.rest)
  {
    hide Chunk, Prefix, EncryptWrites, Start, Trailer, Concat, ParsePacket;
    var prefix := Prefix(E, rand);
    var chunks := [[VERSION], prefix] + EncryptWrites(E, Start(E, prefix, false),
                  ws + [Trailer(h, Marked(rand), Concat(ws))]);
    var s, full := CutOff(E, h, rand, ws), Sealed(E, h, rand, ws);
    assert s == [192 + MDC_PACKET] + ChunkAll(chunks);
    StreamedPacketRoundTrip(MDC_PACKET, chunks, []);
    Layout(full, ChunkAll(chunks), []);
    StreamWithoutEnd(chunks);
    ChunksLackEnd(chunks);
    SealedIsPartial(E, h, rand, ws, []);
    HeaderOf(s, ChunkAll(chunks), chunks);
  }

  lemma HeaderOf(s: seq<byte>, b: seq<byte>, chunks: seq<seq<byte>>)
    requires s == [192 + MDC_PACKET] + b && b == ChunkAll(chunks) && chunks != [] && chunks[0] == [VERSION]
    requires Unchunk(0, true, b).None? && LacksEnd(0, true, b)
    ensures ParseHeader(s).Some? && ParsePacket(s).None? && ParseHeader(s).value.tag == MDC_PACKET
    ensures var head := ParseHeader(s).value;
            && ContentsOf(head.extent, head.rest).None? && LacksLength(head.extent, head.rest)
            && AvailableOf(head.extent, head.rest) == Available(0, true, b)
  {
    hide Chunk, Unchunk, Available, LacksEnd;
    VersionChunk();
    assert b[0] == 224 by {
      assert ChunkAll(chunks) == Chunk(chunks[0]) + ChunkAll(chunks[1..]);
    }
    assert s[1..] == b;
    NextLength(b);
    LackingLength(b);
  }

  /**
   Small buffers accept a packet that is cut off at its very end: the short read takes the error of the
   packet reader for the end of the data.
   */
  method UnsealCutOff(E: Block, h: Hash, rand: seq<byte>, ws: seq<seq<byte>>, schedule: seq<Choice>)
    returns (out: seq<byte>, ok: bool)
    requires BlockFunction(E, |rand|) && IsHash(h) && Concat(ws) != []
    ensures ParsePacket(CutOff(E, h, rand, ws)).None? && out == Concat(ws) && ok
  {
    hide Encrypt, Decrypt, ShiftAll, Chunk, ChunkAll, Prefix, Start, ParsePacket, ParseHeader, Unchunk, DecryptPrefix,
      PrefixAccepted, Sealed, Concat, Trailer, Available, CutOff;
    var src := new Source(CutOff(E, h, rand, ws), schedule);
    SealedOpens(E, h, rand, ws, []);
    CutOffOpens(E, h, rand, ws);
    var r := Open(E, h, |rand|, src);
    var m := r.m;
    var status;
    out, status := ReadToEnd(m, _ => 1);
    ok := m.Close();
  }

  /**
   Large buffers accept it too, over any source that reports its end by a call of its own: Read fails for
   want of the last length, and Close, which reads on, finds a clean end.
   */
  method CloseAfterFailure(E: Block, h: Hash, rand: seq<byte>, ws: seq<seq<byte>>, schedule: seq<Choice>,
                           sizes: nat -> nat)
    returns (out: seq<byte>, status: Status, ok: bool)
    requires BlockFunction(E, |rand|) && IsHash(h) && Patient(schedule) && forall i :: sizes(i) > TRAILER
    ensures ParsePacket(CutOff(E, h, rand, ws)).None? && out == Concat(ws) && status == UnexpectedEOF && ok
  {
    hide Encrypt, Decrypt, ShiftAll, Chunk, ChunkAll, Prefix, Start, ParsePacket, ParseHeader, Unchunk, DecryptPrefix,
      PrefixAccepted, Sealed, Concat, Trailer, Available, CutOff, Patient, LacksEnd, LacksLength;
    var src := new Source(CutOff(E, h, rand, ws), schedule);
    SealedOpens(E, h, rand, ws, []);
    CutOffOpens(E, h, rand, ws);
    var r := Open(E, h, |rand|, src);
    var m := r.m;
    out, status := ReadToEnd(m, sizes);
    ok := m.Close();
  }
}
