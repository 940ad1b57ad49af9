/**
 Packet headers and body lengths of OpenPGP (openpgp/packet/packet.go; section 4.2 of RFC 4880): the
 length encodings, the writer that cuts a stream into partial lengths, and the readers that put it
 together again over any underlying reader.
 */
module OpenPgpPartial {
  import opened Bits
  import opened ByteSeqs
  import opened BigEndian
  import opened Readers
  import opened Wrappers

  // --------------------------------------------------------------------------
  // Lengths
  // --------------------------------------------------------------------------

  /** A length read from the front: its value, whether it is partial, and what follows. */
  datatype Length = Length(value: nat, partial: bool, rest: seq<byte>)

  function ReadLength(s: seq<byte>): Option<Length> {
    if s == [] then None else
    var b := s[0] as int;
    if b < 192 then Some(Length(b, false, s[1..]))
    else if b < 224 then
      if |s| < 2 then None else Some(Length((b - 192) * 256 + s[1] as int + 192, false, s[2..]))
    else if b < 255 then Some(Length(Two(b % 32), true, s[1..]))
    else if |s| < 5 then None
    else Some(Length(FromU32(s[1..5]), false, s[5..]))
  }

  lemma ReadLengthShrinks(s: seq<byte>)
    ensures ReadLength(s).Some? ==> |ReadLength(s).value.rest| < |s|
  {
  }

  /** The length that serializeHeader writes. */
  function LengthBytes(n: nat): seq<byte> {
    if n < 192 then [n]
    else if n < 8384 then [192 + (n - 192) / 256, (n - 192) % 256]
    else [255] + U32(n % U32_LIMIT)
  }

  lemma TwoByteLength(n: nat, rest: seq<byte>)
    requires 192 <= n < 8384
    ensures ReadLength([192 + (n - 192) / 256, (n - 192) % 256] + rest) == Some(Length(n, false, rest))
  {
    var s := [192 + (n - 192) / 256, (n - 192) % 256] + rest;
    assert s[2..] == rest;
  }

  lemma FourByteLength(n: nat, rest: seq<byte>)
    requires n < U32_LIMIT
    ensures ReadLength([255] + U32(n) + rest) == Some(Length(n, false, rest))
  {
    hide U32, FromU32;
    var s := [255] + U32(n) + rest;
    U32RoundTrip(n);
    assert s[1..5] == U32(n) && s[5..] == rest;
  }

  /** Reading gives back what was written, exactly for the lengths that fit four bytes. */
  lemma LengthRoundTrip(n: nat, rest: seq<byte>)
    ensures ReadLength(LengthBytes(n) + rest) == Some(Length(if n < 8384 then n else n % U32_LIMIT, false, rest))
    ensures ReadLength(LengthBytes(n) + rest) == Some(Length(n, false, rest)) <==> n < U32_LIMIT
  {
    if n < 192 {
      assert ([n] + rest)[1..] == rest;
    } else {
      hide ReadLength, U32;
      if n < 8384 {
        TwoByteLength(n, rest);
      } else {
        FourByteLength(n % U32_LIMIT, rest);
      }
    }
  }

  // --------------------------------------------------------------------------
  // Partial lengths
  // --------------------------------------------------------------------------

  /** The largest power up to k whose block fits. */
  function Top(len: nat, k: nat): (p: nat)
    requires len > 0
    ensures p <= k && Two(p) <= len
  {
    if Two(k) <= len || k == 0 then k else Top(len, k - 1)
  }

  /** What one write of the partial length writer puts out. */
  function Chunk(p: seq<byte>): seq<byte>
    decreases |p|
  {
    if p == [] then [] else
    var k := Top(|p|, 14);
    [224 + k] + p[..Two(k)] + Chunk(p[Two(k)..])
  }

  /** A body of which rem bytes are announced: its contents and what follows it. */
  function Unchunk(rem: nat, partial: bool, s: seq<byte>): Option<(seq<byte>, seq<byte>)>
    decreases |s|
  {
    if rem > |s| then None else
    if !partial then Some((s[..rem], s[rem..])) else
    var l := ReadLength(s[rem..]);
    ReadLengthShrinks(s[rem..]);
    if l.None? then None else
    var r := Unchunk(l.value.value, l.value.partial, l.value.rest);
    if r.None? then None else Some((s[..rem] + r.value.0, r.value.1))
  }

  /** The bytes of a body that can be read, also from one that is cut off. */
  function Available(rem: nat, partial: bool, s: seq<byte>): seq<byte>
    decreases |s|
  {
    if rem > |s| then s else
    if !partial then s[..rem] else
    var l := ReadLength(s[rem..]);
    ReadLengthShrinks(s[rem..]);
    if l.None? then s[..rem] else s[..rem] + Available(l.value.value, l.value.partial, l.value.rest)
  }

  /** Of an intact body, all of it. */
  lemma {:induction false} AllAvailable(rem: nat, partial: bool, s: seq<byte>)
    requires Unchunk(rem, partial, s).Some?
    ensures Available(rem, partial, s) == Unchunk(rem, partial, s).value.0
    decreases |s|
  {
    hide ReadLength;
    if partial {
      var l := ReadLength(s[rem..]).value;
      ReadLengthShrinks(s[rem..]);
      AllAvailable(l.value, l.partial, l.rest);
    }
  }

  /** A body from its first length on. */
  function Body(s: seq<byte>): Option<(seq<byte>, seq<byte>)> {
    var l := ReadLength(s);
    if l.None? then None else Unchunk(l.value.value, l.value.partial, l.value.rest)
  }

  /** A write in front of a well-formed body adds its bytes in front of the contents. */
  lemma {:induction false} ChunkBody(p: seq<byte>, s: seq<byte>)
    requires Body(s).Some?
    ensures Body(Chunk(p) + s) == Some((p + Body(s).value.0, Body(s).value.1))
    decreases |p|
  {
    hide Body, Two, Top;
    if p == [] {
      assert Chunk(p) + s == s && p + Body(s).value.0 == Body(s).value.0;
    } else {
      var k := Top(|p|, 14);
      var head, tail := p[..Two(k)], p[Two(k)..];
      var next := Chunk(tail) + s;
      ChunkBody(tail, s);
      Reassociate([224 + k], head, Chunk(tail), s);
      PartialStep(k, head, next);
      Resume(p, Two(k), Body(s).value.0);
    }
  }

  lemma Reassociate(a: seq<byte>, b: seq<byte>, c: seq<byte>, d: seq<byte>)
    ensures a + b + c + d == a + (b + (c + d))
  {
  }

  lemma Resume(p: seq<byte>, n: nat, d: seq<byte>)
    requires n <= |p|
    ensures p[..n] + (p[n..] + d) == p + d
  {
  }

  lemma PartialStep(k: nat, head: seq<byte>, next: seq<byte>)
    requires k <= 14 && |head| == Two(k) && Body(next).Some?
    ensures Body([224 + k] + (head + next)) == Some((head + Body(next).value.0, Body(next).value.1))
  {
    hide Two;
    var s := [224 + k] + (head + next);
    assert s[1..] == head + next && (224 + k) % 32 == k;
    assert (head + next)[..|head|] == head && (head + next)[|head|..] == next;
  }

  function ChunkAll(ws: seq<seq<byte>>): seq<byte> {
    if ws == [] then [] else Chunk(ws[0]) + ChunkAll(ws[1..])
  }

  lemma LastChunk(rest: seq<byte>)
    ensures Body([0] + rest) == Some(([], rest))
  {
    assert ([0] + rest)[1..] == rest && rest[..0] == [] && rest[0..] == rest;
  }

  /** Any sequence of writes and the final zero byte read back as the bytes written. */
  lemma {:induction false} PartialRoundTrip(ws: seq<seq<byte>>, rest: seq<byte>)
    ensures Body(ChunkAll(ws) + [0] + rest) == Some((Concat(ws), rest))
  {
    hide Body, Chunk;
    if ws == [] {
      LastChunk(rest);
      assert ChunkAll(ws) + [0] + rest == [0] + rest;
    } else {
      PartialRoundTrip(ws[1..], rest);
      var s := ChunkAll(ws[1..]) + [0] + rest;
      ChunkBody(ws[0], s);
      assert ChunkAll(ws) + [0] + rest == Chunk(ws[0]) + s;
    }
  }

  /** The first write that is not empty. */
  function FirstWrite(ws: seq<seq<byte>>): seq<byte> {
    if ws == [] then [] else if ws[0] != [] then ws[0] else FirstWrite(ws[1..])
  }

  /** What section 4.2.2.4 of RFC 4880 asks of the first partial length. */
  const FIRST_PARTIAL: nat := 512

  lemma {:induction false} TopAtLeast(len: nat, k: nat, m: nat)
    requires len > 0 && m <= k
    ensures Two(Top(len, k)) >= Two(m) <==> len >= Two(m)
  {
    if Two(k) <= len || k == 0 {
      TwoMonotone(m, k);
    } else if m < k {
      TopAtLeast(len, k - 1, m);
    }
  }

  lemma {:induction false} TwoMonotone(m: nat, k: nat)
    requires m <= k
    ensures Two(m) <= Two(k)
    decreases k
  {
    if m < k {
      TwoMonotone(m, k - 1);
    }
  }

  /**
   The first length of a stream is partial exactly when something is written, and then it is as long as
   the RFC asks exactly when the first write that is not empty is.
   */
  lemma {:induction false} FirstPartialLength(ws: seq<seq<byte>>, rest: seq<byte>)
    ensures var l := ReadLength(ChunkAll(ws) + [0] + rest);
            && l.Some? && (l.value.partial <==> FirstWrite(ws) != [])
            && (l.value.partial ==> (l.value.value >= FIRST_PARTIAL <==> |FirstWrite(ws)| >= FIRST_PARTIAL))
  {
    hide Top, Two;
    var s := ChunkAll(ws) + [0] + rest;
    if ws == [] {
      assert s == [0] + rest;
    } else if ws[0] == [] {
      FirstPartialLength(ws[1..], rest);
      assert s == ChunkAll(ws[1..]) + [0] + rest;
    } else {
      var k := Top(|ws[0]|, 14);
      FirstByte(ws[0]);
      assert s[0] == 224 + k;
      assert (224 + k) % 32 == k;
      TopAtLeast(|ws[0]|, 14, 9);
      TwoNine();
    }
  }

  lemma TwoNine()
    ensures Two(9) == FIRST_PARTIAL
  {
    assert Two(4) == 16;
    assert Two(9) == 32 * Two(4);
  }

  lemma FirstByte(p: seq<byte>)
    requires p != []
    ensures Chunk(p) != [] && Chunk(p)[0] as int == 224 + Top(|p|, 14)
  {
    hide Top, Two;
  }

  lemma {:induction false} ChunkAllAppend(ws: seq<seq<byte>>, w: seq<byte>)
    ensures ChunkAll(ws + [w]) == ChunkAll(ws) + Chunk(w) && Concat(ws + [w]) == Concat(ws) + w
  {
    hide Chunk;
    if ws == [] {
      assert ws + [w] == [w];
    } else {
      ChunkAllAppend(ws[1..], w);
      assert (ws + [w])[1..] == ws[1..] + [w];
    }
  }

  // --------------------------------------------------------------------------
  // Readers
  // --------------------------------------------------------------------------

  /** The number that readLength returns beside its error. */
  function Leftover(s: seq<byte>): nat {
    if |s| == 1 && 192 <= s[0] < 224 then (s[0] as int - 192) * 256 else 0
  }

  /** readLength on a reader; when it fails, left is the length that it returns all the same. */
  method TakeLength(r: Source) returns (l: Option<Length>, left: nat)
    modifies r
    ensures l == ReadLength(old(r.data)) && |r.data| <= |old(r.data)| && |r.schedule| <= |old(r.schedule)|
    ensures l.Some? ==> r.data == l.value.rest && |r.data| < |old(r.data)|
    ensures l.None? ==> r.data == [] && r.gave < r.asked && left == Leftover(old(r.data))
    ensures Patient(old(r.schedule)) ==> Patient(r.schedule)
  {
    left := 0;
    var buf := new byte[4];
    ghost var s := r.data;
    var n, ok := ReadFull(r, buf, 0, 1);
    if !ok {
      return None, left;
    }
    assert buf[0] == buf[0..1][0] == s[0];
    var b := buf[0] as int;
    if b < 192 {
      return Some(Length(b, false, r.data)), left;
    }
    if b < 224 {
      left := (b - 192) * 256;
      n, ok := ReadFull(r, buf, 0, 1);
      if !ok {
        return None, left;
      }
      assert buf[0] == buf[0..1][0] == s[1];
      return Some(Length(left + buf[0] as int + 192, false, r.data)), left;
    }
    if b < 255 {
      return Some(Length(Two(b % 32), true, r.data)), left;
    }
    n, ok := ReadFull(r, buf, 0, 4);
    if !ok {
      return None, left;
    }
    assert buf[0..4] == s[1..][..4] == s[1..5];
    return Some(Length(FromU32(buf[0..4]), false, r.data)), left;
  }

  // --------------------------------------------------------------------------
  // Packets
  // --------------------------------------------------------------------------

  /** How the contents of a packet are delimited. */
  datatype Extent = ToEnd | Span(n: nat) | Partial(n: nat)

  datatype Header = Header(tag: nat, extent: Extent, rest: seq<byte>)

  /** readHeader: the old and the new format. */
  function ParseHeader(s: seq<byte>): Option<Header> {
    if s == [] || s[0] < 128 then None else
    var b := s[0] as int;
    if b < 192 then
      var k := if b % 4 == 0 then 1 else if b % 4 == 1 then 2 else 4;
      if b % 4 == 3 then Some(Header((b - 128) / 4, ToEnd, s[1..]))
      else if |s| < 1 + k then None
      else Some(Header((b - 128) / 4, Span(BigValue(s[1..1 + k])), s[1 + k..]))
    else
      var l := ReadLength(s[1..]);
      if l.None? then None
      else Some(Header(b - 192, if l.value.partial then Partial(l.value.value) else Span(l.value.value), l.value.rest))
  }

  /** Section 4.2.1 of RFC 4880: the old format, with a length of one, two or four bytes or none at all. */
  lemma OldFormat(tag: nat, kind: nat, length: seq<byte>, rest: seq<byte>)
    requires tag < 16 && kind < 4 && |length| == [1, 2, 4, 0][kind]
    ensures ParseHeader([128 + 4 * tag + kind] + length + rest) ==
            Some(Header(tag, if kind == 3 then ToEnd else Span(BigValue(length)), rest))
  {
    hide BigValue, ReadLength;
    var b := 128 + 4 * tag + kind;
    OldLength([b], length, rest);
    assert b % 4 == kind && (b - 128) / 4 == tag;
  }

  lemma OldLength(first: seq<byte>, length: seq<byte>, rest: seq<byte>)
    requires |first| == 1
    ensures var s := first + length + rest;
            s[0] == first[0] && s[1..1 + |length|] == length && s[1 + |length|..] == rest
  {
  }

  /** A whole packet: its tag, its contents and what follows. */
  function ParsePacket(s: seq<byte>): Option<(nat, seq<byte>, seq<byte>)> {
    var h := ParseHeader(s);
    if h.None? then None else
    match h.value.extent
    case ToEnd => Some((h.value.tag, h.value.rest, []))
    case Span(n) => if n > |h.value.rest| then None else Some((h.value.tag, h.value.rest[..n], h.value.rest[n..]))
    case Partial(n) =>
      var u := Unchunk(n, true, h.value.rest);
      if u.None? then None else Some((h.value.tag, u.value.0, u.value.1))
  }

  /** A packet with a known length: serializeHeader and the contents. */
  lemma PacketRoundTrip(tag: nat, d: seq<byte>, rest: seq<byte>)
    requires tag < 64 && |d| < U32_LIMIT
    ensures ParsePacket([192 + tag] + LengthBytes(|d|) + d + rest) == Some((tag, d, rest))
  {
    hide ReadLength, LengthBytes, Unchunk;
    var s := [192 + tag] + LengthBytes(|d|) + d + rest;
    LengthRoundTrip(|d|, d + rest);
    assert s[1..] == LengthBytes(|d|) + (d + rest);
    assert (d + rest)[..|d|] == d && (d + rest)[|d|..] == rest;
  }

  /** A streamed packet: any writes, then Close. */
  lemma StreamedPacketRoundTrip(tag: nat, ws: seq<seq<byte>>, rest: seq<byte>)
    requires tag < 64
    ensures ParsePacket([192 + tag] + (ChunkAll(ws) + [0] + rest)) == Some((tag, Concat(ws), rest))
  {
    hide ReadLength, ChunkAll, Concat;
    var b := ChunkAll(ws) + [0] + rest;
    PartialRoundTrip(ws, rest);
    assert ([192 + tag] + b)[1..] == b;
    var l := ReadLength(b).value;
    if !l.partial {
      SpanUnchunk(l.value, l.rest);
    }
  }

  lemma SpanUnchunk(n: nat, s: seq<byte>)
    ensures Unchunk(n, false, s) == if n > |s| then None else Some((s[..n], s[n..]))
  {
  }

  // --------------------------------------------------------------------------
  // Contents
  // --------------------------------------------------------------------------

  /** The contents behind a header, and what follows them; None when they are cut off. */
  function ContentsOf(e: Extent, s: seq<byte>): Option<(seq<byte>, seq<byte>)> {
    match e
    case ToEnd => Some((s, []))
    case Span(n) => Unchunk(n, false, s)
    case Partial(n) => Unchunk(n, true, s)
  }

  /** What can be read of them. */
  function AvailableOf(e: Extent, s: seq<byte>): seq<byte> {
    match e
    case ToEnd => s
    case Span(n) => Available(n, false, s)
    case Partial(n) => Available(n, true, s)
  }

  /** Nothing but the last length is missing. */
  predicate LacksLength(e: Extent, s: seq<byte>) {
    e.Partial? && LacksEnd(e.n, true, s)
  }

  datatype Shape = PartialBody | SpanBody | RestBody

  /** The three readers that readHeader hands out: partialLengthReader, spanReader and the bare reader. */
  class BodyReader {
    const r: Source
    const shape: Shape
    var remaining: nat
    var isPartial: bool

    /** A length was asked for and was not there. */
    ghost var cut: bool

    constructor (r: Source, e: Extent)
      ensures Valid() && !cut && this.r == r && Contents() == ContentsOf(e, r.data) && Avail() == AvailableOf(e, r.data)
      ensures remaining == (match e case ToEnd => 0 case Span(n) => n case Partial(n) => n)
      ensures LacksLength(e, r.data) && Patient(r.schedule) ==> Lacking()
      ensures shape == match e case ToEnd => RestBody case Span(_) => SpanBody case Partial(_) => PartialBody
    {
      this.r, cut := r, false;
      match e
      case ToEnd => shape, remaining, isPartial := RestBody, 0, false;
      case Span(n) => shape, remaining, isPartial := SpanBody, n, false;
      case Partial(n) => shape, remaining, isPartial := PartialBody, n, true;
    }

    /** Only partialLengthReader reads further lengths, and none after one that was not there. */
    ghost predicate Valid()
      reads this, r
    {
      (shape == SpanBody ==> !isPartial) && (cut ==> shape == PartialBody && !isPartial && r.data == [])
    }

    /** What is still to come, and what follows the packet; None for a damaged packet. */
    ghost function Contents(): Option<(seq<byte>, seq<byte>)>
      reads this, r
    {
      match shape
      case RestBody => Some((r.data, []))
      case _ => if cut then None else Unchunk(remaining, isPartial, r.data)
    }

    /** What can still be read. */
    ghost function Avail(): seq<byte>
      reads this, r
    {
      match shape
      case RestBody => r.data
      case _ => if cut then [] else Available(remaining, isPartial, r.data)
    }

    ghost predicate Intact()
      reads this, r
    {
      Contents().Some?
    }

    /** The last call of the source makes a packet that is cut off look complete. */
    ghost predicate EndsCleanly()
      reads this, r
    {
      shape == PartialBody && r.EndedFull()
    }

    /** A length was not there, and the zero that came with the error makes the packet look complete from now on. */
    ghost predicate Forgot()
      reads this
    {
      cut && remaining == 0
    }

    /** Skips over the lengths up to the next bytes of the contents. */
    method SkipLengths() returns (status: Status)
      requires Valid() && shape == PartialBody
      modifies this, r
      ensures Valid() && Contents() == old(Contents()) && Avail() == old(Avail())
      ensures status == Ok ==> remaining > 0 && cut == old(cut)
      ensures old(remaining) > 0 ==> status == Ok && unchanged(this) && unchanged(r)
      ensures status == EOF ==> remaining == 0 && !isPartial && cut == old(cut)
      ensures old(Forgot()) ==> status == EOF
      ensures status == UnexpectedEOF ==> cut && !old(cut) && Avail() == [] && r.gave < r.asked
      ensures |r.data| <= |old(r.data)| && |r.schedule| <= |old(r.schedule)|
      ensures old(Lacking()) ==> if status == Ok then Lacking() else status == UnexpectedEOF && Forgot()
    {
      hide Unchunk, Available, ReadLength, LacksEnd, Patient;
      while remaining == 0
        invariant Valid() && Contents() == old(Contents()) && Avail() == old(Avail()) && cut == old(cut)
        invariant old(remaining) > 0 || old(Forgot()) ==> unchanged(this) && unchanged(r)
        invariant |r.data| <= |old(r.data)| && |r.schedule| <= |old(r.schedule)|
        invariant old(Lacking()) ==> Lacking()
        decreases |r.data|
      {
        if !isPartial {
          NotLacking(remaining, r.data);
          return EOF;
        }
        ghost var was := r.data;
        NextLength(was);
        if LacksEnd(0, true, was) {
          LackingLength(was);
        }
        var l, left := TakeLength(r);
        if l.None? {
          cut, remaining, isPartial := true, left, false;
          return UnexpectedEOF;
        }
        remaining, isPartial := l.value.value, l.value.partial;
      }
      return Ok;
    }

    /** All that the packet lacks is a length at its very end, and its source never reports an end with bytes. */
    ghost predicate Lacking()
      reads this, r
    {
      shape == PartialBody && !cut && Patient(r.schedule) && LacksEnd(remaining, isPartial, r.data)
    }

    /** What every read does: it gives the next bytes, and an end only when there are none left. */
    twostate predicate Delivered(buf: array<byte>, off: nat, len: nat, n: nat, status: Status)
      requires off + len <= buf.Length
      reads this, r, buf
    {
      && n <= len && n <= |old(Avail())| && buf[off..off + n] == old(Avail())[..n] && Avail() == old(Avail())[n..]
      && buf[..off] == old(buf[..off]) && buf[off + len..] == old(buf[off + len..])
      && (Intact() <==> old(Intact()))
      && (Intact() ==> n <= |old(Contents()).value.0|)
      && (Intact() ==> Contents() == Some((old(Contents()).value.0[n..], old(Contents()).value.1)))
      && (status != Ok ==> Avail() == []) && (status == UnexpectedEOF ==> !Intact())
      && |r.data| <= |old(r.data)| && |r.schedule| <= |old(r.schedule)|
      && (len > 0 && n == 0 && status == Ok ==> |r.schedule| < |old(r.schedule)|)
      && (old(cut) ==> cut && remaining == old(remaining)) && (cut && !old(cut) ==> n == 0 && status == UnexpectedEOF)
      && (status != UnexpectedEOF ==> (Forgot() <==> old(Forgot())))
      && (old(Lacking()) ==> if status == Ok then Lacking() else status == UnexpectedEOF && Forgot())
    }

    /** One call of the source for announced bytes. */
    method Fetch(buf: array<byte>, off: nat, len: nat) returns (n: nat, status: Status, asked: nat)
      requires Valid() && shape != RestBody && remaining > 0 && off + len <= buf.Length
      modifies this`remaining, r, buf
      ensures Valid() && (old(Lacking()) ==> Lacking() && status == Ok)
      ensures asked == r.asked == (if len > old(remaining) then old(remaining) else len)
              && status == r.told != UnexpectedEOF && n == r.gave
      ensures n == Answer(old(r.schedule), asked, old(r.data)) && status == Report(old(r.schedule), asked, old(r.data))
      ensures n <= asked && remaining == old(remaining) - n && (status == EOF ==> r.data == [])
      ensures n <= |old(Avail())| && buf[off..off + n] == old(Avail())[..n] && Avail() == old(Avail())[n..]
      ensures buf[..off] == old(buf[..off]) && buf[off + len..] == old(buf[off + len..])
      ensures Intact() <==> old(Intact())
      ensures Intact() ==> n <= |old(Contents()).value.0|
      ensures Intact() ==> Contents() == Some((old(Contents()).value.0[n..], old(Contents()).value.1))
      ensures |r.data| <= |old(r.data)| && |r.schedule| <= |old(r.schedule)|
      ensures len > 0 && n == 0 && status == Ok ==> |r.schedule| < |old(r.schedule)|
    {
      hide Unchunk, Available, Answer, Report, LacksEnd, Patient;
      asked := if len > remaining then remaining else len;
      ghost var s, rem := r.data, remaining;
      n, status := r.Read(buf, off, asked);
      remaining := remaining - n;
      TakeBytes(rem, isPartial, s, n);
      if LacksEnd(rem, isPartial, s) {
        LackingBytes(rem, isPartial, s, n);
        LackingMore(rem, isPartial, s);
        PatientReports(old(r.schedule), asked, s);
      }
      assert buf[off + len..] == buf[off + asked..][len - asked..] == old(buf[off + asked..])[len - asked..];
    }

    /**
     partialLengthReader.Read.  On a packet that is cut off it reports a clean end exactly when the source
     gives all that it is asked for and reports its own end with it, or when an earlier call has failed
     on a length that was not there.
     */
    method ReadPartial(buf: array<byte>, off: nat, len: nat) returns (n: nat, status: Status)
      requires Valid() && shape == PartialBody && off + len <= buf.Length
      modifies this, r, buf
      ensures Valid() && Delivered(buf, off, len, n, status)
      ensures !Intact() ==> (status == EOF <==> old(Forgot()) || r.EndedFull())
      ensures !Intact() && status == EOF ==> n == if old(Forgot()) then 0 else r.gave
      ensures old(remaining) > 0 ==>
                var asked := if len > old(remaining) then old(remaining) else len;
                && r.asked == asked && n == r.gave == Answer(old(r.schedule), asked, old(r.data))
                && r.told == Report(old(r.schedule), asked, old(r.data))
    {
      hide Unchunk, Available, Answer, Report, LacksEnd, Patient;
      status := SkipLengths();
      if status != Ok {
        AtEnd(r.data);
        return 0, status;
      }
      var asked;
      n, status, asked := Fetch(buf, off, len);
      Exhausted(remaining, isPartial);
      if n < asked && status == EOF {
        status := UnexpectedEOF;
      }
    }

    /** spanReader.Read: a packet that is cut off never ends cleanly. */
    method ReadSpan(buf: array<byte>, off: nat, len: nat) returns (n: nat, status: Status)
      requires Valid() && shape == SpanBody && off + len <= buf.Length
      modifies this, r, buf
      ensures Valid() && Delivered(buf, off, len, n, status)
      ensures !Intact() ==> status != EOF
    {
      hide Unchunk, Available, Answer, Report, LacksEnd, Patient;
      if remaining == 0 {
        AtEnd(r.data);
        return 0, EOF;
      }
      var asked;
      n, status, asked := Fetch(buf, off, len);
      Exhausted(remaining, false);
      AtEnd(r.data);
      if remaining > 0 && status == EOF {
        status := UnexpectedEOF;
      }
    }

    /** The contents by their reader. */
    method Read(buf: array<byte>, off: nat, len: nat) returns (n: nat, status: Status)
      requires Valid() && off + len <= buf.Length
      modifies this, r, buf
      ensures Valid() && Delivered(buf, off, len, n, status)
      ensures !Intact() ==> (status == EOF <==> old(Forgot()) || EndsCleanly())
      ensures !Intact() && status == EOF ==> n == if old(Forgot()) then 0 else r.gave
    {
      hide Unchunk, Available, LacksEnd, Patient;
      match shape
      case PartialBody => n, status := ReadPartial(buf, off, len);
      case SpanBody => n, status := ReadSpan(buf, off, len);
      case RestBody => n, status := r.Read(buf, off, len);
    }

    lemma AllIfIntact()
      ensures Intact() ==> Avail() == Contents().value.0
    {
      if Intact() {
        match shape
        case RestBody =>
        case _ => AllAvailable(remaining, isPartial, r.data);
      }
    }
  }

  /** The body is complete but for its last length, of which nothing is there. */
  predicate LacksEnd(rem: nat, partial: bool, s: seq<byte>)
    decreases |s|
  {
    && partial && rem <= |s|
    && var l := ReadLength(s[rem..]);
    ReadLengthShrinks(s[rem..]);
    s[rem..] == [] || (l.Some? && LacksEnd(l.value.value, l.value.partial, l.value.rest))
  }

  lemma NotLacking(rem: nat, s: seq<byte>)
    ensures !LacksEnd(rem, false, s)
  {
  }

  lemma LackingLength(s: seq<byte>)
    requires LacksEnd(0, true, s)
    ensures ReadLength(s).None? ==> s == [] && Leftover(s) == 0
    ensures ReadLength(s).Some? ==> var l := ReadLength(s).value; LacksEnd(l.value, l.partial, l.rest)
  {
    assert s[0..] == s;
  }

  lemma LackingMore(rem: nat, partial: bool, s: seq<byte>)
    requires LacksEnd(rem, partial, s)
    ensures |s| >= rem
  {
  }

  lemma LackingBytes(rem: nat, partial: bool, s: seq<byte>, n: nat)
    requires n <= rem && n <= |s| && LacksEnd(rem, partial, s)
    ensures LacksEnd(rem - n, partial, s[n..])
  {
    assert s[n..][rem - n..] == s[rem..];
  }

  lemma NoLength()
    ensures ReadLength([]) == None
  {
  }

  lemma AtEnd(s: seq<byte>)
    ensures Unchunk(0, false, s) == Some(([], s)) && Available(0, false, s) == []
  {
  }

  /** A packet that is cut off is damaged. */
  lemma Exhausted(rem: nat, partial: bool)
    ensures Available(rem, partial, []) == []
    ensures Unchunk(rem, partial, []).Some? <==> rem == 0 && !partial
  {
  }

  /** Reading n announced bytes leaves the rest of the contents. */
  lemma TakeBytes(rem: nat, partial: bool, s: seq<byte>, n: nat)
    requires n <= rem && n <= |s|
    ensures var a := Available(rem, partial, s);
            n <= |a| && a[..n] == s[..n] && Available(rem - n, partial, s[n..]) == a[n..]
    ensures Unchunk(rem - n, partial, s[n..]).Some? <==> Unchunk(rem, partial, s).Some?
    ensures var u := Unchunk(rem, partial, s);
            u.Some? ==> n <= |u.value.0| && Unchunk(rem - n, partial, s[n..]).value == (u.value.0[n..], u.value.1)
  {
    hide ReadLength;
    if rem <= |s| {
      var t := s[n..];
      assert t[rem - n..] == s[rem..] && t[..rem - n] == s[..rem][n..];
      var l := ReadLength(s[rem..]);
      if partial && l.Some? {
        ReadLengthShrinks(s[rem..]);
        var r := Unchunk(l.value.value, l.value.partial, l.value.rest);
        if r.Some? {
          assert (s[..rem] + r.value.0)[n..] == s[..rem][n..] + r.value.0;
        }
        var a := Available(l.value.value, l.value.partial, l.value.rest);
        assert (s[..rem] + a)[n..] == s[..rem][n..] + a;
      }
    }
  }

  lemma NextLength(s: seq<byte>)
    ensures Unchunk(0, true, s) == if ReadLength(s).None? then None else
              var l := ReadLength(s).value; Unchunk(l.value, l.partial, l.rest)
    ensures Available(0, true, s) == if ReadLength(s).None? then [] else
              var l := ReadLength(s).value; Available(l.value, l.partial, l.rest)
  {
    hide ReadLength;
    assert s[0..] == s && s[..0] == [];
    var l := ReadLength(s);
    if l.Some? {
      ReadLengthShrinks(s);
      var r := Unchunk(l.value.value, l.value.partial, l.value.rest);
      if r.Some? {
        assert s[..0] + r.value.0 == r.value.0;
      }
      var a := Available(l.value.value, l.value.partial, l.value.rest);
      assert s[..0] + a == a;
    }
  }

  /** A write in front of whatever there is adds its bytes in front. */
  lemma {:induction false} ChunkAvailable(p: seq<byte>, s: seq<byte>)
    ensures Available(0, true, Chunk(p) + s) == p + Available(0, true, s)
    ensures Unchunk(0, true, s).None? ==> Unchunk(0, true, Chunk(p) + s).None?
    decreases |p|
  {
    hide Available, Unchunk, Two, Top;
    if p == [] {
      assert Chunk(p) + s == s && p + Available(0, true, s) == Available(0, true, s);
    } else {
      var k := Top(|p|, 14);
      var head, tail := p[..Two(k)], p[Two(k)..];
      ChunkAvailable(tail, s);
      Reassociate([224 + k], head, Chunk(tail), s);
      BlockAvailable(k, head, Chunk(tail) + s);
      Resume(p, Two(k), Available(0, true, s));
    }
  }

  lemma BlockLength(k: nat, rest: seq<byte>)
    requires k <= 14
    ensures ReadLength([224 + k] + rest) == Some(Length(Two(k), true, rest))
  {
    hide Two;
    assert ([224 + k] + rest)[1..] == rest && (224 + k) % 32 == k;
  }

  lemma BlockAvailable(k: nat, head: seq<byte>, next: seq<byte>)
    requires k <= 14 && |head| == Two(k)
    ensures Available(0, true, [224 + k] + (head + next)) == head + Available(0, true, next)
    ensures Unchunk(0, true, next).None? ==> Unchunk(0, true, [224 + k] + (head + next)).None?
  {
    hide Two, ReadLength;
    BlockLength(k, head + next);
    NextLength([224 + k] + (head + next));
    NextLength(next);
    assert (head + next)[..|head|] == head && (head + next)[|head|..] == next;
    assert head + [] == head;
  }

  lemma {:induction false} ChunkLacks(p: seq<byte>, s: seq<byte>)
    requires LacksEnd(0, true, s)
    ensures LacksEnd(0, true, Chunk(p) + s)
    decreases |p|
  {
    hide LacksEnd, Two, Top;
    if p == [] {
      assert Chunk(p) + s == s;
    } else {
      var k := Top(|p|, 14);
      var head, tail := p[..Two(k)], p[Two(k)..];
      ChunkLacks(tail, s);
      Reassociate([224 + k], head, Chunk(tail), s);
      BlockLacks(k, head, Chunk(tail) + s);
    }
  }

  lemma BlockLacks(k: nat, head: seq<byte>, next: seq<byte>)
    requires k <= 14 && |head| == Two(k) && LacksEnd(0, true, next)
    ensures LacksEnd(0, true, [224 + k] + (head + next))
  {
    hide Two, ReadLength;
    BlockLength(k, head + next);
    var s := [224 + k] + (head + next);
    assert s[0..] == s && (head + next)[|head|..] == next && next[0..] == next;
  }

  /** It lacks nothing but the last length. */
  lemma {:induction false} ChunksLackEnd(ws: seq<seq<byte>>)
    ensures LacksEnd(0, true, ChunkAll(ws))
  {
    hide Chunk;
    if ws != [] {
      ChunksLackEnd(ws[1..]);
      ChunkLacks(ws[0], ChunkAll(ws[1..]));
    }
  }

  /** A stream without its end is cut off, and all that was written can be read. */
  lemma {:induction false} StreamWithoutEnd(ws: seq<seq<byte>>)
    ensures Available(0, true, ChunkAll(ws)) == Concat(ws) && Unchunk(0, true, ChunkAll(ws)).None?
  {
    hide Available, Unchunk, Chunk;
    if ws == [] {
      NextLength([]);
      NoLength();
    } else {
      StreamWithoutEnd(ws[1..]);
      ChunkAvailable(ws[0], ChunkAll(ws[1..]));
    }
  }

  /** Reading to the end through a buffer of any size gives all there is, whatever the underlying reader does. */
  method ConsumeAll(p: BodyReader, buf: array<byte>) returns (all: seq<byte>, status: Status)
    requires p.Valid() && buf.Length > 0
    modifies p, p.r, buf
    ensures all == old(p.Avail()) && status != Ok && (p.Intact() <==> old(p.Intact()))
    ensures old(p.Intact()) ==> status == EOF && all == old(p.Contents()).value.0
    ensures old(p.Intact()) ==> p.Contents() == Some(([], old(p.Contents()).value.1))
    ensures !p.Intact() && p.shape != PartialBody ==> status == UnexpectedEOF
  {
    hide Unchunk, Available;
    p.AllIfIntact();
    all := [];
    ghost var total, was := p.Avail(), p.Contents();
    status := Ok;
    while status == Ok
      invariant p.Valid() && all + p.Avail() == total && (p.Intact() <==> was.Some?)
      invariant p.Intact() ==> p.Contents() == Some((p.Avail(), was.value.1))
      invariant (status != Ok ==> p.Avail() == []) && (status == UnexpectedEOF ==> !p.Intact())
      invariant !p.Intact() && p.shape != PartialBody ==> status != EOF
      decreases status == Ok, |p.Avail()|, |p.r.schedule|
    {
      var n;
      ghost var left := p.Avail();
      n, status := p.Read(buf, 0, buf.Length);
      assert left == left[..n] + left[n..];
      p.AllIfIntact();
      all := all + buf[0..n];
    }
    assert all + [] == all;
  }

  /**
   A packet that announces four bytes and has two: through a buffer of two bytes, over a source that
   reports its end with the last bytes, it ends cleanly.
   */
  method CutOffEndsCleanly() returns (n: nat, status: Status, data: seq<byte>)
    ensures n == 2 && status == EOF && data == [1, 2]
  {
    hide Unchunk, Available;
    var src := new Source([1, 2], [Choice(2, true)]);
    var p := new BodyReader(src, Partial(4));
    var buf := new byte[2];
    TwoOfFour();
    n, status := p.ReadPartial(buf, 0, 2);
    assert Answer([Choice(2, true)], 2, [1, 2]) == 2;
    data := buf[0..n];
  }

  lemma TwoOfFour()
    ensures Unchunk(4, true, [1, 2]) == None && Available(4, true, [1, 2]) == [1, 2]
  {
  }

  /** readHeader on a reader. */
  method TakeHeader(r: Source) returns (h: Option<Header>)
    modifies r
    ensures h == ParseHeader(old(r.data)) && (Patient(old(r.schedule)) ==> Patient(r.schedule))
    ensures h.Some? ==> r.data == h.value.rest
  {
    var buf := new byte[4];
    ghost var s := r.data;
    var n, ok := ReadFull(r, buf, 0, 1);
    if !ok {
      return None;
    }
    assert buf[0] == buf[0..1][0] == s[0];
    var b := buf[0] as int;
    if b < 128 {
      return None;
    }
    if b < 192 {
      if b % 4 == 3 {
        return Some(Header((b - 128) / 4, ToEnd, r.data));
      }
      var k := if b % 4 == 0 then 1 else if b % 4 == 1 then 2 else 4;
      n, ok := ReadFull(r, buf, 0, k);
      if !ok {
        return None;
      }
      var length := 0;
      for i := 0 to k
        invariant length == BigValue(buf[0..i])
      {
        assert buf[0..i + 1][..i] == buf[0..i];
        length := length * 256 + buf[i] as int;
      }
      assert buf[0..k] == s[1..][..k] == s[1..1 + k];
      return Some(Header((b - 128) / 4, Span(length), r.data));
    }
    var l, _ := TakeLength(r);
    if l.None? {
      return None;
    }
    return Some(Header(b - 192, if l.value.partial then Partial(l.value.value) else Span(l.value.value), r.data));
  }

  // --------------------------------------------------------------------------
  // The writer
  // --------------------------------------------------------------------------

  class PartialWriter {
    var sink: seq<byte>

    constructor (sink: seq<byte>)
      ensures this.sink == sink
    {
      this.sink := sink;
    }

    /** Cuts p into blocks whose sizes are powers of two, the largest first. */
    method Write(p: seq<byte>)
      modifies this
      ensures sink == old(sink) + Chunk(p)
    {
      var rest := p;
      while rest != []
        invariant sink + Chunk(rest) == old(sink) + Chunk(p)
        decreases |rest|
      {
        var power := 14;
        while Two(power) > |rest|
          invariant 0 <= power <= 14 && Top(|rest|, 14) == Top(|rest|, power)
        {
          power := power - 1;
        }
        Appended(sink, rest, power);
        sink := sink + [224 + power] + rest[..Two(power)];
        rest := rest[Two(power)..];
      }
    }

    method Close()
      modifies this
      ensures sink == old(sink) + [0]
    {
      sink := sink + [0];
    }
  }

  lemma Appended(sink: seq<byte>, rest: seq<byte>, power: nat)
    requires rest != [] && power == Top(|rest|, 14)
    ensures sink + Chunk(rest) == (sink + [224 + power] + rest[..Two(power)]) + Chunk(rest[Two(power)..])
  {
    hide Two, Top;
  }
}
