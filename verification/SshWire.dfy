/**
 The SSH wire format (ssh/messages.go, section 5 of RFC 4251): multiple precision integers in shortest
 two's complement, strings, name lists, and structures described by a list of field kinds.
 */
module SshWire {
  import opened Modular
  import opened Bits
  import opened ByteSeqs
  import opened BigEndian
  import opened Readers
  import opened Wrappers

  // --------------------------------------------------------------------------
  // Integers
  // --------------------------------------------------------------------------

  /** big.Int.Bytes: big-endian without leading zeros. */
  function Bytes(n: nat): seq<byte> {
    if n == 0 then [] else Bytes(n / 256) + [n % 256]
  }

  function BitLen(n: nat): nat {
    if n == 0 then 0 else 1 + BitLen(n / 2)
  }

  function Complement(s: seq<byte>): (r: seq<byte>)
    ensures |r| == |s| && forall i :: 0 <= i < |s| ==> r[i] as int == 255 - s[i] as int
  {
    if s == [] then [] else Complement(s[..|s| - 1]) + [255 - s[|s| - 1] as int]
  }

  /** The contents that marshalInt writes. */
  function IntBytes(n: int): seq<byte> {
    if n < 0 then
      var b := Complement(Bytes(-n - 1));
      if b == [] || b[0] < 128 then [255] + b else b
    else if n == 0 then []
    else
      var b := Bytes(n);
      if b != [] && b[0] >= 128 then [0] + b else b
  }

  function IntLength(n: int): nat {
    if n < 0 then
      var l := BitLen(-n - 1);
      4 + (if l % 8 == 0 then 1 else 0) + (l + 7) / 8
    else if n == 0 then 4
    else
      var l := BitLen(n);
      4 + (if l % 8 == 0 then 1 else 0) + (l + 7) / 8
  }

  /** parseInt on the contents of its string. */
  function FromTwos(s: seq<byte>): int {
    if s != [] && s[0] >= 128 then -(BigValue(Complement(s)) + 1) else BigValue(s)
  }

  lemma {:induction false} BytesRoundTrip(n: nat)
    ensures BigValue(Bytes(n)) == n
  {
    if n > 0 {
      BytesRoundTrip(n / 256);
      assert Bytes(n)[..|Bytes(n)| - 1] == Bytes(n / 256);
    }
  }

  lemma {:induction false} BytesFirst(n: nat)
    requires n > 0
    ensures |Bytes(n)| > 0 && Bytes(n)[0] > 0
  {
    if n >= 256 {
      BytesFirst(n / 256);
    }
  }

  lemma {:induction false} ComplementTwice(s: seq<byte>)
    ensures Complement(Complement(s)) == s
  {
  }

  lemma {:induction false} BigBelow(s: seq<byte>)
    ensures BigValue(s) < Pow256(|s|)
  {
    if s != [] {
      BigBelow(s[..|s| - 1]);
    }
  }

  lemma Halves(n: nat)
    ensures n / 2 / 2 / 2 / 2 / 2 / 2 / 2 / 2 == n / 256
  {
  }

  /** Eight bits to a byte. */
  lemma BitLen8(n: nat)
    requires n >= 256
    ensures BitLen(n) == 8 + BitLen(n / 256)
  {
    Halves(n);
    var n1 := n / 2;
    var n2 := n1 / 2;
    var n3 := n2 / 2;
    var n4 := n3 / 2;
    var n5 := n4 / 2;
    var n6 := n5 / 2;
    var n7 := n6 / 2;
    assert BitLen(n) == 1 + BitLen(n1) && BitLen(n1) == 1 + BitLen(n2) && BitLen(n2) == 1 + BitLen(n3);
    assert BitLen(n3) == 1 + BitLen(n4) && BitLen(n4) == 1 + BitLen(n5) && BitLen(n5) == 1 + BitLen(n6);
    assert BitLen(n6) == 1 + BitLen(n7) && BitLen(n7) == 1 + BitLen(n7 / 2);
  }

  lemma BitLenSmall(n: nat)
    ensures n < 256 ==> BitLen(n) <= 8 && (n >= 128 <==> BitLen(n) == 8) && (n > 0 <==> BitLen(n) > 0)
  {
    if n < 256 {
      BitLenBound(n, 8);
      if n < 128 {
        BitLenBound(n, 7);
      } else {
        BitLenAtLeast(n, 7);
      }
    }
  }

  lemma {:induction false} BitLenBound(n: nat, k: nat)
    requires n < Two(k)
    ensures BitLen(n) <= k
    decreases k
  {
    if n > 0 {
      BitLenBound(n / 2, k - 1);
    }
  }

  lemma {:induction false} BitLenAtLeast(n: nat, k: nat)
    requires n >= Two(k)
    ensures BitLen(n) > k
    decreases k
  {
    if k > 0 {
      BitLenAtLeast(n / 2, k - 1);
    }
  }

  lemma BytesSmall(n: nat)
    requires 0 < n < 256
    ensures Bytes(n) == [n]
  {
    assert n / 256 == 0 && n % 256 == n;
    assert Bytes(n / 256) == [];
  }

  lemma BytesMore(n: nat)
    requires n >= 256
    ensures n / 256 > 0 && Bytes(n) == Bytes(n / 256) + [n % 256]
  {
  }

  /** How many bytes a number takes, and whether its first byte has the top bit set. */
  lemma {:induction false} BytesBits(n: nat)
    requires n > 0
    ensures |Bytes(n)| == (BitLen(n) + 7) / 8 && |Bytes(n)| > 0
    ensures Bytes(n)[0] >= 128 <==> BitLen(n) % 8 == 0
  {
    hide Bytes, BitLen;
    if n < 256 {
      BitLenSmall(n);
      BytesSmall(n);
    } else {
      BitLen8(n);
      BytesMore(n);
      BytesBits(n / 256);
    }
  }

  /** marshalInt writes exactly the bytes that intLength announces. */
  lemma IntBytesLength(n: int)
    ensures 4 + |IntBytes(n)| == IntLength(n)
  {
    if n < -1 {
      BytesBits(-n - 1);
    } else if n > 0 {
      BytesBits(n);
    }
  }

  /** Reading back gives the number, for every integer. */
  lemma IntRoundTrip(n: int)
    ensures FromTwos(IntBytes(n)) == n
  {
    if n < 0 {
      NegativeRoundTrip(n);
    } else if n > 0 {
      hide BigValue, Bytes;
      BytesRoundTrip(n);
      BytesFirst(n);
      LeadingZero(Bytes(n));
    } else {
      assert FromTwos([]) == 0;
    }
  }

  lemma NegativeRoundTrip(n: int)
    requires n < 0
    ensures FromTwos(IntBytes(n)) == n
  {
    hide BigValue, Bytes, Complement;
    var m := -n - 1;
    var a := Bytes(m);
    var b := Complement(a);
    ComplementTwice(a);
    BytesRoundTrip(m);
    if b == [] || b[0] < 128 {
      LeadingZero(a);
      ComplementLead(b);
    }
  }

  lemma ComplementLead(b: seq<byte>)
    ensures Complement([255] + b) == [0] + Complement(b)
  {
  }

  lemma {:induction false} LeadingZero(s: seq<byte>)
    ensures BigValue([0] + s) == BigValue(s)
  {
    if s != [] {
      LeadingZero(s[..|s| - 1]);
      assert ([0] + s)[..|s|] == [0] + s[..|s| - 1];
    }
  }

  // The encoding is the shortest one.

  /** The first byte decides which half of the range a number is in. */
  lemma {:induction false} BigHalf(s: seq<byte>)
    requires s != []
    ensures s[0] >= 128 <==> 2 * BigValue(s) >= Pow256(|s|)
  {
    BigBelow(s[..|s| - 1]);
    if |s| > 1 {
      BigHalf(s[..|s| - 1]);
      EvenPow(|s| - 1);
    } else {
      assert s[..0] == [];
    }
  }

  lemma EvenPow(k: nat)
    requires k > 0
    ensures Pow256(k) % 2 == 0
  {
  }

  /** What k bytes of two's complement can hold. */
  predicate Holds(n: int, k: nat) {
    if k == 0 then n == 0 else 0 <= 2 * n + Pow256(k) && 2 * n < Pow256(k)
  }

  lemma TwosRange(s: seq<byte>)
    ensures Holds(FromTwos(s), |s|)
  {
    if s != [] {
      hide BigValue, Pow256, Complement;
      BigHalf(s);
      BigBelow(s);
      if s[0] >= 128 {
        var c := Complement(s);
        BigHalf(c);
        EvenPow(|s|);
      }
    }
  }

  lemma {:induction false} HoldsMore(n: int, j: nat, k: nat)
    requires j <= k && Holds(n, j)
    ensures Holds(n, k)
    decreases k
  {
    if j < k {
      HoldsMore(n, j, k - 1);
    }
  }

  /** One byte less would not hold the number. */
  lemma Needed(n: int)
    ensures IntBytes(n) != [] ==> !Holds(n, |IntBytes(n)| - 1)
  {
    if n < 0 {
      var m := -n - 1;
      if m > 0 {
        NeededBytes(m);
      }
    } else if n > 0 {
      NeededBytes(n);
    }
  }

  lemma NeededBytes(m: nat)
    requires m > 0
    ensures var b := Bytes(m); |b| > 0 && (if b[0] >= 128 then 2 * m >= Pow256(|b|) else 2 * m >= Pow256(|b| - 1))
  {
    var b := Bytes(m);
    BytesFirst(m);
    BytesRoundTrip(m);
    BigHalf(b);
    FirstByte(b);
  }

  lemma {:induction false} FirstByte(s: seq<byte>)
    requires s != [] && s[0] > 0
    ensures BigValue(s) >= Pow256(|s| - 1)
  {
    if |s| > 1 {
      FirstByte(s[..|s| - 1]);
    } else {
      assert s[..0] == [];
    }
  }

  /** No other two's complement string of the number is shorter. */
  lemma IntShortest(s: seq<byte>)
    ensures |IntBytes(FromTwos(s))| <= |s|
  {
    var n := FromTwos(s);
    TwosRange(s);
    Needed(n);
    if |s| < |IntBytes(n)| {
      HoldsMore(n, |s|, |IntBytes(n)| - 1);
    }
  }

  // --------------------------------------------------------------------------
  // Strings
  // --------------------------------------------------------------------------

  /** Length and contents; the length is a uint32. */
  function PutString(s: seq<byte>): seq<byte> {
    U32(|s| % U32_LIMIT) + s
  }

  /** parseString compares with the length of what is left as a uint32. */
  function ParseString(s: seq<byte>): Option<(seq<byte>, seq<byte>)> {
    if |s| < 4 then None else
    var n, t := FromU32(s[..4]), s[4..];
    if |t| % U32_LIMIT < n then None else Some((t[..n], t[n..]))
  }

  /** A string reads back exactly when its length fits 32 bits and what follows does not wrap the comparison. */
  lemma StringExactly(s: seq<byte>, rest: seq<byte>)
    ensures ParseString(PutString(s) + rest) == Some((s, rest))
            <==> |s| < U32_LIMIT && |s| <= (|s| + |rest|) % U32_LIMIT
  {
    hide U32, FromU32;
    var n := |s| % U32_LIMIT;
    U32RoundTrip(n);
    var w := PutString(s) + rest;
    assert w[..4] == U32(n) && w[4..] == s + rest;
    if n == |s| {
      assert (s + rest)[..n] == s && (s + rest)[n..] == rest;
    }
  }

  lemma StringRoundTrip(s: seq<byte>, rest: seq<byte>)
    requires |s| + |rest| < U32_LIMIT
    ensures ParseString(PutString(s) + rest) == Some((s, rest))
  {
    hide ParseString, PutString;
    StringExactly(s, rest);
  }

  // --------------------------------------------------------------------------
  // Name lists
  // --------------------------------------------------------------------------

  const COMMA: byte := 44

  function Join(names: seq<seq<byte>>): seq<byte> {
    if names == [] then [] else if |names| == 1 then names[0] else names[0] + [COMMA] + Join(names[1..])
  }

  /** bytes.Split at commas. */
  function Split(s: seq<byte>): (r: seq<seq<byte>>)
    ensures |r| > 0
  {
    if s == [] then [[]]
    else if s[0] == COMMA then [[]] + Split(s[1..])
    else
      var r := Split(s[1..]);
      [[s[0]] + r[0]] + r[1..]
  }

  function ParseNames(s: seq<byte>): seq<seq<byte>> {
    if s == [] then [] else Split(s)
  }

  function Commas(s: seq<byte>): nat {
    if s == [] then 0 else (if s[0] == COMMA then 1 else 0) + Commas(s[1..])
  }

  function AllCommas(names: seq<seq<byte>>): nat {
    if names == [] then 0 else Commas(names[0]) + AllCommas(names[1..])
  }

  lemma {:induction false} SplitCount(s: seq<byte>)
    ensures |Split(s)| == 1 + Commas(s)
  {
    if s != [] {
      SplitCount(s[1..]);
    }
  }

  lemma {:induction false} CommasAppend(a: seq<byte>, b: seq<byte>)
    ensures Commas(a + b) == Commas(a) + Commas(b)
  {
    if a == [] {
      assert a + b == b;
    } else {
      CommasAppend(a[1..], b);
      assert (a + b)[1..] == a[1..] + b;
    }
  }

  lemma {:induction false} JoinCommas(names: seq<seq<byte>>)
    requires names != []
    ensures Commas(Join(names)) == |names| - 1 + AllCommas(names)
  {
    if |names| == 1 {
      assert names[1..] == [];
    } else {
      JoinCommas(names[1..]);
      CommasAppend(names[0], [COMMA] + Join(names[1..]));
      assert ([COMMA] + Join(names[1..]))[1..] == Join(names[1..]);
      assert names[0] + [COMMA] + Join(names[1..]) == names[0] + ([COMMA] + Join(names[1..]));
    }
  }

  /** A name without commas in front of a comma or of the end is the first part. */
  lemma {:induction false} SplitFirst(a: seq<byte>, rest: seq<byte>)
    requires Commas(a) == 0
    ensures Split(a) == [a] && Split(a + ([COMMA] + rest)) == [a] + Split(rest)
  {
    var t := [COMMA] + rest;
    if a == [] {
      assert a + t == t && t[1..] == rest;
    } else {
      SplitFirst(a[1..], rest);
      assert (a + t)[1..] == a[1..] + t;
      assert [a[0]] + a[1..] == a;
    }
  }

  lemma {:induction false} SplitJoin(names: seq<seq<byte>>)
    requires names != [] && AllCommas(names) == 0
    ensures Split(Join(names)) == names
  {
    if |names| == 1 {
      SplitFirst(names[0], []);
    } else {
      SplitJoin(names[1..]);
      SplitFirst(names[0], Join(names[1..]));
      assert names[0] + [COMMA] + Join(names[1..]) == names[0] + ([COMMA] + Join(names[1..]));
      assert [names[0]] + names[1..] == names;
    }
  }

  /** A name list reads back exactly when no name has a comma and it is not the list of one empty name. */
  lemma NamesRoundTrip(names: seq<seq<byte>>)
    ensures ParseNames(Join(names)) == names <==> AllCommas(names) == 0 && names != [[]]
  {
    if names != [] {
      JoinCommas(names);
      SplitCount(Join(names));
      if AllCommas(names) == 0 {
        SplitJoin(names);
        assert Join(names) == [] ==> names == [[]] by {
          assert Split([]) == [[]];
        }
      }
    }
  }

  lemma StringParsed(s: seq<byte>)
    requires ParseString(s).Some?
    ensures s == PutString(ParseString(s).value.0) + ParseString(s).value.1
    ensures |ParseString(s).value.0| < U32_LIMIT
  {
    hide U32, FromU32;
    var n := FromU32(s[..4]);
    FromU32Inverse(s[..4]);
    assert s == s[..4] + s[4..][..n] + s[4..][n..];
  }

  // --------------------------------------------------------------------------
  // Structures
  // --------------------------------------------------------------------------

  /** The field types that Marshal and Unmarshal know; Rest is the slice tagged "rest". */
  datatype Kind = KBool | KArray(len: nat) | KUint8 | KUint32 | KUint64 | KString | KRest | KNames | KInt

  datatype Value = Bool(b: bool) | Data(s: seq<byte>) | Num(n: nat) | Names(names: seq<seq<byte>>) | Big(i: int)

  /** A value of the field's type. */
  predicate Typed(k: Kind, v: Value) {
    match k
    case KBool => v.Bool?
    case KArray(len) => v.Data? && |v.s| == len
    case KUint8 => v.Num? && v.n < 256
    case KUint32 => v.Num? && v.n < U32_LIMIT
    case KUint64 => v.Num? && v.n < U32_LIMIT * U32_LIMIT
    case KString => v.Data?
    case KRest => v.Data?
    case KNames => v.Names?
    case KInt => v.Big?
  }

  function MarshalField(k: Kind, v: Value): seq<byte>
    requires Typed(k, v)
  {
    match k
    case KBool => [if v.b then 1 else 0]
    case KArray(_) => v.s
    case KUint8 => [v.n]
    case KUint32 => U32(v.n)
    case KUint64 => U32(v.n / U32_LIMIT) + U32(v.n % U32_LIMIT)
    case KString => PutString(v.s)
    case KRest => v.s
    case KNames => PutString(Join(v.names))
    case KInt => PutString(IntBytes(v.i))
  }

  function ParseField(k: Kind, s: seq<byte>): Option<(Value, seq<byte>)> {
    match k
    case KBool => if |s| < 1 then None else Some((Bool(s[0] != 0), s[1..]))
    case KArray(len) => if |s| < len then None else Some((Data(s[..len]), s[len..]))
    case KUint8 => if |s| < 1 then None else Some((Num(s[0]), s[1..]))
    case KUint32 => if |s| < 4 then None else Some((Num(FromU32(s[..4])), s[4..]))
    case KUint64 => if |s| < 8 then None else Some((Num(FromU32(s[..4]) * U32_LIMIT + FromU32(s[4..8])), s[8..]))
    case KString =>
      var p := ParseString(s);
      if p.None? then None else Some((Data(p.value.0), p.value.1))
    case KRest => Some((Data(s), []))
    case KNames =>
      var p := ParseString(s);
      if p.None? then None else Some((Names(ParseNames(p.value.0)), p.value.1))
    case KInt =>
      var p := ParseString(s);
      if p.None? then None else Some((Big(FromTwos(p.value.0)), p.value.1))
  }

  /** Fields that can be told apart again: a name list as above, and nothing after the rest. */
  predicate Faithful(k: Kind, v: Value, rest: seq<byte>)
    requires Typed(k, v)
  {
    && |MarshalField(k, v)| + |rest| < U32_LIMIT
    && (k.KNames? ==> AllCommas(v.names) == 0 && v.names != [[]])
    && (k.KRest? ==> rest == [])
  }

  lemma FieldRoundTrip(k: Kind, v: Value, rest: seq<byte>)
    requires Typed(k, v) && Faithful(k, v, rest)
    ensures ParseField(k, MarshalField(k, v) + rest) == Some((v, rest))
  {
    hide U32, FromU32, IntBytes, FromTwos, Join, ParseNames, PutString, ParseString, AllCommas;
    var s := MarshalField(k, v) + rest;
    match k
    case KBool => assert s[1..] == rest;
    case KArray(len) => assert s[..len] == v.s && s[len..] == rest;
    case KUint8 => assert s[1..] == rest;
    case KUint32 =>
      U32RoundTrip(v.n);
      assert s[..4] == U32(v.n) && s[4..] == rest;
    case KUint64 => Uint64RoundTrip(v.n, rest);
    case KString => PutLength(v.s); StringRoundTrip(v.s, rest);
    case KRest => assert s == v.s;
    case KNames => PutLength(Join(v.names)); StringRoundTrip(Join(v.names), rest); NamesRoundTrip(v.names);
    case KInt => PutLength(IntBytes(v.i)); StringRoundTrip(IntBytes(v.i), rest); IntRoundTrip(v.i);
  }

  lemma PutLength(s: seq<byte>)
    ensures |PutString(s)| == 4 + |s|
  {
  }

  lemma Uint64RoundTrip(n: nat, rest: seq<byte>)
    requires n < U32_LIMIT * U32_LIMIT
    ensures var s := U32(n / U32_LIMIT) + U32(n % U32_LIMIT) + rest;
            && |s| >= 8 && FromU32(s[..4]) * U32_LIMIT + FromU32(s[4..8]) == n && s[8..] == rest
  {
    hide U32, FromU32;
    var a, b := n / U32_LIMIT, n % U32_LIMIT;
    var s := U32(a) + U32(b) + rest;
    U32RoundTrip(a);
    U32RoundTrip(b);
    assert s[..4] == U32(a) && s[4..8] == U32(b) && s[8..] == rest;
  }

  predicate AllTyped(ks: seq<Kind>, vs: seq<Value>) {
    |ks| == |vs| && forall i :: 0 <= i < |ks| ==> Typed(ks[i], vs[i])
  }

  function MarshalFields(ks: seq<Kind>, vs: seq<Value>): seq<byte>
    requires AllTyped(ks, vs)
  {
    if ks == [] then [] else MarshalField(ks[0], vs[0]) + MarshalFields(ks[1..], vs[1..])
  }

  function ParseFields(ks: seq<Kind>, s: seq<byte>): Option<seq<Value>> {
    if ks == [] then (if s == [] then Some([]) else None) else
    var f := ParseField(ks[0], s);
    if f.None? then None else
    var r := ParseFields(ks[1..], f.value.1);
    if r.None? then None else Some([f.value.0] + r.value)
  }

  /** Every field is faithful in its place. */
  predicate AllFaithful(ks: seq<Kind>, vs: seq<Value>)
    requires AllTyped(ks, vs)
  {
    ks == [] || (Faithful(ks[0], vs[0], MarshalFields(ks[1..], vs[1..])) && AllFaithful(ks[1..], vs[1..]))
  }

  /** Marshal: the message type, if there is one, then the fields. */
  function Marshal(tag: byte, ks: seq<Kind>, vs: seq<Value>): seq<byte>
    requires AllTyped(ks, vs)
  {
    (if tag > 0 then [tag] else []) + MarshalFields(ks, vs)
  }

  function Unmarshal(tag: byte, ks: seq<Kind>, s: seq<byte>): Option<seq<Value>> {
    if s == [] then None
    else if tag > 0 then (if s[0] != tag then None else ParseFields(ks, s[1..]))
    else ParseFields(ks, s)
  }

  lemma {:induction false} FieldsRoundTrip(ks: seq<Kind>, vs: seq<Value>)
    requires AllTyped(ks, vs) && AllFaithful(ks, vs)
    ensures ParseFields(ks, MarshalFields(ks, vs)) == Some(vs)
  {
    hide MarshalField, ParseField, Faithful;
    if ks != [] {
      FieldRoundTrip(ks[0], vs[0], MarshalFields(ks[1..], vs[1..]));
      FieldsRoundTrip(ks[1..], vs[1..]);
      assert [vs[0]] + vs[1..] == vs;
    }
  }

  /**
   For every list of field types and all values of them, Unmarshal inverts Marshal, exactly unless the
   whole message is empty: that one is refused.
   */
  lemma MessageRoundTrip(tag: byte, ks: seq<Kind>, vs: seq<Value>)
    requires AllTyped(ks, vs) && AllFaithful(ks, vs)
    ensures Unmarshal(tag, ks, Marshal(tag, ks, vs)) == Some(vs) <==> Marshal(tag, ks, vs) != []
  {
    hide MarshalFields, ParseFields, AllFaithful;
    FieldsRoundTrip(ks, vs);
    var s := Marshal(tag, ks, vs);
    if tag > 0 {
      assert s[1..] == MarshalFields(ks, vs);
    } else {
      assert s == MarshalFields(ks, vs);
    }
  }

  /** Types whose values have one encoding: a flag may be any byte but zero, a number may have leading bytes. */
  predicate Rigid(k: Kind) {
    !k.KBool? && !k.KInt?
  }

  lemma {:induction false} JoinSplit(s: seq<byte>)
    ensures Join(Split(s)) == s
  {
    if s != [] {
      JoinSplit(s[1..]);
      var r := Split(s[1..]);
      if s[0] == COMMA {
        assert ([[]] + r)[1..] == r;
        assert s == [COMMA] + s[1..];
      } else {
        var t := [[s[0]] + r[0]] + r[1..];
        assert t[1..] == r[1..];
        assert s == [s[0]] + s[1..];
        if |r| > 1 {
          assert [s[0]] + r[0] + [COMMA] + Join(r[1..]) == [s[0]] + (r[0] + [COMMA] + Join(r[1..]));
        }
      }
    }
  }

  lemma LongParsed(s: seq<byte>)
    requires |s| >= 8
    ensures var n := FromU32(s[..4]) * U32_LIMIT + FromU32(s[4..8]);
            U32(n / U32_LIMIT) + U32(n % U32_LIMIT) + s[8..] == s
  {
    hide U32, FromU32;
    FromU32Inverse(s[..4]);
    FromU32Inverse(s[4..8]);
    var a, b := FromU32(s[..4]), FromU32(s[4..8]);
    assert (a * U32_LIMIT + b) / U32_LIMIT == a && (a * U32_LIMIT + b) % U32_LIMIT == b;
    assert s == s[..4] + s[4..8] + s[8..];
  }

  /** What is read of such a field is what stands there. */
  lemma FieldParsed(k: Kind, s: seq<byte>)
    requires Rigid(k) && ParseField(k, s).Some?
    ensures var f := ParseField(k, s).value; Typed(k, f.0) && s == MarshalField(k, f.0) + f.1
  {
    hide U32, FromU32, PutString, ParseString, Split, Join;
    match k
    case KArray(len) => assert s == s[..len] + s[len..];
    case KUint8 => assert s == [s[0]] + s[1..];
    case KUint32 =>
      FromU32Inverse(s[..4]);
      assert s == s[..4] + s[4..];
    case KUint64 => LongParsed(s);
    case KString => StringParsed(s);
    case KRest => assert s == s + [];
    case KNames =>
      StringParsed(s);
      NamesParsed(ParseString(s).value.0);
  }

  lemma NamesParsed(s: seq<byte>)
    ensures Join(ParseNames(s)) == s
  {
    JoinSplit(s);
  }

  lemma {:induction false} FieldsParsed(ks: seq<Kind>, s: seq<byte>)
    requires (forall i :: 0 <= i < |ks| ==> Rigid(ks[i])) && ParseFields(ks, s).Some?
    ensures AllTyped(ks, ParseFields(ks, s).value) && s == MarshalFields(ks, ParseFields(ks, s).value)
    decreases ks
  {
    hide ParseField, MarshalField, Typed, Rigid;
    if ks != [] {
      var f := ParseField(ks[0], s).value;
      FieldParsed(ks[0], s);
      FieldsParsed(ks[1..], f.1);
      var r := ParseFields(ks[1..], f.1).value;
      assert ([f.0] + r)[1..] == r;
    }
  }

  /** The converse: of such fields nothing is read but what Marshal writes, whatever the bytes are. */
  lemma MessageParsed(tag: byte, ks: seq<Kind>, s: seq<byte>)
    requires (forall i :: 0 <= i < |ks| ==> Rigid(ks[i])) && Unmarshal(tag, ks, s).Some?
    ensures AllTyped(ks, Unmarshal(tag, ks, s).value) && s == Marshal(tag, ks, Unmarshal(tag, ks, s).value)
  {
    hide ParseFields, MarshalFields, AllTyped, Rigid;
    FieldsParsed(ks, if tag > 0 then s[1..] else s);
    if tag > 0 {
      assert s == [tag] + s[1..];
    } else {
      assert s == [] + s;
    }
  }

  /** marshalStruct: the fields one after the other. */
  method MarshalStruct(tag: byte, ks: seq<Kind>, vs: seq<Value>) returns (r: seq<byte>)
    requires AllTyped(ks, vs)
    ensures r == Marshal(tag, ks, vs)
  {
    hide MarshalField, Typed;
    r := if tag > 0 then [tag] else [];
    assert ks[0..] == ks && vs[0..] == vs;
    for i := 0 to |ks|
      invariant Marshal(tag, ks, vs) == r + MarshalFields(ks[i..], vs[i..])
    {
      var f := MarshalField(ks[i], vs[i]);
      ghost var rest := MarshalFields(ks[i + 1..], vs[i + 1..]);
      assert ks[i..][1..] == ks[i + 1..] && vs[i..][1..] == vs[i + 1..];
      assert r + (f + rest) == r + f + rest;
      r := r + f;
    }
  }

  /** Values read before the others, if those can be read. */
  function Preceded(done: seq<Value>, r: Option<seq<Value>>): Option<seq<Value>> {
    if r.None? then None else Some(done + r.value)
  }

  /** The loop of Unmarshal: it stops at the first field that cannot be read. */
  method UnmarshalStruct(tag: byte, ks: seq<Kind>, s: seq<byte>) returns (r: Option<seq<Value>>)
    ensures r == Unmarshal(tag, ks, s)
  {
    hide ParseField;
    if s == [] || (tag > 0 && s[0] != tag) {
      return None;
    }
    var data, done := if tag > 0 then s[1..] else s, [];
    assert ks[0..] == ks;
    PrecededNone(ParseFields(ks, data));
    for i := 0 to |ks|
      invariant Unmarshal(tag, ks, s) == Preceded(done, ParseFields(ks[i..], data))
    {
      var f := ParseField(ks[i], data);
      assert ks[i..][1..] == ks[i + 1..];
      if f.None? {
        return None;
      }
      PrecededNext(done, f.value.0, ParseFields(ks[i + 1..], f.value.1));
      done, data := done + [f.value.0], f.value.1;
    }
    assert done + [] == done;
    r := if data != [] then None else Some(done);
  }

  lemma PrecededNone(r: Option<seq<Value>>)
    ensures Preceded([], r) == r
  {
    assert r.Some? ==> [] + r.value == r.value;
  }

  lemma PrecededNext(done: seq<Value>, v: Value, r: Option<seq<Value>>)
    ensures Preceded(done, Preceded([v], r)) == Preceded(done + [v], r)
  {
    if r.Some? {
      assert done + ([v] + r.value) == done + [v] + r.value;
    }
  }

  /** marshalInt into a buffer of intLength bytes: sign byte where needed, magnitude, then the length in front. */
  method MarshalInt(to: array<byte>, n: int)
    requires to.Length == IntLength(n) < U32_LIMIT
    modifies to
    ensures to[..] == PutString(IntBytes(n))
  {
    hide U32, Bytes, BitLen, Complement, IntLength, IntBytes;
    IntBytesLength(n);
    IntBytesParts(n);
    var length := 0;
    if n < 0 {
      var bytes := Complement(Bytes(-n - 1));
      length := PutMagnitude(to, |bytes| == 0 || bytes[0] < 128, 255, bytes);
    } else if n > 0 {
      var bytes := Bytes(n);
      length := PutMagnitude(to, |bytes| > 0 && bytes[0] >= 128, 0, bytes);
    }
    PutFront(to, U32(length));
  }

  lemma IntBytesParts(n: int)
    ensures n == 0 ==> IntBytes(n) == []
    ensures n < 0 ==> var b := Complement(Bytes(-n - 1));
            IntBytes(n) == (if |b| == 0 || b[0] < 128 then [255] else []) + b
    ensures n > 0 ==> var b := Bytes(n); IntBytes(n) == (if |b| > 0 && b[0] >= 128 then [0] else []) + b
  {
    hide Bytes, Complement;
  }

  method PutFront(to: array<byte>, front: seq<byte>)
    requires |front| <= to.Length
    modifies to
    ensures to[..] == front + old(to[|front|..])
  {
    Place(to, 0, front);
    assert to[..] == to[0..|front|] + to[|front|..];
  }

  /** Behind the length field: a sign byte if the magnitude needs one, then the magnitude. */
  method PutMagnitude(to: array<byte>, pad: bool, sign: byte, bytes: seq<byte>) returns (length: nat)
    requires to.Length == 4 + (if pad then 1 else 0) + |bytes|
    modifies to
    ensures to[4..] == (if pad then [sign] else []) + bytes && length == to.Length - 4
  {
    var at := 4;
    if pad {
      to[4] := sign;
      at := 5;
    }
    Place(to, at, bytes);
    assert to[4..at] == to[..at][4..];
    assert to[4..] == to[4..at] + to[at..at + |bytes|];
    length := at - 4 + |bytes|;
  }

  // --------------------------------------------------------------------------
  // Tuples of certificate options (ssh/certs.go)
  // --------------------------------------------------------------------------

  type Options = map<seq<byte>, seq<byte>>

  /** Go's order on strings. */
  predicate Less(a: seq<byte>, b: seq<byte>)
    decreases a
  {
    b != [] && (a == [] || a[0] < b[0] || (a[0] == b[0] && Less(a[1..], b[1..])))
  }

  lemma {:induction false} LessTransitive(a: seq<byte>, b: seq<byte>, c: seq<byte>)
    requires Less(a, b) && Less(b, c)
    ensures Less(a, c)
    decreases a
  {
    if a != [] && a[0] == b[0] == c[0] {
      LessTransitive(a[1..], b[1..], c[1..]);
    }
  }

  lemma {:induction false} LessTotal(a: seq<byte>, b: seq<byte>)
    ensures a == b || Less(a, b) || Less(b, a)
    ensures !Less(a, a) && !(Less(a, b) && Less(b, a))
    decreases a
  {
    if a != [] && b != [] {
      LessTotal(a[1..], b[1..]);
      assert a == [a[0]] + a[1..] && b == [b[0]] + b[1..];
    }
    if a != [] {
      LessTotal(a[1..], a[1..]);
    }
  }

  ghost predicate Ascending(ks: seq<seq<byte>>) {
    forall i, j :: 0 <= i < j < |ks| ==> Less(ks[i], ks[j])
  }

  /** One option: its name, and its value wrapped twice unless it is empty. */
  function PutTuple(k: seq<byte>, v: seq<byte>): seq<byte> {
    PutString(k) + PutString(if v == [] then [] else PutString(v))
  }

  /** marshalTuples, the sorted names given. */
  function MarshalTuples(m: Options, ks: seq<seq<byte>>): seq<byte>
    requires forall i :: 0 <= i < |ks| ==> ks[i] in m
  {
    if ks == [] then [] else PutTuple(ks[0], m[ks[0]]) + MarshalTuples(m, ks[1..])
  }

  /** The value field of an option. */
  function ParseOptionValue(s: seq<byte>): Option<seq<byte>> {
    if s == [] then Some([]) else
    var p := ParseString(s);
    if p.None? || p.value.1 != [] then None else Some(p.value.0)
  }

  /** parseTuples behind a last name: names must go up. */
  function ParseTuples(s: seq<byte>, last: Option<seq<byte>>): Option<Options>
    decreases |s|
  {
    if s == [] then Some(map[]) else
    var k := ParseString(s);
    if k.None? then None else
    if last.Some? && !Less(last.value, k.value.0) then None else
    ParseShrinks(s);
    var v := ParseString(k.value.1);
    if v.None? then None else
    ParseShrinks(k.value.1);
    var x := ParseOptionValue(v.value.0);
    if x.None? then None else
    var r := ParseTuples(v.value.1, Some(k.value.0));
    if r.None? then None else Some(map[k.value.0 := x.value] + r.value)
  }

  lemma ParseShrinks(s: seq<byte>)
    ensures ParseString(s).Some? ==> |ParseString(s).value.1| < |s|
  {
  }

  /** The options for some of the names. */
  ghost function Part(m: Options, ks: seq<seq<byte>>): Options {
    map k | k in m && k in ks :: m[k]
  }

  lemma TupleStep(k: seq<byte>, v: seq<byte>, rest: seq<byte>)
    requires |PutTuple(k, v)| + |rest| < U32_LIMIT
    ensures var s := PutTuple(k, v) + rest;
            var p := ParseString(s);
            && p.Some? && p.value.0 == k
            && var q := ParseString(p.value.1);
            && q.Some? && ParseOptionValue(q.value.0) == Some(v) && q.value.1 == rest
  {
    hide ParseString, PutString;
    var w := if v == [] then [] else PutString(v);
    PutLength(k);
    PutLength(w);
    PutLength(v);
    StringRoundTrip(k, PutString(w) + rest);
    StringRoundTrip(w, rest);
    assert PutTuple(k, v) + rest == PutString(k) + (PutString(w) + rest);
    if v != [] {
      StringRoundTrip(v, []);
      assert PutString(v) + [] == PutString(v);
    }
  }

  lemma {:induction false} TuplesParse(m: Options, ks: seq<seq<byte>>, last: Option<seq<byte>>)
    requires (forall i :: 0 <= i < |ks| ==> ks[i] in m) && Ascending(ks) && |MarshalTuples(m, ks)| < U32_LIMIT
    requires last.Some? && ks != [] ==> Less(last.value, ks[0])
    ensures ParseTuples(MarshalTuples(m, ks), last) == Some(Part(m, ks))
    decreases ks
  {
    hide ParseString, PutTuple, ParseOptionValue, Less;
    if ks == [] {
      assert Part(m, ks) == map[];
    } else {
      var rest := MarshalTuples(m, ks[1..]);
      TupleStep(ks[0], m[ks[0]], rest);
      TuplesParse(m, ks[1..], Some(ks[0]));
      TupleNotEmpty(ks[0], m[ks[0]]);
      PartStep(m, ks);
    }
  }

  lemma TupleNotEmpty(k: seq<byte>, v: seq<byte>)
    ensures PutTuple(k, v) != []
  {
    PutLength(k);
  }

  lemma PartStep(m: Options, ks: seq<seq<byte>>)
    requires ks != [] && ks[0] in m && Ascending(ks)
    ensures map[ks[0] := m[ks[0]]] + Part(m, ks[1..]) == Part(m, ks)
  {
    hide Less;
    assert forall k :: k in ks <==> k == ks[0] || k in ks[1..];
  }

  /** Every map of options reads back from its sorted encoding. */
  lemma TuplesRoundTrip(m: Options, ks: seq<seq<byte>>)
    requires (forall k :: k in m <==> k in ks) && Ascending(ks) && |MarshalTuples(m, ks)| < U32_LIMIT
    ensures ParseTuples(MarshalTuples(m, ks), None) == Some(m)
  {
    TuplesParse(m, ks, None);
    assert Part(m, ks) == m;
  }

  /** The encodings of an option's value: empty ones may be left out. */
  predicate OptionBytes(w: seq<byte>, v: seq<byte>) {
    w == PutString(v) || (v == [] && w == [])
  }

  lemma OptionParsed(w: seq<byte>)
    requires ParseOptionValue(w).Some?
    ensures OptionBytes(w, ParseOptionValue(w).value)
  {
    hide ParseString, PutString;
    if w != [] {
      StringParsed(w);
      assert w == PutString(ParseString(w).value.0) + [];
    }
  }

  function Tuples(ks: seq<seq<byte>>, ws: seq<seq<byte>>): seq<byte>
    requires |ks| == |ws|
  {
    if ks == [] then [] else PutString(ks[0]) + PutString(ws[0]) + Tuples(ks[1..], ws[1..])
  }

  /** The bytes are the options of m in strictly ascending order of their names, all of them above last. */
  ghost predicate Encodes(s: seq<byte>, last: Option<seq<byte>>, m: Options, ks: seq<seq<byte>>, ws: seq<seq<byte>>) {
    && |ks| == |ws| && Ascending(ks) && (last.Some? && ks != [] ==> Less(last.value, ks[0]))
    && (forall k :: k in m <==> k in ks)
    && (forall i :: 0 <= i < |ks| ==> OptionBytes(ws[i], m[ks[i]]))
    && s == Tuples(ks, ws)
  }

  /** The first option of what parses. */
  lemma TupleParsed(s: seq<byte>, last: Option<seq<byte>>)
    returns (k: seq<byte>, w: seq<byte>, v: seq<byte>, rest: seq<byte>)
    requires s != [] && ParseTuples(s, last).Some?
    ensures s == PutString(k) + PutString(w) + rest && |rest| < |s| && OptionBytes(w, v)
    ensures last.Some? ==> Less(last.value, k)
    ensures ParseTuples(rest, Some(k)).Some?
    ensures ParseTuples(s, last).value == map[k := v] + ParseTuples(rest, Some(k)).value
  {
    hide ParseString, PutString, ParseOptionValue, OptionBytes, Less;
    var p := ParseString(s).value;
    StringParsed(s);
    ParseShrinks(s);
    var q := ParseString(p.1).value;
    StringParsed(p.1);
    ParseShrinks(p.1);
    OptionParsed(q.0);
    k, w, v, rest := p.0, q.0, ParseOptionValue(q.0).value, q.1;
  }

  /** What is read is what the bytes say: no name twice, none out of order, nothing left over. */
  lemma {:induction false} TuplesParsed(s: seq<byte>, last: Option<seq<byte>>)
    returns (ks: seq<seq<byte>>, ws: seq<seq<byte>>)
    requires ParseTuples(s, last).Some?
    ensures Encodes(s, last, ParseTuples(s, last).value, ks, ws)
    decreases |s|
  {
    if s == [] {
      return [], [];
    }
    hide ParseTuples, PutString, OptionBytes, Less, Encodes;
    var k, w, v, rest := TupleParsed(s, last);
    ks, ws := TuplesParsed(rest, Some(k));
    TupleFirst(k, v, w, ParseTuples(rest, Some(k)).value, rest, last, ks, ws);
    ks, ws := [k] + ks, [w] + ws;
  }

  lemma TupleFirst(k: seq<byte>, v: seq<byte>, w: seq<byte>, m: Options, rest: seq<byte>, last: Option<seq<byte>>,
                   ks: seq<seq<byte>>, ws: seq<seq<byte>>)
    requires Encodes(rest, Some(k), m, ks, ws) && OptionBytes(w, v) && (last.Some? ==> Less(last.value, k))
    ensures Encodes(PutString(k) + PutString(w) + rest, last, map[k := v] + m, [k] + ks, [w] + ws)
  {
    hide PutString, OptionBytes, Less, Ascending;
    NotAbove(k, ks);
    FirstAscending(k, ks);
    FirstValue(k, v, w, m, ks, ws);
    assert ([k] + ks)[1..] == ks && ([w] + ws)[1..] == ws;
  }

  lemma FirstAscending(k: seq<byte>, ks: seq<seq<byte>>)
    requires Ascending(ks) && (ks != [] ==> Less(k, ks[0]))
    ensures Ascending([k] + ks)
  {
    hide Less;
    if ks != [] {
      FirstAscends(k, ks);
    }
  }

  lemma FirstValue(k: seq<byte>, v: seq<byte>, w: seq<byte>, m: Options, ks: seq<seq<byte>>, ws: seq<seq<byte>>)
    requires |ks| == |ws| && k !in ks && (forall x :: x in m <==> x in ks) && OptionBytes(w, v)
    requires forall i :: 0 <= i < |ks| ==> OptionBytes(ws[i], m[ks[i]])
    ensures var n := map[k := v] + m;
            && (forall x :: x in n <==> x in [k] + ks)
            && (forall i :: 0 <= i < |ks| + 1 ==> OptionBytes(([w] + ws)[i], n[([k] + ks)[i]]))
  {
    hide OptionBytes;
    var n, ls, us := map[k := v] + m, [k] + ks, [w] + ws;
    forall i | 0 <= i < |ls| ensures ls[i] in n && OptionBytes(us[i], n[ls[i]]) {
      if i > 0 {
        assert ls[i] == ks[i - 1] && us[i] == ws[i - 1] && ks[i - 1] in m;
      }
    }
  }

  lemma NotAbove(k: seq<byte>, ks: seq<seq<byte>>)
    requires Ascending(ks) && (ks != [] ==> Less(k, ks[0]))
    ensures k !in ks
  {
    hide Less;
    if k in ks {
      var i :| 0 <= i < |ks| && ks[i] == k;
      LessTotal(k, ks[0]);
    }
  }

  /** The names in any order, then sorted. */
  method SortedNames(m: Options) returns (ks: seq<seq<byte>>)
    ensures (forall k :: k in m <==> k in ks) && Ascending(ks)
  {
    ks := [];
    var left := m.Keys;
    while left != {}
      invariant left <= m.Keys && Ascending(ks) && forall k :: k in ks <==> k in m.Keys - left
      decreases |left|
    {
      hide Ascending;
      var k :| k in left;
      ks := InsertName(ks, k);
      left := left - {k};
    }
  }

  method InsertName(ls: seq<seq<byte>>, k: seq<byte>) returns (ks: seq<seq<byte>>)
    requires Ascending(ls) && k !in ls
    ensures Ascending(ks) && forall x :: x in ks <==> x == k || x in ls
    decreases ls
  {
    if ls == [] {
      return [k];
    }
    LessTotal(k, ls[0]);
    if Less(k, ls[0]) {
      ks := [k] + ls;
      FirstAscends(k, ls);
    } else {
      var r := InsertName(ls[1..], k);
      ks := [ls[0]] + r;
      forall j | 0 <= j < |r|
        ensures Less(ls[0], r[j])
      {
        assert r[j] in r;
        assert r[j] != k ==> r[j] in ls[1..];
      }
    }
  }

  lemma FirstAscends(k: seq<byte>, ls: seq<seq<byte>>)
    requires Ascending(ls) && ls != [] && Less(k, ls[0])
    ensures Ascending([k] + ls)
  {
    hide Less;
    forall j | 0 < j < |ls|
      ensures Less(k, ls[j])
    {
      LessTransitive(k, ls[0], ls[j]);
    }
  }

  /** marshalTuples: whatever order the names come in, the result reads back as the map. */
  method SerializeTuples(m: Options) returns (r: seq<byte>, ks: seq<seq<byte>>)
    ensures (forall k :: k in m <==> k in ks) && Ascending(ks) && r == MarshalTuples(m, ks)
    ensures |r| < U32_LIMIT ==> ParseTuples(r, None) == Some(m)
  {
    hide PutTuple, ParseTuples, Ascending;
    ks := SortedNames(m);
    r := [];
    assert ks[0..] == ks && [] + MarshalTuples(m, ks) == MarshalTuples(m, ks);
    for i := 0 to |ks|
      invariant r + MarshalTuples(m, ks[i..]) == MarshalTuples(m, ks)
    {
      var t := PutTuple(ks[i], m[ks[i]]);
      ghost var rest := MarshalTuples(m, ks[i + 1..]);
      assert ks[i..][1..] == ks[i + 1..];
      assert r + (t + rest) == r + t + rest;
      r := r + t;
    }
    assert r + [] == r;
    if |r| < U32_LIMIT {
      TuplesRoundTrip(m, ks);
    }
  }

  /** Options read before the others, if those can be read. */
  function Joined(done: Options, r: Option<Options>): Option<Options> {
    if r.None? then None else Some(done + r.value)
  }

  /** The loop of parseTuples. */
  method ParseTuplesLoop(s: seq<byte>) returns (r: Option<Options>)
    ensures r == ParseTuples(s, None)
  {
    hide ParseString, Less, ParseOptionValue;
    var data, tups: Options := s, map[];
    var last: Option<seq<byte>> := None;
    JoinedNone(ParseTuples(s, None));
    while data != []
      invariant ParseTuples(s, None) == Joined(tups, ParseTuples(data, last))
      decreases |data|
    {
      var k := ParseString(data);
      if k.None? || (last.Some? && !Less(last.value, k.value.0)) {
        return None;
      }
      ParseShrinks(data);
      var v := ParseString(k.value.1);
      if v.None? {
        return None;
      }
      ParseShrinks(k.value.1);
      var x := ParseOptionValue(v.value.0);
      if x.None? {
        return None;
      }
      JoinedNext(tups, k.value.0, x.value, ParseTuples(v.value.1, Some(k.value.0)));
      tups, last, data := tups[k.value.0 := x.value], Some(k.value.0), v.value.1;
    }
    assert tups + map[] == tups;
    r := Some(tups);
  }

  lemma JoinedNone(r: Option<Options>)
    ensures Joined(map[], r) == r
  {
    assert r.Some? ==> map[] + r.value == r.value;
  }

  lemma JoinedNext(done: Options, k: seq<byte>, v: seq<byte>, r: Option<Options>)
    ensures Joined(done, Joined(map[k := v], r)) == Joined(done[k := v], r)
  {
    assert r.Some? ==> done + (map[k := v] + r.value) == done[k := v] + r.value;
  }
}
