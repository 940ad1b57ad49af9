/** The big-endian 32-bit integers of the SSH and OTR wire formats. */
module BigEndian {
  import opened Bits
  import opened ByteSeqs

  const U32_LIMIT: int := 0x1_0000_0000

  function U32(n: nat): (s: seq<byte>)
    requires n < U32_LIMIT
    ensures |s| == 4
  {
    var h := n / 0x100;
    var t := h / 0x100;
    [t / 0x100, t % 0x100, h % 0x100, n % 0x100]
  }

  function FromU32(s: seq<byte>): (n: nat)
    requires |s| == 4
    ensures n < U32_LIMIT
  {
    0x100 * (0x100 * (0x100 * s[0] as int + s[1] as int) + s[2] as int) + s[3] as int
  }

  lemma U32RoundTrip(n: nat)
    requires n < U32_LIMIT
    ensures FromU32(U32(n)) == n
  {
  }

  lemma FromU32Inverse(s: seq<byte>)
    requires |s| == 4
    ensures U32(FromU32(s)) == s
  {
    var t := 0x100 * s[0] as int + s[1] as int;
    var h := 0x100 * t + s[2] as int;
    assert (0x100 * h + s[3] as int) / 0x100 == h && h / 0x100 == t;
  }

  /** The most significant byte comes first. */
  lemma FromU32IsBig(s: seq<byte>)
    requires |s| == 4
    ensures FromU32(s) == BigValue(s)
  {
    var a, b, c := s[..3], s[..2], s[..1];
    assert a[..2] == b && b[..1] == c && c[..0] == [];
    assert BigValue(c) == s[0] as int && BigValue(b) == 256 * BigValue(c) + s[1] as int;
    assert BigValue(a) == 256 * BigValue(b) + s[2] as int;
  }

  lemma U32IsBig(n: nat)
    requires n < U32_LIMIT
    ensures BigValue(U32(n)) == n
  {
    U32RoundTrip(n);
    FromU32IsBig(U32(n));
  }
}
