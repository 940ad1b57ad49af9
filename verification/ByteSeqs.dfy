/** Byte strings: joining, masking and the numbers they encode. */
module ByteSeqs {
  import opened Bits

  function Concat(bufs: seq<seq<byte>>): seq<byte> {
    if bufs == [] then [] else bufs[0] + Concat(bufs[1..])
  }

  lemma {:induction false} ConcatAppend(bufs: seq<seq<byte>>, b: seq<byte>)
    ensures Concat(bufs + [b]) == Concat(bufs) + b
  {
    if bufs != [] {
      ConcatAppend(bufs[1..], b);
      assert (bufs + [b])[1..] == bufs[1..] + [b];
    } else {
      assert bufs + [b] == [b] && [b][1..] == [];
    }
  }

  /** Masks a string with the beginning of another. */
  function XorSeq(a: seq<byte>, b: seq<byte>): (r: seq<byte>)
    requires |b| <= |a|
    ensures |r| == |b|
  {
    if b == [] then [] else [XorByte(a[0], b[0])] + XorSeq(a[1..], b[1..])
  }

  /** The number that a little-endian byte string encodes. */
  function Little(s: seq<byte>): nat {
    if s == [] then 0 else s[0] + 256 * Little(s[1..])
  }

  /** The number that a big-endian byte string encodes. */
  function BigValue(s: seq<byte>): nat {
    if s == [] then 0 else 256 * BigValue(s[..|s| - 1]) + s[|s| - 1] as int
  }

  /** 256^n, the number of byte strings of length n. */
  function Pow256(n: nat): (r: nat)
    ensures r > 0
  {
    if n == 0 then 1 else 256 * Pow256(n - 1)
  }

  /** Stores a string into part of an array. */
  method Place(buf: array<byte>, off: nat, s: seq<byte>)
    requires off + |s| <= buf.Length
    modifies buf
    ensures buf[off..off + |s|] == s && buf[..off] == old(buf[..off]) && buf[off + |s|..] == old(buf[off + |s|..])
  {
    for i := 0 to |s|
      invariant buf[off..off + i] == s[..i] && buf[..off] == old(buf[..off])
                && buf[off + |s|..] == old(buf[off + |s|..])
    {
      buf[off + i] := s[i];
    }
  }

  /** The copy of Go: as much as there is room for. */
  method Copy(buf: array<byte>, at: nat, data: seq<byte>) returns (n: nat)
    requires at <= buf.Length
    modifies buf
    ensures n == if |data| <= buf.Length - at then |data| else buf.Length - at
    ensures buf[..at] == old(buf[..at]) && buf[at..at + n] == data[..n] && buf[at + n..] == old(buf[..])[at + n..]
  {
    n := if |data| <= buf.Length - at then |data| else buf.Length - at;
    Place(buf, at, data[..n]);
  }

  method Assign(a: array<byte>, s: seq<byte>)
    requires a.Length == |s|
    modifies a
    ensures a[..] == s
  {
    Place(a, 0, s);
    assert a[..] == a[0..|s|];
  }
}
