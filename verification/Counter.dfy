/** Big-endian counters in byte arrays, as OTR and AES-GCM use them. */
module Counter {
  import opened Modular
  import opened Bits
  import opened ByteSeqs

  lemma {:induction false} ValueBelow(s: seq<byte>)
    ensures BigValue(s) < Pow256(|s|)
  {
    if s != [] {
      ValueBelow(s[..|s| - 1]);
    }
  }

  /** bytes.Compare on equal lengths: the first difference decides. */
  predicate Less(a: seq<byte>, b: seq<byte>)
    requires |a| == |b|
  {
    a != [] && (a[0] < b[0] || (a[0] == b[0] && Less(a[1..], b[1..])))
  }

  lemma {:induction false} ValueFront(s: seq<byte>)
    requires s != []
    ensures BigValue(s) == s[0] as int * Pow256(|s| - 1) + BigValue(s[1..])
  {
    var n := |s| - 1;
    if n > 0 {
      ValueFront(s[..n]);
      assert s[..n][1..] == s[1..][..n - 1] && s[..n][0] == s[0];
      MulAssoc(256, s[0], Pow256(n - 1));
      MulAssoc(s[0], 256, Pow256(n - 1));
    } else {
      assert s[..0] == [] && s[1..] == [];
    }
  }

  /** Comparing counters as byte strings is comparing their values. */
  lemma {:induction false} LessIsValue(a: seq<byte>, b: seq<byte>)
    requires |a| == |b|
    ensures Less(a, b) <==> BigValue(a) < BigValue(b)
  {
    if a != [] {
      LessIsValue(a[1..], b[1..]);
      ValueFront(a);
      ValueFront(b);
      ValueBelow(a[1..]);
      ValueBelow(b[1..]);
      var r := Pow256(|a| - 1);
      Digits(a[0], b[0], r, BigValue(a[1..]), BigValue(b[1..]));
    }
  }

  lemma Digits(x: int, y: int, r: nat, u: nat, v: nat)
    requires u < r && v < r
    ensures x * r + u < y * r + v <==> x < y || (x == y && u < v)
  {
    if x < y {
      Above(x, y, r);
    } else if y < x {
      Above(y, x, r);
    }
  }

  lemma Above(x: int, y: int, r: nat)
    requires x < y
    ensures x * r + r <= y * r
  {
    MulNat(y - x - 1, r);
    assert y * r == x * r + r + (y - x - 1) * r;
  }

  /** Adds one to the bytes from lo on, and wraps from all ones to zero. */
  method Increment(a: array<byte>, lo: nat)
    requires lo <= a.Length
    modifies a
    ensures a[..lo] == old(a[..lo])
    ensures BigValue(a[lo..]) == (old(BigValue(a[lo..])) + 1) % Pow256(a.Length - lo)
  {
    hide BigValue, Pow256;
    var i := a.Length;
    ghost var was := a[lo..];
    while i > lo
      invariant lo <= i <= a.Length && forall k :: 0 <= k < i ==> a[k] == old(a[k])
      invariant forall k :: i <= k < a.Length ==> a[k] == 0 && old(a[k]) == 255
    {
      i := i - 1;
      if a[i] < 255 {
        a[i] := a[i] + 1;
        assert a[lo..][..i - lo] == was[..i - lo];
        Carried(was, a[lo..], i - lo);
        ValueBelow(a[lo..]);
        Modulo(BigValue(a[lo..]), Pow256(a.Length - lo));
        return;
      }
      a[i] := 0;
    }
    Wrapped(was, a[lo..]);
    Modulo(0, Pow256(a.Length - lo));
  }

  lemma Modulo(x: nat, r: nat)
    requires x < r
    ensures x % r == x && r % r == 0
  {
  }

  /** A digit below 255 goes up by one and the 255s behind it become zero. */
  lemma {:induction false} Carried(was: seq<byte>, now: seq<byte>, i: nat)
    requires |was| == |now| && i < |was| && was[i] < 255 && now[i] as int == was[i] as int + 1 && now[..i] == was[..i]
    requires forall k :: i < k < |was| ==> now[k] == 0 && was[k] == 255
    ensures BigValue(now) == BigValue(was) + 1
  {
    var n := |was| - 1;
    if i < n {
      assert was[..n][..i] == was[..i] && now[..n][..i] == now[..i];
      Carried(was[..n], now[..n], i);
    }
  }

  lemma {:induction false} Wrapped(was: seq<byte>, now: seq<byte>)
    requires |was| == |now| && forall k :: 0 <= k < |was| ==> now[k] == 0 && was[k] == 255
    ensures BigValue(now) == 0 && BigValue(was) + 1 == Pow256(|was|)
  {
    if was != [] {
      Wrapped(was[..|was| - 1], now[..|now| - 1]);
    }
  }
}
