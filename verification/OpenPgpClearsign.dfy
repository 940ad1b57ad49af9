/**
 Cleartext signatures of OpenPGP (openpgp/clearsign/clearsign.go; section 7 of RFC 4880): the writer
 that escapes dashes and feeds the hash byte by byte, and the loop of Decode over the body.  What is
 hashed when signing is what Decode gives out for checking.
 */
module OpenPgpClearsign {
  import opened Bits
  import opened Wrappers

  const LF: byte := 10
  const CR: byte := 13
  const DASH: byte := 45
  const SPACE: byte := 32
  const TAB: byte := 9

  predicate White(b: byte) {
    b == SPACE || b == TAB || b == CR
  }

  // --------------------------------------------------------------------------
  // The text, line by line
  // --------------------------------------------------------------------------

  /** A line without white space at its end. */
  function Strip(s: seq<byte>): (r: seq<byte>)
    ensures r <= s && (r != [] ==> !White(r[|r| - 1]))
  {
    if s == [] then [] else if White(s[|s| - 1]) then Strip(s[..|s| - 1]) else s
  }

  /** Lines joined by CRLF, with none at the end: what a text signature covers. */
  function JoinCrlf(ls: seq<seq<byte>>): seq<byte> {
    if ls == [] then [] else if |ls| == 1 then ls[0] else JoinCrlf(ls[..|ls| - 1]) + [CR, LF] + ls[|ls| - 1]
  }

  function Escape(s: seq<byte>): seq<byte> {
    if s != [] && s[0] == DASH then [DASH, SPACE] + s else s
  }

  /** Every line with its end of line. */
  function Ended(ls: seq<seq<byte>>): seq<byte> {
    if ls == [] then [] else Ended(ls[..|ls| - 1]) + ls[|ls| - 1] + [LF]
  }

  function EscapeAll(ls: seq<seq<byte>>): seq<seq<byte>> {
    if ls == [] then [] else EscapeAll(ls[..|ls| - 1]) + [Escape(ls[|ls| - 1])]
  }

  /** Splits a message into its finished lines, stripped, and the bytes of the last one. */
  function Scan(msg: seq<byte>): (seq<seq<byte>>, seq<byte>) {
    if msg == [] then ([], []) else
    var r, b := Scan(msg[..|msg| - 1]), msg[|msg| - 1];
    if b == LF then (r.0 + [Strip(r.1)], []) else (r.0, r.1 + [b])
  }

  /** The stripped lines of a message; an end of line at the very end starts no further line. */
  function LinesOf(msg: seq<byte>): seq<seq<byte>> {
    var r := Scan(msg);
    if r.1 == [] then r.0 else r.0 + [Strip(r.1)]
  }

  // --------------------------------------------------------------------------
  // The writer
  // --------------------------------------------------------------------------

  datatype Escaper = Escaper(out: seq<byte>, hashed: seq<byte>, atBeginningOfLine: bool, isFirstLine: bool,
      whitespace: seq<byte>)

  const FRESH: Escaper := Escaper([], [], true, true, [])

  /** One byte of Write. */
  function Feed(d: Escaper, b: byte): Escaper {
    var h := if d.atBeginningOfLine && !d.isFirstLine then d.hashed + [CR, LF] else d.hashed;
    var first := if d.atBeginningOfLine then false else d.isFirstLine;
    if White(b) then Escaper(d.out, h, false, first, d.whitespace + [b])
    else if d.atBeginningOfLine then
      if b == DASH then Escaper(d.out + [DASH, SPACE] + [b], h + [b], false, first, d.whitespace)
      else if b == LF then Escaper(d.out + [b], h, true, first, d.whitespace)
      else Escaper(d.out + [b], h + [b], false, first, d.whitespace)
    else
      if b == LF then Escaper(d.out + [b], h, true, first, [])
      else Escaper(d.out + d.whitespace + [b], h + d.whitespace + [b], false, first, [])
  }

  function FeedAll(d: Escaper, data: seq<byte>): Escaper {
    if data == [] then d else Feed(FeedAll(d, data[..|data| - 1]), data[|data| - 1])
  }

  /** The body as Close leaves it. */
  function Finished(d: Escaper): seq<byte> {
    if d.atBeginningOfLine then d.out else d.out + [LF]
  }

  /** However the message is cut into writes, the state is the same. */
  lemma {:induction false} FeedAppend(d: Escaper, a: seq<byte>, b: seq<byte>)
    ensures FeedAll(d, a + b) == FeedAll(FeedAll(d, a), b)
    decreases b
  {
    if b == [] {
      assert a + b == a;
    } else {
      FeedAppend(d, a, b[..|b| - 1]);
      assert (a + b)[..|a + b| - 1] == a + b[..|b| - 1];
    }
  }

  class DashEscaper {
    var d: Escaper

    constructor ()
      ensures d == FRESH
    {
      d := FRESH;
    }

    method Write(data: seq<byte>)
      modifies this
      ensures d == FeedAll(old(d), data)
    {
      for i := 0 to |data|
        invariant d == FeedAll(old(d), data[..i])
      {
        assert data[..i + 1][..i] == data[..i];
        d := Feed(d, data[i]);
      }
      assert data[..|data|] == data;
    }

    method Close()
      modifies this
      ensures d.out == Finished(old(d)) && d.hashed == old(d.hashed)
    {
      if !d.atBeginningOfLine {
        d := d.(out := d.out + [LF]);
      }
    }
  }

  /** The state of the writer in the middle of a line. */
  function StateFor(done: seq<seq<byte>>, cur: seq<byte>): Escaper {
    var body := Strip(cur);
    Escaper(Ended(EscapeAll(done)) + Escape(body),
            JoinCrlf(if cur == [] then done else done + [body]),
            cur == [], done == [] && cur == [], cur[|body|..])
  }

  lemma StripNext(cur: seq<byte>, b: byte)
    ensures Strip(cur + [b]) == if White(b) then Strip(cur) else cur + [b]
  {
    assert (cur + [b])[..|cur|] == cur;
  }

  lemma JoinNext(ls: seq<seq<byte>>, l: seq<byte>)
    ensures JoinCrlf(ls + [l]) == (if ls == [] then [] else JoinCrlf(ls) + [CR, LF]) + l
  {
    assert (ls + [l])[..|ls|] == ls;
  }

  lemma EndedNext(ls: seq<seq<byte>>, l: seq<byte>)
    ensures Ended(EscapeAll(ls + [l])) == Ended(EscapeAll(ls)) + Escape(l) + [LF]
  {
    hide Escape;
    assert (ls + [l])[..|ls|] == ls;
    var e := EscapeAll(ls) + [Escape(l)];
    assert e[..|e| - 1] == EscapeAll(ls);
  }

  /** The line ends: white space in front of it is dropped. */
  lemma FeedLf(done: seq<seq<byte>>, cur: seq<byte>)
    ensures Feed(StateFor(done, cur), LF) == StateFor(done + [Strip(cur)], [])
  {
    hide JoinCrlf, Ended, EscapeAll;
    var body := Strip(cur);
    JoinNext(done, body);
    EndedNext(done, body);
    assert Ended(EscapeAll(done + [body])) + [] == Ended(EscapeAll(done + [body]));
    if cur == [] {
      assert JoinCrlf(done + [[]]) == (if done == [] then [] else JoinCrlf(done) + [CR, LF]);
      if done == [] {
        JoinNone();
      }
    }
  }

  lemma JoinNone()
    ensures JoinCrlf([]) == [] && Ended([]) == []
  {
  }

  /** White space is kept back. */
  lemma FeedWhite(done: seq<seq<byte>>, cur: seq<byte>, b: byte)
    requires White(b)
    ensures Feed(StateFor(done, cur), b) == StateFor(done, cur + [b])
  {
    hide JoinCrlf, Ended, EscapeAll;
    var body := Strip(cur);
    StripNext(cur, b);
    JoinNext(done, body);
    assert (cur + [b])[|body|..] == cur[|body|..] + [b];
    if cur == [] && done == [] {
      JoinNone();
    }
  }

  /** Text lets the white space before it through. */
  lemma FeedText(done: seq<seq<byte>>, cur: seq<byte>, b: byte)
    requires !White(b) && b != LF
    ensures Feed(StateFor(done, cur), b) == StateFor(done, cur + [b])
  {
    hide JoinCrlf, Ended, EscapeAll;
    if cur == [] {
      FeedFirst(done, b);
      assert cur + [b] == [b];
    } else {
      FeedMore(done, cur, b);
    }
  }

  lemma FeedFirst(done: seq<seq<byte>>, b: byte)
    requires !White(b) && b != LF
    ensures Feed(StateFor(done, []), b) == StateFor(done, [b])
  {
    hide JoinCrlf, Ended, EscapeAll;
    StripNext([], b);
    assert [] + [b] == [b] && Strip([]) == [];
    JoinNext(done, [b]);
    JoinNone();
  }

  lemma FeedMore(done: seq<seq<byte>>, cur: seq<byte>, b: byte)
    requires !White(b) && b != LF && cur != []
    ensures Feed(StateFor(done, cur), b) == StateFor(done, cur + [b])
  {
    hide JoinCrlf, Ended, EscapeAll, Strip, Escape;
    var body := Strip(cur);
    StripPrefix(cur);
    var ws := cur[|body|..];
    var e, j := Ended(EscapeAll(done)), if done == [] then [] else JoinCrlf(done) + [CR, LF];
    StripNext(cur, b);
    JoinNext(done, body);
    JoinNext(done, cur + [b]);
    EscapeExtends(body, ws, b, cur);
    Regroup(e, Escape(body), ws, b, Escape(cur + [b]));
    Regroup(j, body, ws, b, cur + [b]);
  }

  lemma StripPrefix(s: seq<byte>)
    ensures |Strip(s)| <= |s| && s == Strip(s) + s[|Strip(s)|..]
  {
  }

  lemma Regroup(e: seq<byte>, a: seq<byte>, ws: seq<byte>, b: byte, all: seq<byte>)
    requires a + ws + [b] == all
    ensures e + a + ws + [b] == e + all
  {
  }

  lemma EscapeExtends(body: seq<byte>, ws: seq<byte>, b: byte, cur: seq<byte>)
    requires body == Strip(cur) && cur == body + ws && cur != []
    ensures Escape(body) + ws + [b] == Escape(cur + [b])
  {
    if body == [] {
      AllWhite(cur);
      assert cur == ws && White(cur[0]);
      assert Escape(cur + [b]) == cur + [b];
    } else {
      assert (cur + [b])[0] == body[0];
    }
  }

  lemma {:induction false} AllWhite(s: seq<byte>)
    requires Strip(s) == []
    ensures forall i :: 0 <= i < |s| ==> White(s[i])
  {
    if s != [] {
      AllWhite(s[..|s| - 1]);
    }
  }

  /** What the writer has done after any message: the lines, stripped and escaped, and their hash. */
  lemma {:induction false} Written(msg: seq<byte>)
    ensures FeedAll(FRESH, msg) == StateFor(Scan(msg).0, Scan(msg).1)
  {
    hide Feed, JoinCrlf, Ended, EscapeAll;
    if msg == [] {
      FreshState();
    } else {
      var n := |msg| - 1;
      Written(msg[..n]);
      var r, b := Scan(msg[..n]), msg[n];
      if b == LF {
        FeedLf(r.0, r.1);
      } else if White(b) {
        FeedWhite(r.0, r.1, b);
      } else {
        FeedText(r.0, r.1, b);
      }
    }
  }

  lemma FreshState()
    ensures StateFor([], []) == FRESH
  {
  }

  /** The hash covers the stripped lines joined by CRLF; the body is the same lines, escaped and ended. */
  lemma EncodedBody(msg: seq<byte>)
    ensures FeedAll(FRESH, msg).hashed == JoinCrlf(LinesOf(msg))
    ensures Finished(FeedAll(FRESH, msg)) == Ended(EscapeAll(LinesOf(msg)))
  {
    hide JoinCrlf, Ended, EscapeAll, FeedAll, Escape;
    Written(msg);
    var r := Scan(msg);
    EndedNext(r.0, Strip(r.1));
    if r.1 == [] {
      EscapeNone();
      assert Ended(EscapeAll(r.0)) + [] == Ended(EscapeAll(r.0));
    }
  }

  lemma EscapeNone()
    ensures Escape(Strip([])) == []
  {
  }

  // --------------------------------------------------------------------------
  // Decode
  // --------------------------------------------------------------------------

  const END_TEXT: seq<byte> := [45, 45, 45, 45, 45, 66, 69, 71, 73, 78, 32, 80, 71, 80, 32, 83, 73, 71, 78, 65, 84,
      85, 82, 69, 45, 45, 45, 45, 45]

  /** The index of the first line feed, or the length. */
  function LineEnd(s: seq<byte>): (i: nat)
    ensures i <= |s| && (i < |s| ==> s[i] == LF)
    ensures forall k :: 0 <= k < i ==> s[k] != LF
  {
    if s == [] || s[0] == LF then 0 else 1 + LineEnd(s[1..])
  }

  function GetLine(s: seq<byte>): (seq<byte>, seq<byte>) {
    var i := LineEnd(s);
    if i == |s| then (s, [])
    else (s[..if i > 0 && s[i - 1] == CR then i - 1 else i], s[i + 1..])
  }

  /** bytes.TrimRight of spaces and tabs. */
  function TrimRight(s: seq<byte>): seq<byte> {
    if s == [] then [] else if s[|s| - 1] == SPACE || s[|s| - 1] == TAB then TrimRight(s[..|s| - 1]) else s
  }

  /** What is cut off is blank, and all of it. */
  lemma {:induction false} TrimRightIs(s: seq<byte>)
    ensures var r := TrimRight(s);
            && r <= s && (forall i :: |r| <= i < |s| ==> s[i] == 32 || s[i] == 9)
            && (r != [] ==> r[|r| - 1] != 32 && r[|r| - 1] != 9)
  {
    if s != [] && (s[|s| - 1] == SPACE || s[|s| - 1] == TAB) {
      TrimRightIs(s[..|s| - 1]);
    }
  }

  function Clean(line: seq<byte>): seq<byte> {
    TrimRight(if |line| >= 2 && line[0] == DASH && line[1] == SPACE then line[2..] else line)
  }

  /** The cleaned lines up to the signature, and the rest from it on; None where the loop would not end. */
  function DecodeLines(s: seq<byte>): Option<(seq<seq<byte>>, seq<byte>)>
    decreases |s|
  {
    if s == [] then None else
    var (line, rest) := GetLine(s);
    if line == END_TEXT then Some(([], s)) else
    var r := DecodeLines(rest);
    if r.None? then None else Some(([Clean(line)] + r.value.0, r.value.1))
  }

  lemma {:induction false} LineEndAt(a: seq<byte>, rest: seq<byte>)
    requires LF !in a
    ensures LineEnd(a + [LF] + rest) == |a|
  {
    if a != [] {
      LineEndAt(a[1..], rest);
      assert (a + [LF] + rest)[1..] == a[1..] + [LF] + rest;
    }
  }

  /** A line of text as the writer leaves it. */
  predicate Tidy(l: seq<byte>) {
    LF !in l && (l != [] ==> !White(l[|l| - 1]))
  }

  lemma TidyLine(l: seq<byte>, rest: seq<byte>)
    requires Tidy(l)
    ensures GetLine(Escape(l) + [LF] + rest) == (Escape(l), rest)
    ensures Escape(l) != END_TEXT && Clean(Escape(l)) == l
  {
    var e := Escape(l);
    assert LF !in e;
    LineEndAt(e, rest);
    var s := e + [LF] + rest;
    assert s[..|e|] == e && s[|e| + 1..] == rest;
    assert e != END_TEXT by {
      assert END_TEXT[0] == DASH && END_TEXT[1] != SPACE;
    }
    if l != [] && l[0] == DASH {
      assert e[2..] == l;
    }
  }

  lemma EndLine(tail: seq<byte>)
    ensures GetLine(END_TEXT + [LF] + tail).0 == END_TEXT
  {
    assert LF !in END_TEXT;
    LineEndAt(END_TEXT, tail);
    var s := END_TEXT + [LF] + tail;
    assert s[..29] == END_TEXT && s[28] == DASH;
  }

  /** Decoding what the writer put out, in front of the signature. */
  lemma {:induction false} DecodeTidy(ls: seq<seq<byte>>, k: nat, sig: seq<byte>)
    requires k <= |ls| && forall i :: 0 <= i < |ls| ==> Tidy(ls[i])
    requires sig != [] && GetLine(sig).0 == END_TEXT
    ensures DecodeLines(EndedFrom(ls, k) + sig) == Some((ls[k..], sig))
    decreases |ls| - k
  {
    hide Escape, Clean, GetLine, Tidy, END_TEXT;
    if k == |ls| {
      assert EndedFrom(ls, k) + sig == sig;
    } else {
      var rest := EndedFrom(ls, k + 1) + sig;
      TidyLine(ls[k], rest);
      DecodeTidy(ls, k + 1, sig);
      Ahead(Escape(ls[k]), EndedFrom(ls, k + 1), sig);
      assert [ls[k]] + ls[k + 1..] == ls[k..];
    }
  }

  lemma Ahead(e: seq<byte>, a: seq<byte>, b: seq<byte>)
    ensures e + [LF] + a + b == e + [LF] + (a + b) && e + [LF] + (a + b) != []
  {
  }

  /** The escaped and ended lines from the k-th on. */
  function EndedFrom(ls: seq<seq<byte>>, k: nat): seq<byte>
    requires k <= |ls|
    decreases |ls| - k
  {
    if k == |ls| then [] else Escape(ls[k]) + [LF] + EndedFrom(ls, k + 1)
  }

  lemma {:induction false} EndedSplit(ls: seq<seq<byte>>, k: nat)
    requires k <= |ls|
    ensures Ended(EscapeAll(ls[..k])) + EndedFrom(ls, k) == Ended(EscapeAll(ls))
    decreases |ls| - k
  {
    hide Escape, Ended, EscapeAll;
    if k == |ls| {
      assert ls[..k] == ls;
    } else {
      EndedSplit(ls, k + 1);
      assert ls[..k + 1] == ls[..k] + [ls[k]];
      EndedNext(ls[..k], ls[k]);
      Shuffle(Ended(EscapeAll(ls[..k])), Escape(ls[k]), EndedFrom(ls, k + 1));
    }
  }

  lemma Shuffle(a: seq<byte>, l: seq<byte>, r: seq<byte>)
    ensures a + l + [LF] + r == a + (l + [LF] + r)
  {
  }

  lemma {:induction false} ScanTidy(msg: seq<byte>)
    ensures LF !in Scan(msg).1 && forall i :: 0 <= i < |Scan(msg).0| ==> Tidy(Scan(msg).0[i])
  {
    if msg != [] {
      ScanTidy(msg[..|msg| - 1]);
    }
  }

  /**
   For every message: the signature that follows is found, the bytes that Decode recovers for checking
   are the ones that were hashed, and the plaintext is each line without its trailing white space.
   */
  lemma SignedIsDecoded(msg: seq<byte>, tail: seq<byte>)
    ensures var body := Finished(FeedAll(FRESH, msg));
            var r := DecodeLines(body + (END_TEXT + [LF] + tail));
            && r.Some? && r.value.1 == END_TEXT + [LF] + tail
            && r.value.0 == LinesOf(msg)
            && JoinCrlf(r.value.0) == FeedAll(FRESH, msg).hashed
  {
    hide JoinCrlf, Ended, EscapeAll, FeedAll, Finished, DecodeLines, END_TEXT;
    EncodedBody(msg);
    ScanTidy(msg);
    var ls := LinesOf(msg);
    EndedSplit(ls, 0);
    assert ls[..0] == [] && ls[0..] == ls;
    EndedNone(EndedFrom(ls, 0));
    EndLine(tail);
    DecodeTidy(ls, 0, END_TEXT + [LF] + tail);
  }

  lemma EndedNone(s: seq<byte>)
    ensures Ended(EscapeAll([])) + s == s
  {
  }

  // --------------------------------------------------------------------------
  // When the loop ends
  // --------------------------------------------------------------------------

  /** What is left after n passes of the loop, none of which sees the end marker. */
  function After(s: seq<byte>, n: nat): seq<byte> {
    if n == 0 then s else GetLine(After(s, n - 1)).1
  }

  ghost predicate EndsAt(s: seq<byte>, n: nat) {
    GetLine(After(s, n)).0 == END_TEXT
  }

  /** At the end of the data the loop reads an empty line, which is no marker, and stays where it is. */
  lemma StaysPut()
    ensures GetLine([]) == ([], []) && [] != END_TEXT
  {
  }

  lemma {:induction false} AfterNext(s: seq<byte>, n: nat)
    ensures After(s, n + 1) == After(GetLine(s).1, n)
  {
    hide GetLine;
    if n > 0 {
      AfterNext(s, n - 1);
    }
  }

  lemma {:induction false} AfterNone(n: nat)
    ensures After([], n) == []
  {
    if n > 0 {
      AfterNone(n - 1);
      StaysPut();
    }
  }

  /** The loop ends in some pass exactly when DecodeLines has a result. */
  lemma {:induction false} EndsInSomePass(s: seq<byte>)
    ensures DecodeLines(s).Some? <==> exists n: nat :: EndsAt(s, n)
    decreases |s|
  {
    hide END_TEXT, Clean;
    StaysPut();
    if s == [] {
      forall n: nat
        ensures !EndsAt(s, n)
      {
        AfterNone(n);
      }
    } else if GetLine(s).0 == END_TEXT {
      assert EndsAt(s, 0);
    } else {
      var rest := GetLine(s).1;
      EndsInSomePass(rest);
      EndsLater(s);
    }
  }

  lemma EndsLater(s: seq<byte>)
    requires GetLine(s).0 != END_TEXT
    ensures (exists n: nat :: EndsAt(s, n)) <==> exists n: nat :: EndsAt(GetLine(s).1, n)
  {
    hide GetLine, END_TEXT;
    var rest := GetLine(s).1;
    if exists n: nat :: EndsAt(rest, n) {
      var n: nat :| EndsAt(rest, n);
      AfterNext(s, n);
      assert EndsAt(s, n + 1);
    }
    if exists n: nat :: EndsAt(s, n) {
      var n: nat :| EndsAt(s, n);
      if n > 0 {
        AfterNext(s, n - 1);
        assert EndsAt(rest, n - 1);
      }
    }
  }

  /** The end marker on a line of its own: after it a line feed, with or without a carriage return, or the end. */
  predicate MarkerAt(s: seq<byte>, i: nat) {
    && i + 29 <= |s| && (i == 0 || s[i - 1] == LF) && s[i..i + 29] == END_TEXT
    && (i + 29 == |s| || s[i + 29] == LF || (i + 31 <= |s| && s[i + 29] == CR && s[i + 30] == LF))
  }

  ghost predicate HasMarker(s: seq<byte>) {
    exists i: nat :: MarkerAt(s, i)
  }

  lemma EndTextShape()
    ensures |END_TEXT| == 29 && LF !in END_TEXT && END_TEXT[28] == DASH
  {
  }

  /** The first line is the marker. */
  lemma FirstLine(s: seq<byte>)
    ensures GetLine(s).0 == END_TEXT <==> MarkerAt(s, 0)
  {
    hide END_TEXT;
    EndTextShape();
    var e := LineEnd(s);
    if MarkerAt(s, 0) {
      assert forall k :: 0 <= k < 29 ==> s[k] == s[0..29][k];
      assert e >= 29;
      assert s[..29] == s[0..29];
      if 29 < |s| && s[29] == CR {
        assert e == 30;
      } else {
        assert e == 29;
        assert s[28] == s[0..29][28];
      }
    }
    if GetLine(s).0 == END_TEXT {
      assert s[0..29] == GetLine(s).0;
    }
  }

  lemma MarkerShift(h: seq<byte>, t: seq<byte>, j: nat)
    requires h != [] && h[|h| - 1] == LF
    ensures MarkerAt(h + t, |h| + j) <==> MarkerAt(t, j)
  {
    hide END_TEXT;
    var s, i := h + t, |h| + j;
    if j + 29 <= |t| {
      assert s[i..i + 29] == t[j..j + 29];
    }
  }

  lemma AfterFeed(s: seq<byte>, i: nat)
    ensures i > 0 && MarkerAt(s, i) ==> i <= |s| && s[i - 1] == LF
  {
    hide END_TEXT;
  }

  /** Another line is the marker of what follows the first line. */
  lemma OtherLine(s: seq<byte>, i: nat)
    requires LineEnd(s) < |s|
    ensures i > 0 && MarkerAt(s, i) ==> i > LineEnd(s)
    ensures i > LineEnd(s) ==> (MarkerAt(s, i) <==> MarkerAt(s[LineEnd(s) + 1..], i - LineEnd(s) - 1))
  {
    hide MarkerAt, LineEnd;
    var e := LineEnd(s);
    AfterFeed(s, i);
    if i > e {
      MarkerShift(s[..e + 1], s[e + 1..], i - e - 1);
      assert s[..e + 1] + s[e + 1..] == s;
    }
  }

  /** The data of the rest, seen from the whole. */
  lemma MarkerLater(s: seq<byte>)
    requires s != [] && !MarkerAt(s, 0)
    ensures HasMarker(s) <==> HasMarker(GetLine(s).1)
  {
    hide MarkerAt;
    var e := LineEnd(s);
    if e == |s| {
      NoOther(s);
      NoneInNothing();
    } else {
      var t := s[e + 1..];
      if HasMarker(s) {
        var i: nat :| MarkerAt(s, i);
        OtherLine(s, i);
        assert MarkerAt(t, i - e - 1);
      }
      if HasMarker(t) {
        var j: nat :| MarkerAt(t, j);
        OtherLine(s, j + e + 1);
        assert MarkerAt(s, j + e + 1);
      }
    }
  }

  lemma NoOther(s: seq<byte>)
    requires LineEnd(s) == |s|
    ensures forall i: nat :: i > 0 ==> !MarkerAt(s, i)
  {
  }

  lemma NoneInNothing()
    ensures !HasMarker([])
  {
  }

  /** The loop ends exactly on texts with an end marker on a line of its own. */
  lemma {:induction false} EndsWithMarker(s: seq<byte>)
    ensures DecodeLines(s).Some? <==> HasMarker(s)
    decreases |s|
  {
    hide END_TEXT, Clean, MarkerAt, HasMarker;
    if s == [] {
      NoneInNothing();
    } else {
      FirstLine(s);
      if MarkerAt(s, 0) {
        Found(s, 0);
      } else {
        EndsWithMarker(GetLine(s).1);
        MarkerLater(s);
      }
    }
  }

  lemma Found(s: seq<byte>, i: nat)
    requires MarkerAt(s, i)
    ensures HasMarker(s)
  {
  }

  /** A text without a marker, say the letter A: the loop never ends. */
  lemma NeverEnds(n: nat)
    ensures !EndsAt([65], n) && (n > 0 ==> After([65], n) == [])
  {
    assert LineEnd([65]) == 1;
    assert GetLine([65]) == ([65], []);
    StaysPut();
    if n > 0 {
      AfterNext([65], n - 1);
      AfterNone(n - 1);
    }
  }

  /** The body loop of Decode: the bytes for the signature, the plaintext, and the rest from the signature on. */
  method DecodeBody(data: seq<byte>) returns (bytes: seq<byte>, plaintext: seq<byte>, rest: seq<byte>)
    requires HasMarker(data)
    ensures DecodeLines(data).Some?
    ensures var r := DecodeLines(data).value; bytes == JoinCrlf(r.0) && plaintext == Ended(r.0) && rest == r.1
  {
    hide Clean, END_TEXT, JoinCrlf, Ended, DecodeLines, GetLine, HasMarker;
    EndsWithMarker(data);
    JoinNone();
    bytes, plaintext, rest := [], [], data;
    var firstLine := true;
    ghost var done: seq<seq<byte>> := [];
    assert [] + DecodeLines(data).value.0 == DecodeLines(data).value.0;
    while true
      invariant DecodeLines(rest).Some?
      invariant DecodeLines(data).value == (done + DecodeLines(rest).value.0, DecodeLines(rest).value.1)
      invariant bytes == JoinCrlf(done) && plaintext == Ended(done) && firstLine == (done == [])
      decreases |rest|
    {
      DecodeStep(rest);
      var start := rest;
      var line;
      line, rest := GetLine(rest).0, GetLine(rest).1;
      if line == END_TEXT {
        rest := start;
        assert done + [] == done;
        break;
      }
      if firstLine {
        firstLine := false;
      } else {
        bytes := bytes + [CR, LF];
      }
      line := Clean(line);
      bytes := bytes + line;
      plaintext := plaintext + line + [LF];
      JoinNext(done, line);
      EndNext(done, line);
      assert done + ([line] + DecodeLines(rest).value.0) == (done + [line]) + DecodeLines(rest).value.0;
      done := done + [line];
    }
  }

  lemma DecodeStep(s: seq<byte>)
    requires DecodeLines(s).Some?
    ensures var (line, rest) := GetLine(s);
            if line == END_TEXT then DecodeLines(s).value == ([], s)
            else |rest| < |s| && DecodeLines(rest).Some? &&
                 DecodeLines(s).value == ([Clean(line)] + DecodeLines(rest).value.0, DecodeLines(rest).value.1)
  {
    hide Clean, END_TEXT;
  }

  lemma EndNext(ls: seq<seq<byte>>, l: seq<byte>)
    ensures Ended(ls + [l]) == Ended(ls) + l + [LF]
  {
    assert (ls + [l])[..|ls|] == ls;
  }
}
