/**
 The last lines of a file (dircat/file_tail.go). GetLineByPosition steps back 50 bytes at a time and
 then forward scan by scan; whatever the file holds, it ends where scanning from the start of the
 file would. TailFile gives the last lines exactly when none of those lines is longer than the
 scanner takes or ends in a carriage return.
 */
module DircatTail {
  import opened Bits

  const NEWLINE: byte := 10
  const RETURN: byte := 13
  const STEP: nat := 50
  /** A longer line makes a bufio.Scanner give up with nothing. */
  const MAX_LINE: nat := 65535

  /** How far the line goes on from a position. */
  function Raw(f: seq<byte>, at: nat): nat
    decreases |f| - at
  {
    if at >= |f| || f[at] == NEWLINE then 0 else 1 + Raw(f, at + 1)
  }

  /** The length of what one Scan of bufio.ScanLines finds there. */
  function Token(f: seq<byte>, at: nat): nat {
    var n := Raw(f, at);
    if n > MAX_LINE then 0 else if n > 0 && EndsInReturn(f, at, n) then n - 1 else n
  }

  predicate EndsInReturn(f: seq<byte>, at: nat, n: nat)
    requires n > 0
  {
    at + n <= |f| && f[at + n - 1] == RETURN
  }

  /** Scanning on from a boundary until the scanned line reaches the cursor. */
  function Walk(f: seq<byte>, at: nat, cursor: nat): nat
    decreases cursor - at
  {
    if at + Token(f, at) < cursor then Walk(f, at + Token(f, at) + 1, cursor) else at
  }

  // --------------------------------------------------------------------------
  // Stepping back does not matter
  // --------------------------------------------------------------------------

  lemma {:induction false} RawShape(f: seq<byte>, at: nat)
    ensures at <= |f| ==> at + Raw(f, at) <= |f|
    ensures at > |f| ==> Raw(f, at) == 0
    ensures at + Raw(f, at) < |f| ==> f[at + Raw(f, at)] == NEWLINE
    ensures forall i :: at <= i < at + Raw(f, at) ==> i < |f| && f[i] != NEWLINE
    decreases |f| - at
  {
    if at < |f| && f[at] != NEWLINE {
      RawShape(f, at + 1);
    }
  }

  /** Inside a line, what is left of it ends in the same place. */
  lemma {:induction false} RawInside(f: seq<byte>, x: nat, y: nat)
    requires x <= y <= x + Raw(f, x)
    ensures y + Raw(f, y) == x + Raw(f, x)
    decreases y - x
  {
    if x < y {
      RawInside(f, x + 1, y);
    }
  }

  /** The same for what Scan finds. */
  lemma TokenInside(f: seq<byte>, x: nat, y: nat)
    requires x <= y <= x + Token(f, x)
    ensures y + Token(f, y) == x + Token(f, x)
  {
    hide Raw;
    RawShape(f, x);
    if x < y {
      RawInside(f, x, y);
    }
  }

  /** A start that does not reach the cursor leads to the same place as any start before it. */
  lemma {:induction false} WalksMeet(f: seq<byte>, x: nat, y: nat, cursor: nat)
    requires x <= y && y + Token(f, y) < cursor
    ensures Walk(f, x, cursor) == Walk(f, y, cursor)
    decreases y - x
  {
    hide Token;
    if y <= x + Token(f, x) {
      TokenInside(f, x, y);
    } else {
      WalksMeet(f, x + Token(f, x) + 1, y, cursor);
    }
  }

  datatype Found = Failed | Line(head: nat, text: seq<byte>)

  /** The line the cursor is in, by scanning from the start of the file. */
  function LineAt(f: seq<byte>, cursor: nat): Found {
    var head := Walk(f, 0, cursor);
    Line(head, Slice(f, head, Token(f, head)))
  }

  /** What ReadAt gives. */
  function Slice(f: seq<byte>, at: nat, n: nat): seq<byte> {
    if at + n <= |f| then f[at..at + n] else []
  }

  /** A negative cursor is refused by Seek. */
  method GetLineByPosition(f: seq<byte>, cursor: int) returns (r: Found)
    ensures cursor < 0 ==> r == Failed
    ensures cursor >= 0 ==> r == LineAt(f, cursor)
  {
    hide Token;
    if cursor < 0 {
      return Failed;
    }
    var now, length := cursor, 0;
    while true
      invariant 0 <= now <= cursor
      decreases now
    {
      now := if now - STEP < 0 then 0 else now - STEP;
      length := Token(f, now);
      if length + now >= cursor && now != 0 {
        continue;
      }
      if now != 0 {
        WalksMeet(f, 0, now, cursor);
        now := now + length + 1;
      }
      length := Token(f, now);
      while now + length < cursor
        invariant 0 <= now && length == Token(f, now)
        invariant Walk(f, 0, cursor) == Walk(f, now, cursor)
        decreases cursor - now
      {
        now := now + length + 1;
        length := Token(f, now);
      }
      break;
    }
    r := Line(now, Slice(f, now, length));
  }

  // --------------------------------------------------------------------------
  // The last lines
  // --------------------------------------------------------------------------

  /** The texts TailFile collects from a cursor down, at most n of them. */
  function Collected(f: seq<byte>, cursor: int, n: nat): (r: seq<seq<byte>>)
    requires cursor < |f|
    ensures |r| <= n && (cursor >= 0 && n > 0 ==> |r| > 0)
    decreases n
  {
    if cursor < 0 || n == 0 then [] else
    WalkBound(f, 0, cursor);
    Collected(f, LineAt(f, cursor).head - 1, n - 1) + [LineAt(f, cursor).text]
  }

  lemma {:induction false} WalkBound(f: seq<byte>, at: nat, cursor: nat)
    requires at <= cursor
    ensures at <= Walk(f, at, cursor) <= cursor
    ensures Walk(f, at, cursor) + Token(f, Walk(f, at, cursor)) >= cursor
    decreases cursor - at
  {
    hide Token;
    if at + Token(f, at) < cursor {
      WalkBound(f, at + Token(f, at) + 1, cursor);
    }
  }

  /** strings.Join with a newline. */
  function Join(t: seq<seq<byte>>): seq<byte> {
    if t == [] then [] else if |t| == 1 then t[0] else t[0] + [NEWLINE] + Join(t[1..])
  }

  function Count(cnt: int): (n: nat)
    ensures n > 0
  {
    if cnt < 1 then 10 else cnt
  }

  method TailFile(f: seq<byte>, cnt: int) returns (r: seq<byte>)
    ensures r == Join(Collected(f, |f| - 1, Count(cnt)))
  {
    hide Collected, LineAt;
    var cursor := |f| - 1;
    var text: seq<seq<byte>> := [];
    var i := 0;
    var n := Count(cnt);
    assert Collected(f, |f| - 1, n) + text == Collected(f, |f| - 1, n);
    while i < n && cursor >= 0
      invariant i <= n && -1 <= cursor < |f|
      invariant Collected(f, |f| - 1, n) == Collected(f, cursor, n - i) + text
    {
      var line := GetLineByPosition(f, cursor);
      CollectedStep(f, cursor, n - i);
      ghost var rest := Collected(f, line.head - 1, n - i - 1);
      assert rest + [line.text] + text == rest + ([line.text] + text);
      text := [line.text] + text;
      cursor := line.head - 1;
      i := i + 1;
    }
    CollectedEnd(f, cursor, n - i);
    assert [] + text == text;
    r := Join(text);
  }

  lemma CollectedStep(f: seq<byte>, cursor: nat, n: nat)
    requires cursor < |f| && n > 0
    ensures var line := LineAt(f, cursor);
            && line.Line? && line.head <= cursor
            && Collected(f, cursor, n) == Collected(f, line.head - 1, n - 1) + [line.text]
  {
    WalkBound(f, 0, cursor);
  }

  lemma CollectedEnd(f: seq<byte>, cursor: int, n: nat)
    requires cursor < |f| && (cursor < 0 || n == 0)
    ensures Collected(f, cursor, n) == []
  {
  }

  /** The lines of a file: a newline ends a line, and what follows the last one is a line unless it is empty. */
  function Lines(f: seq<byte>): seq<seq<byte>>
    decreases |f|
  {
    if f == [] then [] else
    RawShape(f, 0);
    var n := Raw(f, 0);
    [f[..n]] + if n == |f| then [] else Lines(f[n + 1..])
  }

  function Last(t: seq<seq<byte>>, n: nat): seq<seq<byte>> {
    if |t| <= n then t else t[|t| - n..]
  }

  /** Where the line begins that a position belongs to; a newline belongs to the line it ends. */
  function Start(f: seq<byte>, at: nat): (s: nat)
    requires at < |f|
    ensures s <= at && (s > 0 ==> f[s - 1] == NEWLINE) && forall i :: s <= i < at ==> f[i] != NEWLINE
  {
    if at == 0 || f[at - 1] == NEWLINE then at else Start(f, at - 1)
  }

  /** The last byte of a line. */
  predicate LineEnd(f: seq<byte>, at: int) {
    -1 <= at < |f| && (at >= 0 && f[at] != NEWLINE ==> at == |f| - 1)
  }

  /** No scan goes past the start of the line it should find. */
  lemma WalkInLine(f: seq<byte>, cursor: nat)
    requires cursor < |f|
    ensures Start(f, cursor) <= Walk(f, 0, cursor) <= cursor
  {
    hide Raw, Start, Walk;
    WalkBound(f, 0, cursor);
    var w := Walk(f, 0, cursor);
    RawShape(f, w);
  }

  /** How far the line goes from its start to its end. */
  lemma RawToEnd(f: seq<byte>, end: nat)
    requires end < |f| && LineEnd(f, end)
    ensures Start(f, end) + Raw(f, Start(f, end)) == if f[end] == NEWLINE then end else end + 1
  {
    hide Raw, Start;
    RawShape(f, Start(f, end));
  }

  // --------------------------------------------------------------------------
  // Lines from the front and from the back
  // --------------------------------------------------------------------------

  lemma FirstNewline(f: seq<byte>, n: nat)
    requires n <= |f| && (n < |f| ==> f[n] == NEWLINE) && forall i :: 0 <= i < n ==> f[i] != NEWLINE
    ensures Raw(f, 0) == n
  {
    hide Raw;
    RawShape(f, 0);
  }

  lemma LinesHead(f: seq<byte>, n: nat)
    requires n < |f| && f[n] == NEWLINE && forall i :: 0 <= i < n ==> f[i] != NEWLINE
    ensures Lines(f) == [f[..n]] + Lines(f[n + 1..])
  {
    hide Raw;
    FirstNewline(f, n);
  }

  lemma LinesOne(f: seq<byte>, n: nat)
    requires f != [] && n <= |f| <= n + 1 && (n < |f| ==> f[n] == NEWLINE) && forall i :: 0 <= i < n ==> f[i] != NEWLINE
    ensures Lines(f) == [f[..n]]
  {
    hide Raw;
    FirstNewline(f, n);
  }

  lemma {:induction false} LinesAppend(a: seq<byte>, b: seq<byte>)
    requires a == [] || a[|a| - 1] == NEWLINE
    ensures Lines(a + b) == Lines(a) + Lines(b)
    decreases |a|
  {
    hide Raw, Lines;
    if a == [] {
      NoLines(a, 1);
      assert a + b == b && [] + Lines(b) == Lines(b);
    } else {
      RawShape(a, 0);
      var n := Raw(a, 0);
      var h, t := a[..n], a[n + 1..];
      LinesHead(a, n);
      LinesHead(a + b, n);
      assert (a + b)[..n] == h && (a + b)[n + 1..] == t + b;
      LinesAppend(t, b);
      assert [h] + (Lines(t) + Lines(b)) == [h] + Lines(t) + Lines(b);
    }
  }

  lemma LineSlice(f: seq<byte>, s: nat, n: nat, e: nat)
    requires s < e <= |f| && s + n <= e <= s + n + 1 && (s + n < e ==> f[s + n] == NEWLINE)
    requires forall i :: s <= i < s + n ==> f[i] != NEWLINE
    ensures Lines(f[s..e]) == [f[s..s + n]]
  {
    hide Lines;
    var b := f[s..e];
    forall i | 0 <= i < n
      ensures b[i] != NEWLINE
    {
      assert b[i] == f[s + i];
    }
    LinesOne(b, n);
    assert b[..n] == f[s..s + n];
  }

  lemma LinesSnoc(f: seq<byte>, end: nat)
    requires end < |f| && LineEnd(f, end)
    ensures var s := Start(f, end);
            s + Raw(f, s) <= |f| && Lines(f[..end + 1]) == Lines(f[..s]) + [f[s..s + Raw(f, s)]]
  {
    hide Raw, Lines, Start;
    var s := Start(f, end);
    RawToEnd(f, end);
    RawShape(f, s);
    LineSlice(f, s, Raw(f, s), end + 1);
    assert f[..s] + f[s..end + 1] == f[..end + 1];
    LinesAppend(f[..s], f[s..end + 1]);
  }

  lemma LastSnoc(t: seq<seq<byte>>, x: seq<byte>, n: nat)
    requires n > 0
    ensures Last(t + [x], n) == Last(t, n - 1) + [x]
  {
  }

  lemma NoLines(f: seq<byte>, n: nat)
    requires f == [] || n == 0
    ensures Last(Lines(f), n) == []
  {
  }

  /** Joining can be undone as long as there is something to join and the parts have no newline. */
  function Fields(s: seq<byte>): seq<seq<byte>>
    decreases |s|
  {
    RawShape(s, 0);
    var n := Raw(s, 0);
    if n == |s| then [s] else [s[..n]] + Fields(s[n + 1..])
  }

  ghost predicate NoNewline(s: seq<byte>) {
    forall i :: 0 <= i < |s| ==> s[i] != NEWLINE
  }

  ghost predicate OneLiners(t: seq<seq<byte>>) {
    forall i :: 0 <= i < |t| ==> NoNewline(t[i])
  }

  lemma {:induction false} FieldsOfJoin(t: seq<seq<byte>>)
    requires t != [] && OneLiners(t)
    ensures Fields(Join(t)) == t
  {
    hide Raw;
    var s := Join(t);
    FirstNewline(s, |t[0]|);
    if |t| > 1 {
      FieldsOfJoin(t[1..]);
      assert s[..|t[0]|] == t[0] && s[|t[0]| + 1..] == Join(t[1..]);
    }
  }

  lemma {:induction false} CollectedOneLiners(f: seq<byte>, cursor: int, n: nat)
    requires cursor < |f|
    ensures OneLiners(Collected(f, cursor, n))
    decreases n
  {
    hide Walk, Raw, Collected;
    if cursor < 0 || n == 0 {
      CollectedEnd(f, cursor, n);
    } else {
      CollectedStep(f, cursor, n);
      var line := LineAt(f, cursor);
      CollectedOneLiners(f, line.head - 1, n - 1);
      RawShape(f, line.head);
    }
  }

  lemma {:induction false} LinesOneLiners(f: seq<byte>)
    ensures OneLiners(Lines(f))
    decreases |f|
  {
    hide Raw;
    if f != [] {
      RawShape(f, 0);
      if Raw(f, 0) < |f| {
        LinesOneLiners(f[Raw(f, 0) + 1..]);
      }
    }
  }

  // --------------------------------------------------------------------------
  // Exactly when
  // --------------------------------------------------------------------------

  /** A line that the scanner takes as it is: short enough, and not ending in a carriage return. */
  predicate Plain(l: seq<byte>) {
    |l| <= MAX_LINE && (l != [] ==> l[|l| - 1] != RETURN)
  }

  predicate AllPlain(t: seq<seq<byte>>) {
    forall i :: 0 <= i < |t| ==> Plain(t[i])
  }

  /** The line that a position belongs to. */
  function LineOf(f: seq<byte>, at: nat): seq<byte>
    requires at < |f|
  {
    RawShape(f, Start(f, at));
    f[Start(f, at)..Start(f, at) + Raw(f, Start(f, at))]
  }

  /** No scan skips the start of a line. */
  lemma {:induction false} WalkThrough(f: seq<byte>, at: nat, s: nat, cursor: nat)
    requires at <= s <= cursor < |f| && (s == 0 || f[s - 1] == NEWLINE)
    ensures Walk(f, at, cursor) == Walk(f, s, cursor)
    decreases s - at
  {
    hide Raw;
    RawShape(f, at);
    if at < s {
      assert at + Token(f, at) < s;
      WalkThrough(f, at + Token(f, at) + 1, s, cursor);
    }
  }

  lemma PlainToken(f: seq<byte>, at: nat)
    requires at < |f|
    ensures var s := Start(f, at); Token(f, s) == Raw(f, s) <==> Plain(LineOf(f, at))
  {
    hide Raw, Start;
    RawShape(f, Start(f, at));
  }

  /**
   A plain line is found from every position in it, whatever the rest of the file holds: it begins at
   the last line start up to the cursor, and its end or its newline is not before the cursor.
   */
  lemma LineFound(f: seq<byte>, cursor: nat)
    requires cursor < |f| && Plain(LineOf(f, cursor))
    ensures LineAt(f, cursor) == Line(Start(f, cursor), LineOf(f, cursor))
    ensures Start(f, cursor) <= cursor <= Start(f, cursor) + |LineOf(f, cursor)|
  {
    hide Raw, Token, Start;
    var s := Start(f, cursor);
    WalkThrough(f, 0, s, cursor);
    PlainToken(f, cursor);
    RawShape(f, s);
  }

  /** Conversely a line whose whole text is found is plain. */
  lemma WholeIsPlain(f: seq<byte>, end: nat)
    requires end < |f| && LineEnd(f, end) && LineAt(f, end).text == LineOf(f, end)
    ensures LineAt(f, end).head == Start(f, end) && Plain(LineOf(f, end))
  {
    hide Raw, Walk, Start;
    var s, w := Start(f, end), Walk(f, 0, end);
    WalkInLine(f, end);
    RawToEnd(f, end);
    RawShape(f, w);
    RawInside(f, s, w);
    PlainToken(f, end);
  }

  lemma LinesBack(f: seq<byte>, end: nat, n: nat)
    requires end < |f| && LineEnd(f, end) && n > 0
    ensures var s := Start(f, end);
            LineEnd(f, s - 1) && Last(Lines(f[..end + 1]), n) == Last(Lines(f[..s]), n - 1) + [LineOf(f, end)]
  {
    hide Raw, Lines;
    LinesSnoc(f, end);
    LastSnoc(Lines(f[..Start(f, end)]), LineOf(f, end), n);
  }

  /** From a line end down, TailFile collects the last lines exactly when they are plain. */
  lemma {:induction false} CollectedExactly(f: seq<byte>, end: int, n: nat)
    requires LineEnd(f, end)
    ensures Collected(f, end, n) == Last(Lines(f[..end + 1]), n) <==> AllPlain(Last(Lines(f[..end + 1]), n))
    decreases n
  {
    hide Lines, Collected, LineAt, Start, Plain, LineOf, Last;
    if end < 0 || n == 0 {
      CollectedEnd(f, end, n);
      NoLines(f[..end + 1], n);
    } else {
      CollectedStep(f, end, n);
      LinesBack(f, end, n);
      var line := LineAt(f, end);
      var s: int := Start(f, end);
      var front := Last(Lines(f[..s]), n - 1);
      SnocPlain(front, LineOf(f, end));
      CollectedExactly(f, s - 1, n - 1);
      if Plain(LineOf(f, end)) {
        LineFound(f, end);
        SnocSame(Collected(f, s - 1, n - 1), front, LineOf(f, end), LineOf(f, end));
      } else if line.text == LineOf(f, end) {
        WholeIsPlain(f, end);
      } else {
        SnocSame(Collected(f, line.head - 1, n - 1), front, line.text, LineOf(f, end));
      }
    }
  }

  lemma SnocPlain(t: seq<seq<byte>>, l: seq<byte>)
    ensures AllPlain(t + [l]) <==> AllPlain(t) && Plain(l)
  {
    hide Plain;
    var u := t + [l];
    if AllPlain(u) {
      assert forall i :: 0 <= i < |t| ==> t[i] == u[i];
      assert u[|t|] == l;
    }
  }

  lemma SnocSame(t: seq<seq<byte>>, u: seq<seq<byte>>, a: seq<byte>, b: seq<byte>)
    ensures t + [a] == u + [b] <==> t == u && a == b
  {
    if t + [a] == u + [b] {
      var v := t + [a];
      assert |t| == |u| && v[|t|] == a == b && v[..|t|] == t && v[..|u|] == u;
    }
  }

  ghost predicate TailsRight(f: seq<byte>, cnt: int) {
    Join(Collected(f, |f| - 1, Count(cnt))) == Join(Last(Lines(f), if cnt >= 1 then cnt else 10))
  }

  lemma SomeLines(f: seq<byte>, n: nat)
    requires f != [] && n > 0
    ensures Last(Lines(f), n) != []
  {
    hide Raw;
  }

  lemma SameTexts(f: seq<byte>, cnt: int)
    requires f != []
    ensures TailsRight(f, cnt) <==> Collected(f, |f| - 1, Count(cnt)) == Last(Lines(f), Count(cnt))
  {
    hide Collected, Lines, Join, Fields;
    var n := Count(cnt);
    CollectedOneLiners(f, |f| - 1, n);
    LinesOneLiners(f);
    SomeLines(f, n);
    FieldsOfJoin(Collected(f, |f| - 1, n));
    FieldsOfJoin(Last(Lines(f), n));
  }

  /**
   For every file and count: TailFile gives the last cnt lines, ten for a count below one, if and only if
   each of them is plain.
   */
  lemma TailIsLast(f: seq<byte>, cnt: int)
    ensures TailsRight(f, cnt) <==> AllPlain(Last(Lines(f), if cnt >= 1 then cnt else 10))
  {
    hide Collected, Lines, Join, Last, AllPlain;
    if f == [] {
      CollectedEnd(f, -1, Count(cnt));
      NoLines(f, Count(cnt));
      NonePlain();
    } else {
      assert f[..|f| - 1 + 1] == f;
      SameTexts(f, cnt);
      CollectedExactly(f, |f| - 1, Count(cnt));
    }
  }

  lemma NonePlain()
    ensures AllPlain([])
  {
  }

  /** One line with a carriage return: its last line is reported as empty. */
  lemma ReturnBreaks()
    ensures !TailsRight([97, RETURN, NEWLINE], 1) && Collected([97, RETURN, NEWLINE], 2, 1) == [[]]
  {
    var f: seq<byte> := [97, RETURN, NEWLINE];
    assert Raw(f, 2) == 0 && Raw(f, 1) == 1 && Raw(f, 0) == 2;
    assert Walk(f, 2, 2) == 2 && Walk(f, 0, 2) == 2;
    CollectedStep(f, 2, 1);
    CollectedEnd(f, 1, 0);
    LinesOne(f, 2);
    assert f[..2] == [97, RETURN];
  }

  /** One line of 65536 bytes. */
  lemma LongBreaks()
    ensures !TailsRight(seq<byte>(65536, _ => 97), 1)
  {
    hide Lines, TailsRight;
    var f := seq<byte>(65536, _ => 97);
    LinesOne(f, 65536);
    assert f[..65536] == f && |[f]| == 1 && [f][0] == f;
    TailIsLast(f, 1);
  }
}
