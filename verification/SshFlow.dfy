/**
 Flow control between the two ends of an SSH channel (section 5.2 of RFC 4254), as steps.

 Each end runs any number of goroutines: one writer per extended-data code, readers on both receive
 streams, and the packet loop.  Every lock region of the implementation is one step; the packets
 travel over two first-in first-out links.  The theorems hold for every interleaving before close.
 */
module SshFlow {
  import opened Bits
  import opened BigEndian
  import opened SshChannel
  import opened Wrappers

  /** A goroutine in WriteExtended: what is left to send, and how much of it has its window reserved. */
  datatype Writer = Writer(code: nat, left: seq<byte>, reserved: nat)

  datatype Msg =
    | Data(code: nat, payload: seq<byte>)
    | Adjust(n: nat)
    | Confirm(window: nat, max: nat)

  /**
   One end.  uncredited holds the byte counts of readers between buffer.Read and the addition to
   myWindow, unsent those between the addition and the window adjust message.
   */
  datatype Endpoint = Endpoint(ch: State, writers: seq<Writer>, uncredited: seq<nat>, unsent: seq<nat>)

  /** What the applications did: bytes handed to writes and got from reads on the streams 0 and 1. */
  datatype Ledger = Ledger(wrote0: seq<byte>, wrote1: seq<byte>, read0: seq<byte>, read1: seq<byte>, discarded: nat)

  datatype System = System(a: Endpoint, b: Endpoint, la: Ledger, lb: Ledger, ab: seq<Msg>, ba: seq<Msg>)

  function Flip(s: System): System {
    System(s.b, s.a, s.lb, s.la, s.ba, s.ab)
  }

  datatype Action =
    | NewWriter(code: nat)
    | StartWrite(i: nat, data: seq<byte>)
    | Reserve(i: nat)
    | Send(i: nat)
    | Deliver(id: nat)
    | Read(ext: bool, room: nat)
    | Credit(j: nat)
    | SendAdjust(j: nat)
    | Accept

  datatype Result = Disabled | Failed(error: Error) | Next(sys: System)

  ghost predicate MsgFits(m: Msg) {
    match m
    case Data(code, payload) => code < U32_LIMIT && |payload| < U32_LIMIT
    case Adjust(n) => n < U32_LIMIT
    case Confirm(window, max) => window < U32_LIMIT && max < U32_LIMIT
  }

  /** The bytes on the wire; id is whatever channel number the receiver uses. */
  function Wire(m: Msg, id: nat): seq<byte>
    requires MsgFits(m) && id < U32_LIMIT
  {
    match m
    case Data(code, payload) => DataPacket(id, code, payload)
    case Adjust(n) => AdjustPacket(id, n)
    case Confirm(window, max) => ConfirmPacket(id, id, window, max)
  }

  function Remove(s: seq<nat>, j: nat): seq<nat>
    requires j < |s|
  {
    s[..j] + s[j + 1..]
  }

  predicate WithCode(ws: seq<Writer>, code: nat) {
    exists w :: w in ws && w.code == code
  }

  // --------------------------------------------------------------------------
  // The steps of end a
  // --------------------------------------------------------------------------

  /** Another goroutine gets its own extended-data stream. */
  function NewWriterStep(s: System, code: nat): Result {
    if code >= U32_LIMIT || WithCode(s.a.writers, code) then Disabled
    else Next(s.(a := s.a.(writers := s.a.writers + [Writer(code, [], 0)])))
  }

  function Wrote(l: Ledger, code: nat, data: seq<byte>): Ledger {
    l.(wrote0 := if code == 0 then l.wrote0 + data else l.wrote0,
       wrote1 := if code == 1 then l.wrote1 + data else l.wrote1)
  }

  /** WriteExtended is called. */
  function StartWriteStep(s: System, i: nat, data: seq<byte>): Result {
    if i >= |s.a.writers| || s.a.writers[i].left != [] || !s.a.ch.decided || |data| >= U32_LIMIT then Disabled else
    var w := s.a.writers[i];
    Next(s.(a := s.a.(writers := s.a.writers[i := w.(left := data)]), la := Wrote(s.la, w.code, data)))
  }

  /** The reservation at the top of the loop; it waits while the window is empty. */
  function ReserveStep(s: System, i: nat): Result {
    if i >= |s.a.writers| || s.a.writers[i].left == [] || s.a.writers[i].reserved > 0 || s.a.ch.win == 0
    then Disabled else
    var w := s.a.writers[i];
    var n := Reserved(s.a.ch.win, Want(s.a.ch.maxRemote, |w.left|));
    Next(s.(a := s.a.(ch := s.a.ch.(win := s.a.ch.win - n), writers := s.a.writers[i := w.(reserved := n)])))
  }

  /** The rest of the loop body: the chunk goes out. */
  function SendStep(s: System, i: nat): Result {
    if i >= |s.a.writers| || s.a.writers[i].reserved == 0 || s.a.writers[i].reserved > |s.a.writers[i].left|
    then Disabled else
    var w := s.a.writers[i];
    Next(s.(a := s.a.(writers := s.a.writers[i := w.(left := w.left[w.reserved..], reserved := 0)]),
            ab := s.ab + [Data(w.code, w.left[..w.reserved])]))
  }

  /** The packet loop takes the next packet off the link and runs its handler on the bytes. */
  ghost function DeliverStep(s: System, id: nat): Result {
    if s.ba == [] || id >= U32_LIMIT || !MsgFits(s.ba[0]) || !Fits(s.a.ch) then Disabled else
    var r := HandlePacket(s.a.ch, Wire(s.ba[0], id));
    if r.1.Some? then Failed(r.1.value) else
    Next(s.(a := s.a.(ch := r.0), ba := s.ba[1..], la := Discard(s.la, s.ba[0])))
  }

  function Discard(l: Ledger, m: Msg): Ledger {
    if m.Data? && m.code > 1 then l.(discarded := l.discarded + |m.payload|) else l
  }

  /** ReadExtended takes bytes out of a buffer. */
  function ReadStep(s: System, ext: bool, room: nat): Result {
    var c := s.a.ch;
    var buf := if ext then c.ext else c.pending;
    if room == 0 || buf == [] then Disabled else
    var n := if room < |buf| then room else |buf|;
    Next(s.(a := s.a.(ch := Drained(c, if ext then 1 else 0, n), uncredited := s.a.uncredited + [n]),
            la := if ext then s.la.(read1 := s.la.read1 + buf[..n]) else s.la.(read0 := s.la.read0 + buf[..n])))
  }

  /** The first half of adjustWindow: the 32-bit addition under the window lock. */
  function CreditStep(s: System, j: nat): Result {
    if j >= |s.a.uncredited| then Disabled else
    Next(s.(a := s.a.(ch := Credited(s.a.ch, s.a.uncredited[j]),
                      uncredited := Remove(s.a.uncredited, j), unsent := s.a.unsent + [s.a.uncredited[j]])))
  }

  /** The second half of adjustWindow: the message. */
  function SendAdjustStep(s: System, j: nat): Result {
    if j >= |s.a.unsent| then Disabled else
    Next(s.(a := s.a.(unsent := Remove(s.a.unsent, j)), ab := s.ab + [Adjust(s.a.unsent[j])]))
  }

  /** Accept, possible once and only at the end that did not open the channel. */
  function AcceptStep(s: System): Result {
    if s.a.ch.outbound || s.a.ch.decided then Disabled else
    Next(s.(a := s.a.(ch := s.a.ch.(decided := true, maxIncoming := CHANNEL_MAX_PACKET)),
            ab := s.ab + [Confirm(s.a.ch.myWindow, CHANNEL_MAX_PACKET)]))
  }

  ghost function Act(s: System, act: Action): Result {
    match act
    case NewWriter(code) => NewWriterStep(s, code)
    case StartWrite(i, data) => StartWriteStep(s, i, data)
    case Reserve(i) => ReserveStep(s, i)
    case Send(i) => SendStep(s, i)
    case Deliver(id) => DeliverStep(s, id)
    case Read(ext, room) => ReadStep(s, ext, room)
    case Credit(j) => CreditStep(s, j)
    case SendAdjust(j) => SendAdjustStep(s, j)
    case Accept => AcceptStep(s)
  }

  /** A step of either end. */
  ghost function Step(s: System, byA: bool, act: Action): Result {
    if byA then Act(s, act) else
    match Act(Flip(s), act)
    case Next(t) => Next(Flip(t))
    case r => r
  }

  /**
   After openChannel at a and handleChannelOpen at b: a has announced its window in the open
   message, b has not accepted yet.
   */
  function Opened(): System {
    System(Endpoint(State(true, false, CHANNEL_MAX_PACKET, 0, 0, CHANNEL_WINDOW_SIZE, [], []), [], [], []),
           Endpoint(State(false, false, 0, CHANNEL_MAX_PACKET, CHANNEL_WINDOW_SIZE, CHANNEL_WINDOW_SIZE, [], []),
                    [], [], []),
           Ledger([], [], [], [], 0), Ledger([], [], [], [], 0), [], [])
  }

  ghost predicate Reachable(s: System, steps: nat)
    decreases steps
  {
    if steps == 0 then s == Opened()
    else exists r: System, byA: bool, act: Action :: Reachable(r, steps - 1) && Step(r, byA, act) == Next(s)
  }

  // --------------------------------------------------------------------------
  // Measures
  // --------------------------------------------------------------------------

  function Sum(s: seq<nat>): nat {
    if s == [] then 0 else s[0] + Sum(s[1..])
  }

  function ReservedSum(ws: seq<Writer>): nat {
    if ws == [] then 0 else ws[0].reserved + ReservedSum(ws[1..])
  }

  function DataBytes(q: seq<Msg>): nat {
    if q == [] then 0 else (if q[0].Data? then |q[0].payload| else 0) + DataBytes(q[1..])
  }

  /** Window on its way to the sender. */
  function CreditBytes(q: seq<Msg>): nat {
    if q == [] then 0
    else (match q[0] case Adjust(n) => n case Confirm(w, _) => w case Data(_, _) => 0) + CreditBytes(q[1..])
  }

  function Confirms(q: seq<Msg>): nat {
    if q == [] then 0 else (if q[0].Confirm? then 1 else 0) + Confirms(q[1..])
  }

  /** The bytes of one stream on a link, in order. */
  function InFlight(q: seq<Msg>, code: nat): seq<byte> {
    if q == [] then [] else Part(q[0], code) + InFlight(q[1..], code)
  }

  function Part(m: Msg, code: nat): seq<byte> {
    if m.Data? && m.code == code then m.payload else []
  }

  /** The bytes that the writer of one stream still has to send. */
  function LeftOf(ws: seq<Writer>, code: nat): seq<byte> {
    if ws == [] then [] else (if ws[0].code == code then ws[0].left else []) + LeftOf(ws[1..], code)
  }

  lemma {:induction false} SumAppend(s: seq<nat>, n: nat)
    ensures Sum(s + [n]) == Sum(s) + n
  {
    if s != [] {
      SumAppend(s[1..], n);
      assert (s + [n])[1..] == s[1..] + [n];
    }
  }

  lemma {:induction false} SumRemove(s: seq<nat>, j: nat)
    requires j < |s|
    ensures Sum(Remove(s, j)) + s[j] == Sum(s)
  {
    if j == 0 {
      assert Remove(s, 0) == s[1..];
    } else {
      SumRemove(s[1..], j - 1);
      assert Remove(s, j) == [s[0]] + Remove(s[1..], j - 1);
    }
  }

  lemma {:induction false} ReservedUpdate(ws: seq<Writer>, i: nat, w: Writer)
    requires i < |ws|
    ensures ReservedSum(ws[i := w]) + ws[i].reserved == ReservedSum(ws) + w.reserved
  {
    if i > 0 {
      ReservedUpdate(ws[1..], i - 1, w);
      assert ws[i := w][1..] == ws[1..][i - 1 := w];
    } else {
      assert ws[0 := w][1..] == ws[1..];
    }
  }

  lemma {:induction false} AppendMsg(q: seq<Msg>, m: Msg)
    ensures DataBytes(q + [m]) == DataBytes(q) + DataBytes([m])
    ensures CreditBytes(q + [m]) == CreditBytes(q) + CreditBytes([m])
    ensures Confirms(q + [m]) == Confirms(q) + Confirms([m])
  {
    if q == [] {
      assert q + [m] == [m];
    } else {
      AppendMsg(q[1..], m);
      assert (q + [m])[1..] == q[1..] + [m];
    }
  }

  lemma {:induction false} AppendInFlight(q: seq<Msg>, m: Msg, code: nat)
    ensures InFlight(q + [m], code) == InFlight(q, code) + Part(m, code)
  {
    if q == [] {
      assert q + [m] == [m] && InFlight([m], code) == Part(m, code) + [];
    } else {
      AppendInFlight(q[1..], m, code);
      assert (q + [m])[1..] == q[1..] + [m];
      Assoc(Part(q[0], code), InFlight(q[1..], code), Part(m, code));
    }
  }

  lemma Assoc(a: seq<byte>, b: seq<byte>, c: seq<byte>)
    ensures a + (b + c) == (a + b) + c
  {
  }

  lemma AppendOther(q: seq<Msg>, m: Msg, code: nat)
    requires Part(m, code) == []
    ensures InFlight(q + [m], code) == InFlight(q, code)
  {
    AppendInFlight(q, m, code);
    assert InFlight(q, code) + [] == InFlight(q, code);
  }

  /** The codes of the writers are pairwise different. */
  predicate DistinctCodes(ws: seq<Writer>) {
    forall i, j :: 0 <= i < j < |ws| ==> ws[i].code != ws[j].code
  }

  lemma {:induction false} NoWriter(ws: seq<Writer>, code: nat)
    requires forall w :: w in ws ==> w.code != code
    ensures LeftOf(ws, code) == []
  {
    if ws != [] {
      NoWriter(ws[1..], code);
    }
  }

  /** With one writer per code, LeftOf is what that writer has left. */
  lemma {:induction false} LeftAt(ws: seq<Writer>, i: nat, code: nat)
    requires i < |ws| && DistinctCodes(ws)
    ensures ws[i].code == code ==> LeftOf(ws, code) == ws[i].left
  {
    if ws[i].code == code {
      if i == 0 {
        NoWriter(ws[1..], code);
      } else {
        LeftAt(ws[1..], i - 1, code);
      }
    }
  }

  lemma {:induction false} LeftOther(ws: seq<Writer>, i: nat, w: Writer, code: nat)
    requires i < |ws| && w.code == ws[i].code != code
    ensures LeftOf(ws[i := w], code) == LeftOf(ws, code)
  {
    if i == 0 {
      assert ws[0 := w][1..] == ws[1..];
    } else {
      LeftOther(ws[1..], i - 1, w, code);
      assert ws[i := w][1..] == ws[1..][i - 1 := w];
    }
  }

  /** Updating a writer replaces what its own stream has left and nothing else. */
  lemma LeftUpdate(ws: seq<Writer>, i: nat, w: Writer, code: nat)
    requires i < |ws| && DistinctCodes(ws) && w.code == ws[i].code
    ensures DistinctCodes(ws[i := w])
    ensures LeftOf(ws[i := w], code) == if w.code == code then w.left else LeftOf(ws, code)
    ensures w.code == code ==> LeftOf(ws, code) == ws[i].left
  {
    if w.code == code {
      LeftAt(ws, i, code);
      LeftAt(ws[i := w], i, code);
    } else {
      LeftOther(ws, i, w, code);
    }
  }

  // --------------------------------------------------------------------------
  // The invariant
  // --------------------------------------------------------------------------

  /** The end has told its peer about its receive window: in the open message or in the confirmation. */
  predicate Announced(e: Endpoint) {
    e.ch.outbound || e.ch.decided
  }

  /**
   The window that rx counts is held by tx, reserved by its writers, in flight as data, or on its way
   back; and what rx does not count is buffered, being credited, or was discarded.
   */
  ghost predicate Conserved(tx: Endpoint, rx: Endpoint, discarded: nat, fwd: seq<Msg>, back: seq<Msg>) {
    && tx.ch.win + ReservedSum(tx.writers) + DataBytes(fwd) + CreditBytes(back) + Sum(rx.unsent) ==
       (if Announced(rx) then rx.ch.myWindow else 0)
    && (!Announced(rx) ==> rx.ch.myWindow == CHANNEL_WINDOW_SIZE)
    && rx.ch.myWindow + |rx.ch.pending| + |rx.ch.ext| + Sum(rx.uncredited) + discarded == CHANNEL_WINDOW_SIZE
  }

  function Stream(read: seq<byte>, buffered: seq<byte>, inFlight: seq<byte>, left: seq<byte>): seq<byte> {
    read + (buffered + (inFlight + left))
  }

  lemma StreamRead(r: seq<byte>, b: seq<byte>, f: seq<byte>, l: seq<byte>, n: nat)
    requires n <= |b|
    ensures Stream(r + b[..n], b[n..], f, l) == Stream(r, b, f, l)
  {
    assert b == b[..n] + b[n..];
  }

  lemma StreamDeliver(r: seq<byte>, b: seq<byte>, p: seq<byte>, f: seq<byte>, l: seq<byte>)
    ensures Stream(r, b + p, f, l) == Stream(r, b, p + f, l)
  {
  }

  lemma StreamSend(r: seq<byte>, b: seq<byte>, f: seq<byte>, l: seq<byte>, n: nat)
    requires n <= |l|
    ensures Stream(r, b, f + l[..n], l[n..]) == Stream(r, b, f, l)
  {
    assert l == l[..n] + l[n..];
  }

  lemma StreamWrite(r: seq<byte>, b: seq<byte>, f: seq<byte>, data: seq<byte>)
    ensures Stream(r, b, f, []) + data == Stream(r, b, f, data)
  {
  }

  /** Every byte written on a stream is read, buffered, in flight or still with the writer, in this order. */
  ghost predicate Ordered(tx: Endpoint, rx: Endpoint, wrote: Ledger, read: Ledger, fwd: seq<Msg>) {
    && wrote.wrote0 == Stream(read.read0, rx.ch.pending, InFlight(fwd, 0), LeftOf(tx.writers, 0))
    && wrote.wrote1 == Stream(read.read1, rx.ch.ext, InFlight(fwd, 1), LeftOf(tx.writers, 1))
  }

  predicate WriterOk(w: Writer) {
    w.code < U32_LIMIT && |w.left| < U32_LIMIT && w.reserved <= |w.left| && w.reserved <= CHANNEL_MAX_PACKET
  }

  predicate MsgOk(m: Msg) {
    match m
    case Data(code, payload) => code < U32_LIMIT && 0 < |payload| <= CHANNEL_MAX_PACKET
    case Adjust(n) => n > 0
    case Confirm(window, max) => max == CHANNEL_MAX_PACKET
  }

  predicate Positive(s: seq<nat>) {
    s == [] || (s[0] > 0 && Positive(s[1..]))
  }

  ghost predicate Limits(tx: Endpoint, rx: Endpoint, fwd: seq<Msg>) {
    && DistinctCodes(tx.writers)
    && (forall w :: w in tx.writers ==> WriterOk(w))
    && (forall m :: m in fwd ==> MsgOk(m))
    && tx.ch.maxRemote <= CHANNEL_MAX_PACKET
    && (tx.ch.decided || !tx.ch.outbound ==> tx.ch.maxRemote == CHANNEL_MAX_PACKET)
    && (Announced(rx) ==> rx.ch.maxIncoming == CHANNEL_MAX_PACKET)
    && tx.ch.maxIncoming <= CHANNEL_MAX_PACKET
    && Positive(tx.uncredited) && Positive(tx.unsent)
    && (!tx.ch.decided ==> forall w :: w in tx.writers ==> w.left == [])
  }

  /** The inbound end is decided before the outbound end; one confirmation travels in between. */
  ghost predicate Handshake(tx: State, rx: State, back: seq<Msg>) {
    && tx.outbound != rx.outbound
    && (tx.outbound && tx.decided ==> rx.decided)
    && Confirms(back) == (if tx.outbound && rx.decided && !tx.decided then 1 else 0)
  }

  /** One direction of the channel. */
  ghost predicate Half(tx: Endpoint, rx: Endpoint, wrote: Ledger, read: Ledger, fwd: seq<Msg>, back: seq<Msg>) {
    && Conserved(tx, rx, read.discarded, fwd, back)
    && Ordered(tx, rx, wrote, read, fwd)
    && Limits(tx, rx, fwd)
    && Handshake(tx.ch, rx.ch, back)
  }

  ghost predicate Sends(s: System) {
    Half(s.a, s.b, s.la, s.lb, s.ab, s.ba)
  }

  ghost predicate Receives(s: System) {
    Half(s.b, s.a, s.lb, s.la, s.ba, s.ab)
  }

  ghost predicate Inv(s: System) {
    Sends(s) && Receives(s)
  }

  lemma InvOpened(s: System)
    requires s == Opened()
    ensures Inv(s)
  {
  }

  // --------------------------------------------------------------------------
  // Every step keeps the invariant
  // --------------------------------------------------------------------------

  lemma {:induction false} ReservedAppend(ws: seq<Writer>, w: Writer)
    ensures ReservedSum(ws + [w]) == ReservedSum(ws) + w.reserved
  {
    if ws == [] {
      assert ws + [w] == [w];
    } else {
      ReservedAppend(ws[1..], w);
      assert (ws + [w])[1..] == ws[1..] + [w];
    }
  }

  lemma {:induction false} LeftAppend(ws: seq<Writer>, w: Writer, code: nat)
    requires w.left == []
    ensures LeftOf(ws + [w], code) == LeftOf(ws, code)
  {
    if ws == [] {
      assert ws + [w] == [w];
    } else {
      LeftAppend(ws[1..], w, code);
      assert (ws + [w])[1..] == ws[1..] + [w];
    }
  }

  lemma NewCode(ws: seq<Writer>, w: Writer)
    requires DistinctCodes(ws) && !WithCode(ws, w.code)
    ensures DistinctCodes(ws + [w])
  {
    assert forall i :: 0 <= i < |ws| ==> ws[i] in ws;
  }

  lemma NewWriterKeeps(s: System, code: nat)
    requires Inv(s) && NewWriterStep(s, code).Next?
    ensures Inv(NewWriterStep(s, code).sys)
  {
    var w := Writer(code, [], 0);
    ReservedAppend(s.a.writers, w);
    LeftAppend(s.a.writers, w, 0);
    LeftAppend(s.a.writers, w, 1);
    NewCode(s.a.writers, w);
  }

  lemma StartWriteKeeps(s: System, i: nat, data: seq<byte>)
    requires Inv(s) && StartWriteStep(s, i, data).Next?
    ensures Inv(StartWriteStep(s, i, data).sys)
  {
    StartWriteSends(s, i, data);
  }

  lemma StartWriteSends(s: System, i: nat, data: seq<byte>)
    requires Sends(s) && StartWriteStep(s, i, data).Next?
    ensures Sends(StartWriteStep(s, i, data).sys)
  {
    hide Stream, InFlight, DataBytes, CreditBytes, Sum, Confirms, Positive, ReservedSum, LeftOf;
    var w := s.a.writers[i].(left := data);
    assert s.a.writers[i] in s.a.writers;
    ReservedUpdate(s.a.writers, i, w);
    LeftUpdate(s.a.writers, i, w, 0);
    LeftUpdate(s.a.writers, i, w, 1);
    StreamWrite(s.lb.read0, s.b.ch.pending, InFlight(s.ab, 0), data);
    StreamWrite(s.lb.read1, s.b.ch.ext, InFlight(s.ab, 1), data);
  }

  lemma ReserveKeeps(s: System, i: nat)
    requires Inv(s) && ReserveStep(s, i).Next?
    ensures Inv(ReserveStep(s, i).sys)
  {
    ReserveSends(s, i);
  }

  lemma ReserveSends(s: System, i: nat)
    requires Sends(s) && ReserveStep(s, i).Next?
    ensures Sends(ReserveStep(s, i).sys)
  {
    hide Stream, InFlight, DataBytes, CreditBytes, Sum, Confirms, Positive, ReservedSum, LeftOf;
    var c := s.a.ch;
    var n := Reserved(c.win, Want(c.maxRemote, |s.a.writers[i].left|));
    var w := s.a.writers[i].(reserved := n);
    assert s.a.writers[i] in s.a.writers;
    ReservedUpdate(s.a.writers, i, w);
    LeftUpdate(s.a.writers, i, w, 0);
    LeftUpdate(s.a.writers, i, w, 1);
  }

  lemma SendOrdered(s: System, i: nat)
    requires Sends(s) && SendStep(s, i).Next?
    ensures var t := SendStep(s, i).sys; DistinctCodes(t.a.writers) && Ordered(t.a, t.b, t.la, t.lb, t.ab)
  {
    var v := s.a.writers[i];
    var w := v.(left := v.left[v.reserved..], reserved := 0);
    var m := Data(v.code, v.left[..v.reserved]);
    LeftUpdate(s.a.writers, i, w, 0);
    LeftUpdate(s.a.writers, i, w, 1);
    if v.code == 0 {
      AppendInFlight(s.ab, m, 0);
      StreamSend(s.lb.read0, s.b.ch.pending, InFlight(s.ab, 0), v.left, v.reserved);
    } else {
      AppendOther(s.ab, m, 0);
    }
    if v.code == 1 {
      AppendInFlight(s.ab, m, 1);
      StreamSend(s.lb.read1, s.b.ch.ext, InFlight(s.ab, 1), v.left, v.reserved);
    } else {
      AppendOther(s.ab, m, 1);
    }
  }

  lemma SendSends(s: System, i: nat)
    requires Sends(s) && SendStep(s, i).Next?
    ensures Sends(SendStep(s, i).sys)
  {
    hide Stream, CreditBytes, Sum, Confirms, Positive, ReservedSum, LeftOf, Ordered;
    var v := s.a.writers[i];
    assert v in s.a.writers;
    ReservedUpdate(s.a.writers, i, v.(left := v.left[v.reserved..], reserved := 0));
    AppendMsg(s.ab, Data(v.code, v.left[..v.reserved]));
    SendOrdered(s, i);
  }

  lemma SendReceives(s: System, i: nat)
    requires Inv(s) && SendStep(s, i).Next?
    ensures Receives(SendStep(s, i).sys)
  {
    hide Sum, Positive, ReservedSum;
    var v := s.a.writers[i];
    AppendMsg(s.ab, Data(v.code, v.left[..v.reserved]));
  }

  lemma ReadReceives(s: System, ext: bool, room: nat)
    requires Receives(s) && ReadStep(s, ext, room).Next?
    ensures Receives(ReadStep(s, ext, room).sys)
  {
    hide InFlight, DataBytes, CreditBytes, Sum, Confirms, Positive, ReservedSum, LeftOf;
    var buf := if ext then s.a.ch.ext else s.a.ch.pending;
    var n := if room < |buf| then room else |buf|;
    SumAppend(s.a.uncredited, n);
    if ext {
      StreamRead(s.la.read1, buf, InFlight(s.ba, 1), LeftOf(s.b.writers, 1), n);
    } else {
      StreamRead(s.la.read0, buf, InFlight(s.ba, 0), LeftOf(s.b.writers, 0), n);
    }
  }

  lemma ReadKeeps(s: System, ext: bool, room: nat)
    requires Inv(s) && ReadStep(s, ext, room).Next?
    ensures Inv(ReadStep(s, ext, room).sys)
  {
    ReadReceives(s, ext, room);
    var buf := if ext then s.a.ch.ext else s.a.ch.pending;
    AppendPositive(s.a.uncredited, if room < |buf| then room else |buf|);
  }

  lemma {:induction false} RemovePositive(s: seq<nat>, j: nat)
    requires Positive(s) && j < |s|
    ensures Positive(Remove(s, j)) && s[j] > 0
  {
    if j == 0 {
      assert Remove(s, 0) == s[1..];
    } else {
      RemovePositive(s[1..], j - 1);
      assert Remove(s, j)[1..] == Remove(s[1..], j - 1);
    }
  }

  lemma {:induction false} AppendPositive(s: seq<nat>, n: nat)
    requires Positive(s) && n > 0
    ensures Positive(s + [n])
  {
    if s != [] {
      AppendPositive(s[1..], n);
      assert (s + [n])[1..] == s[1..] + [n];
    }
  }

  lemma CreditKeeps(s: System, j: nat)
    requires Inv(s) && CreditStep(s, j).Next?
    ensures Inv(CreditStep(s, j).sys)
  {
    CreditReceives(s, j);
    RemovePositive(s.a.uncredited, j);
    AppendPositive(s.a.unsent, s.a.uncredited[j]);
  }

  lemma CreditReceives(s: System, j: nat)
    requires Receives(s) && CreditStep(s, j).Next?
    ensures Receives(CreditStep(s, j).sys)
  {
    hide Stream, InFlight, DataBytes, CreditBytes, Sum, Confirms, Positive, ReservedSum, LeftOf;
    SumRemove(s.a.uncredited, j);
    SumAppend(s.a.unsent, s.a.uncredited[j]);
  }

  lemma SendAdjustSends(s: System, j: nat)
    requires Sends(s) && SendAdjustStep(s, j).Next?
    ensures Sends(SendAdjustStep(s, j).sys)
  {
    hide Stream, InFlight, CreditBytes, Sum, Confirms, ReservedSum, LeftOf;
    var m := Adjust(s.a.unsent[j]);
    RemovePositive(s.a.unsent, j);
    AppendMsg(s.ab, m);
    AppendOther(s.ab, m, 0);
    AppendOther(s.ab, m, 1);
  }

  lemma SendAdjustReceives(s: System, j: nat)
    requires Inv(s) && SendAdjustStep(s, j).Next?
    ensures Receives(SendAdjustStep(s, j).sys)
  {
    hide Stream, InFlight, DataBytes, Sum, Positive, ReservedSum, LeftOf;
    SumRemove(s.a.unsent, j);
    AppendMsg(s.ab, Adjust(s.a.unsent[j]));
  }

  lemma AcceptSends(s: System)
    requires Inv(s) && AcceptStep(s).Next?
    ensures Sends(AcceptStep(s).sys)
  {
    hide Stream, InFlight, CreditBytes, Sum, Confirms, ReservedSum, LeftOf, Positive;
    var m := Confirm(s.a.ch.myWindow, CHANNEL_MAX_PACKET);
    AppendMsg(s.ab, m);
    AppendOther(s.ab, m, 0);
    AppendOther(s.ab, m, 1);
  }

  lemma AcceptReceives(s: System)
    requires Inv(s) && AcceptStep(s).Next?
    ensures Receives(AcceptStep(s).sys)
  {
    hide Stream, InFlight, DataBytes, Sum, Positive, ReservedSum, LeftOf;
    AppendMsg(s.ab, Confirm(s.a.ch.myWindow, CHANNEL_MAX_PACKET));
  }

  // Delivery

  /** The next packet meets every condition that its handler checks. */
  ghost predicate HeadOk(m: Msg, c: State) {
    && MsgFits(m) && Fits(c)
    && match m
       case Data(code, payload) => 0 < |payload| <= c.myWindow && |payload| <= c.maxIncoming
       case Adjust(n) => c.win + n < U32_LIMIT
       case Confirm(window, max) =>
         c.outbound && !c.decided && c.win + window < U32_LIMIT && MIN_PACKET_LENGTH <= max <= 0x8000_0000
  }

  lemma HeadIsOk(s: System)
    requires Inv(s) && s.ba != []
    ensures HeadOk(s.ba[0], s.a.ch)
  {
    assert MsgOk(s.ba[0]);
  }

  lemma HandleHead(m: Msg, c: State, id: nat)
    requires HeadOk(m, c) && id < U32_LIMIT
    ensures HandlePacket(c, Wire(m, id)) == (Handled(m, c), None)
  {
    match m
    case Data(code, payload) => HandleDataPacket(c, id, code, payload);
    case Adjust(n) => HandleAdjustPacket(c, id, n);
    case Confirm(window, max) => HandleConfirmPacket(c, id, id, window, max);
  }

  /** No packet that the other end sends is refused. */
  lemma DeliverAccepted(s: System, id: nat)
    requires Inv(s) && s.ba != [] && id < U32_LIMIT
    ensures s.ba[0].Data? ==> |s.ba[0].payload| <= s.a.ch.myWindow
    ensures DeliverStep(s, id) == Next(Delivered(s))
  {
    HeadIsOk(s);
    HandleHead(s.ba[0], s.a.ch, id);
  }

  /** What the handlers make of a packet that they accept. */
  function Handled(m: Msg, c: State): State
    requires m.Data? ==> |m.payload| <= c.myWindow
  {
    match m
    case Data(code, payload) =>
      c.(myWindow := c.myWindow - |payload|,
         pending := if code == 0 then c.pending + payload else c.pending,
         ext := if code == 1 then c.ext + payload else c.ext)
    case Adjust(n) => c.(win := c.win + n)
    case Confirm(window, max) => c.(decided := true, maxRemote := max, win := c.win + window)
  }

  /** What delivering the next packet does. */
  function Delivered(s: System): System
    requires s.ba != [] && (s.ba[0].Data? ==> |s.ba[0].payload| <= s.a.ch.myWindow)
  {
    s.(a := s.a.(ch := Handled(s.ba[0], s.a.ch)), ba := s.ba[1..], la := Discard(s.la, s.ba[0]))
  }

  lemma DeliverOrdered(s: System)
    requires Inv(s) && s.ba != [] && (s.ba[0].Data? ==> |s.ba[0].payload| <= s.a.ch.myWindow)
    ensures var t := Delivered(s); Ordered(t.b, t.a, t.lb, t.la, t.ba) && Ordered(t.a, t.b, t.la, t.lb, t.ab)
  {
    var m, rest := s.ba[0], s.ba[1..];
    StreamDeliver(s.la.read0, s.a.ch.pending, Part(m, 0), InFlight(rest, 0), LeftOf(s.b.writers, 0));
    StreamDeliver(s.la.read1, s.a.ch.ext, Part(m, 1), InFlight(rest, 1), LeftOf(s.b.writers, 1));
    assert s.a.ch.pending + [] == s.a.ch.pending && s.a.ch.ext + [] == s.a.ch.ext;
  }

  lemma DeliverKeeps(s: System)
    requires Inv(s) && s.ba != [] && (s.ba[0].Data? ==> |s.ba[0].payload| <= s.a.ch.myWindow)
    ensures Inv(Delivered(s))
  {
    DeliverOrdered(s);
    DeliverReceives(s);
    DeliverSends(s);
  }

  lemma DeliverReceives(s: System)
    requires Inv(s) && s.ba != [] && (s.ba[0].Data? ==> |s.ba[0].payload| <= s.a.ch.myWindow)
    ensures Receives(Delivered(s))
  {
    hide Stream, Ordered, Sum, Positive, ReservedSum, LeftOf;
    DeliverOrdered(s);
    assert MsgOk(s.ba[0]);
  }

  lemma DeliverSends(s: System)
    requires Inv(s) && s.ba != [] && (s.ba[0].Data? ==> |s.ba[0].payload| <= s.a.ch.myWindow)
    ensures Sends(Delivered(s))
  {
    hide Stream, Ordered, Sum, Positive, ReservedSum, LeftOf;
    DeliverOrdered(s);
    assert MsgOk(s.ba[0]);
  }

  // --------------------------------------------------------------------------
  // The theorems
  // --------------------------------------------------------------------------

  lemma ActKeeps(s: System, act: Action)
    requires Inv(s)
    ensures !Act(s, act).Failed?
    ensures Act(s, act).Next? ==> Inv(Act(s, act).sys)
  {
    hide Half, HandlePacket, Delivered;
    match act
    case NewWriter(code) => if NewWriterStep(s, code).Next? { NewWriterKeeps(s, code); }
    case StartWrite(i, data) => if StartWriteStep(s, i, data).Next? { StartWriteKeeps(s, i, data); }
    case Reserve(i) => if ReserveStep(s, i).Next? { ReserveKeeps(s, i); }
    case Send(i) => if SendStep(s, i).Next? { SendSends(s, i); SendReceives(s, i); }
    case Deliver(id) => if s.ba != [] && id < U32_LIMIT { DeliverAccepted(s, id); DeliverKeeps(s); }
    case Read(ext, room) => if ReadStep(s, ext, room).Next? { ReadKeeps(s, ext, room); }
    case Credit(j) => if CreditStep(s, j).Next? { CreditKeeps(s, j); }
    case SendAdjust(j) => if SendAdjustStep(s, j).Next? { SendAdjustSends(s, j); SendAdjustReceives(s, j); }
    case Accept => if AcceptStep(s).Next? { AcceptSends(s); AcceptReceives(s); }
  }

  lemma StepKeeps(s: System, byA: bool, act: Action)
    requires Inv(s)
    ensures !Step(s, byA, act).Failed?
    ensures Step(s, byA, act).Next? ==> Inv(Step(s, byA, act).sys)
  {
    hide Act, Half;
    if byA {
      ActKeeps(s, act);
    } else {
      ActKeeps(Flip(s), act);
    }
  }

  lemma {:induction false} ReachableInv(s: System, steps: nat)
    requires Reachable(s, steps)
    ensures Inv(s)
    decreases steps
  {
    hide Step, Inv;
    if steps == 0 {
      InvOpened(s);
    } else {
      var r: System, byA: bool, act: Action :| Reachable(r, steps - 1) && Step(r, byA, act) == Next(s);
      ReachableInv(r, steps - 1);
      StepKeeps(r, byA, act);
    }
  }

  /**
   Safety.  However the goroutines of the two ends interleave, no packet is refused: the window is
   never overrun, no payload is too large or has a wrong length, no adjustment wraps, and the open
   response comes once.  The receive window never exceeds its size.
   */
  lemma NeverRefused(s: System, steps: nat, id: nat)
    requires Reachable(s, steps) && id < U32_LIMIT
    ensures s.ba != [] ==> DeliverStep(s, id).Next?
    ensures s.ab != [] ==> DeliverStep(Flip(s), id).Next?
    ensures s.a.ch.myWindow <= CHANNEL_WINDOW_SIZE && s.b.ch.myWindow <= CHANNEL_WINDOW_SIZE
    ensures s.a.ch.win <= s.b.ch.myWindow && s.b.ch.win <= s.a.ch.myWindow
  {
    ReachableInv(s, steps);
    if s.ba != [] {
      DeliverAccepted(s, id);
    }
    if s.ab != [] {
      DeliverAccepted(Flip(s), id);
    }
  }

  /**
   Conservation, for either direction.  The receiver's window is what the sender may still use, has
   reserved or has in flight, and what is on its way back to it; the receiver's window and what it has
   buffered, is crediting or has discarded make up the full window size.
   */
  lemma WindowConserved(s: System, steps: nat)
    requires Reachable(s, steps)
    ensures s.a.ch.win + ReservedSum(s.a.writers) + DataBytes(s.ab) + CreditBytes(s.ba) + Sum(s.b.unsent) ==
            (if Announced(s.b) then s.b.ch.myWindow else 0)
    ensures s.b.ch.win + ReservedSum(s.b.writers) + DataBytes(s.ba) + CreditBytes(s.ab) + Sum(s.a.unsent) ==
            (if Announced(s.a) then s.a.ch.myWindow else 0)
    ensures s.a.ch.myWindow + |s.a.ch.pending| + |s.a.ch.ext| + Sum(s.a.uncredited)
            + s.la.discarded == CHANNEL_WINDOW_SIZE
    ensures s.b.ch.myWindow + |s.b.ch.pending| + |s.b.ch.ext| + Sum(s.b.uncredited)
            + s.lb.discarded == CHANNEL_WINDOW_SIZE
  {
    hide Reachable, ReservedSum, DataBytes, CreditBytes, Sum, Announced;
    ReachableInv(s, steps);
  }

  /** Order.  What was read on a stream is at every moment a prefix of what was written on it. */
  lemma ReadInOrder(s: System, steps: nat)
    requires Reachable(s, steps)
    ensures s.lb.read0 <= s.la.wrote0 && s.lb.read1 <= s.la.wrote1
    ensures s.la.read0 <= s.lb.wrote0 && s.la.read1 <= s.lb.wrote1
  {
    ReachableInv(s, steps);
  }

  // --------------------------------------------------------------------------
  // Progress
  // --------------------------------------------------------------------------

  /** The steps that carry bytes or window along, as opposed to new work from the applications. */
  predicate Moves(act: Action) {
    !act.NewWriter? && !act.StartWrite? && !act.Accept?
  }

  ghost predicate CanMove(s: System) {
    exists byA: bool, act: Action :: Moves(act) && Step(s, byA, act).Next?
  }

  lemma {:induction false} SomeReserved(ws: seq<Writer>) returns (i: nat)
    requires ReservedSum(ws) > 0
    ensures i < |ws| && ws[i].reserved > 0
  {
    if ws[0].reserved > 0 {
      i := 0;
    } else {
      i := SomeReserved(ws[1..]);
      i := i + 1;
    }
  }

  /** A writer with bytes left is never stuck, unless the whole window was spent on discarded data. */
  lemma WriterMoves(s: System, i: nat)
    requires Inv(s) && i < |s.a.writers| && s.a.writers[i].left != []
    requires s.lb.discarded < CHANNEL_WINDOW_SIZE
    ensures CanMove(s)
  {
    hide Stream, Ordered, Sum, Positive, LeftOf, Handshake, DataBytes, CreditBytes, Confirms, DeliverStep;
    var w := s.a.writers[i];
    assert w in s.a.writers;
    if w.reserved > 0 {
      assert Step(s, true, Send(i)).Next?;
    } else if s.a.ch.win > 0 {
      assert Step(s, true, Reserve(i)).Next?;
    } else if s.ab != [] || s.ba != [] {
      DeliverMoves(s);
    } else if ReservedSum(s.a.writers) > 0 {
      var j := SomeReserved(s.a.writers);
      assert s.a.writers[j] in s.a.writers;
      assert Step(s, true, Send(j)).Next?;
    } else {
      ReceiverMoves(s);
    }
  }

  lemma ReceiverMoves(s: System)
    requires Inv(s) && s.a.ch.decided && s.a.ch.win == 0 && s.ab == [] && s.ba == []
    requires ReservedSum(s.a.writers) == 0 && s.lb.discarded < CHANNEL_WINDOW_SIZE
    ensures CanMove(s)
  {
    hide Stream, Ordered, Positive, LeftOf;
    if s.b.unsent != [] {
      assert Step(s, false, SendAdjust(0)).Next?;
    } else if s.b.uncredited != [] {
      assert Step(s, false, Credit(0)).Next?;
    } else {
      ReadMoves(s, s.b.ch.pending == []);
    }
  }

  lemma ReadMoves(s: System, ext: bool)
    requires (if ext then s.b.ch.ext else s.b.ch.pending) != []
    ensures CanMove(s)
  {
    assert Step(s, false, Read(ext, 1)).Next?;
  }

  lemma DeliverMoves(s: System)
    requires Inv(s) && (s.ab != [] || s.ba != [])
    ensures CanMove(s)
  {
    hide Half, HandlePacket;
    if s.ab != [] {
      DeliverAccepted(Flip(s), 0);
      assert Step(s, false, Deliver(0)).Next?;
    } else {
      DeliverAccepted(s, 0);
      assert Step(s, true, Deliver(0)).Next?;
    }
  }

  /**
   When nothing can move any more, every byte written at a was read at b, in order, unless all of the
   window went into data that b discarded.
   */
  lemma QuietMeansDelivered(s: System)
    requires Inv(s) && !CanMove(s) && s.lb.discarded < CHANNEL_WINDOW_SIZE
    ensures s.lb.read0 == s.la.wrote0 && s.lb.read1 == s.la.wrote1
    ensures forall w :: w in s.a.writers ==> w.left == []
  {
    forall w | w in s.a.writers ensures w.left == [] {
      var i :| 0 <= i < |s.a.writers| && s.a.writers[i] == w;
      if w.left != [] {
        WriterMoves(s, i);
      }
    }
    NothingLeft(s.a.writers, 0);
    NothingLeft(s.a.writers, 1);
    QuietReceiver(s);
    assert s.la.wrote0 == Stream(s.lb.read0, [], [], []);
    assert s.la.wrote1 == Stream(s.lb.read1, [], [], []);
  }

  lemma QuietReceiver(s: System)
    requires Inv(s)
    ensures s.ab != [] || s.b.ch.pending != [] || s.b.ch.ext != [] ==> CanMove(s)
  {
    if s.ab != [] {
      DeliverMoves(s);
    } else if s.b.ch.pending != [] {
      ReadMoves(s, false);
    } else if s.b.ch.ext != [] {
      ReadMoves(s, true);
    }
  }

  lemma {:induction false} NothingLeft(ws: seq<Writer>, code: nat)
    requires forall w :: w in ws ==> w.left == []
    ensures LeftOf(ws, code) == []
  {
    if ws != [] {
      assert ws[0] in ws;
      NothingLeft(ws[1..], code);
    }
  }

  // --------------------------------------------------------------------------
  // Termination of every run that gets no new work
  // --------------------------------------------------------------------------

  function LeftBytes(ws: seq<Writer>): nat {
    if ws == [] then 0 else |ws[0].left| + LeftBytes(ws[1..])
  }

  lemma {:induction false} LeftBytesUpdate(ws: seq<Writer>, i: nat, w: Writer)
    requires i < |ws|
    ensures LeftBytes(ws[i := w]) + |ws[i].left| == LeftBytes(ws) + |w.left|
  {
    if i > 0 {
      LeftBytesUpdate(ws[1..], i - 1, w);
      assert ws[i := w][1..] == ws[1..][i - 1 := w];
    } else {
      assert ws[0 := w][1..] == ws[1..];
    }
  }

  lemma {:induction false} ReservedWithinLeft(ws: seq<Writer>)
    requires forall w :: w in ws ==> WriterOk(w)
    ensures ReservedSum(ws) <= LeftBytes(ws)
  {
    if ws != [] {
      assert ws[0] in ws;
      ReservedWithinLeft(ws[1..]);
    }
  }

  /** How many stations the bytes of one direction, and the window they return, have yet to pass. */
  function Work(tx: Endpoint, rx: Endpoint, fwd: seq<Msg>, back: seq<Msg>): int {
    7 * LeftBytes(tx.writers) - ReservedSum(tx.writers) + 5 * DataBytes(fwd) + 4 * (|rx.ch.pending| + |rx.ch.ext|)
    + 3 * Sum(rx.uncredited) + 2 * Sum(rx.unsent) + CreditBytes(back) + Confirms(back)
  }

  function Remaining(s: System): int {
    Work(s.a, s.b, s.ab, s.ba) + Work(s.b, s.a, s.ba, s.ab)
  }

  lemma RemainingNat(s: System)
    requires Inv(s)
    ensures Remaining(s) >= 0
  {
    ReservedWithinLeft(s.a.writers);
    ReservedWithinLeft(s.b.writers);
  }

  lemma ActShrinks(s: System, act: Action)
    requires Inv(s) && Moves(act) && Act(s, act).Next?
    ensures Remaining(Act(s, act).sys) < Remaining(s)
  {
    match act
    case Reserve(i) => ReserveShrinks(s, i);
    case Send(i) => SendShrinks(s, i);
    case Deliver(id) => HeadIsOk(s); DeliverAccepted(s, id); DeliverShrinks(s);
    case Read(ext, room) => ReadShrinks(s, ext, room);
    case Credit(j) => CreditShrinks(s, j);
    case SendAdjust(j) => SendAdjustShrinks(s, j);
  }

  lemma ReadShrinks(s: System, ext: bool, room: nat)
    requires ReadStep(s, ext, room).Next?
    ensures Remaining(ReadStep(s, ext, room).sys) < Remaining(s)
  {
    var buf := if ext then s.a.ch.ext else s.a.ch.pending;
    SumAppend(s.a.uncredited, if room < |buf| then room else |buf|);
  }

  lemma CreditShrinks(s: System, j: nat)
    requires Inv(s) && CreditStep(s, j).Next?
    ensures Remaining(CreditStep(s, j).sys) < Remaining(s)
  {
    RemovePositive(s.a.uncredited, j);
    SumRemove(s.a.uncredited, j);
    SumAppend(s.a.unsent, s.a.uncredited[j]);
  }

  lemma SendAdjustShrinks(s: System, j: nat)
    requires Inv(s) && SendAdjustStep(s, j).Next?
    ensures Remaining(SendAdjustStep(s, j).sys) < Remaining(s)
  {
    RemovePositive(s.a.unsent, j);
    SumRemove(s.a.unsent, j);
    AppendMsg(s.ab, Adjust(s.a.unsent[j]));
  }

  lemma ReserveShrinks(s: System, i: nat)
    requires Inv(s) && ReserveStep(s, i).Next?
    ensures Remaining(ReserveStep(s, i).sys) < Remaining(s)
  {
    var w := s.a.writers[i];
    var n := Reserved(s.a.ch.win, Want(s.a.ch.maxRemote, |w.left|));
    assert w in s.a.writers;
    WriteProgress(s.a.ch.maxRemote, |w.left|, s.a.ch.win);
    ReservedUpdate(s.a.writers, i, w.(reserved := n));
    LeftBytesUpdate(s.a.writers, i, w.(reserved := n));
  }

  lemma SendShrinks(s: System, i: nat)
    requires Inv(s) && SendStep(s, i).Next?
    ensures Remaining(SendStep(s, i).sys) < Remaining(s)
  {
    var w := s.a.writers[i];
    var v := w.(left := w.left[w.reserved..], reserved := 0);
    ReservedUpdate(s.a.writers, i, v);
    LeftBytesUpdate(s.a.writers, i, v);
    AppendMsg(s.ab, Data(w.code, w.left[..w.reserved]));
  }

  lemma DeliverShrinks(s: System)
    requires Inv(s) && s.ba != [] && HeadOk(s.ba[0], s.a.ch)
    ensures Remaining(Delivered(s)) < Remaining(s)
  {
    assert MsgOk(s.ba[0]);
  }

  /** t comes after n moves from s. */
  ghost predicate Leads(s: System, t: System, n: nat)
    decreases n
  {
    if n == 0 then s == t
    else exists r: System, byA: bool, act: Action :: Moves(act) && Leads(s, r, n - 1) && Step(r, byA, act) == Next(t)
  }

  /** Without new writes, every run comes to rest, after no more moves than the measure allows. */
  lemma {:induction false} RunsEnd(s: System, t: System, n: nat)
    requires Inv(s) && Leads(s, t, n)
    ensures Inv(t) && Remaining(t) + n <= Remaining(s)
    decreases n
  {
    hide Step, Inv, Remaining;
    if n > 0 {
      var r: System, byA: bool, act: Action :| Moves(act) && Leads(s, r, n - 1) && Step(r, byA, act) == Next(t);
      RunsEnd(s, r, n - 1);
      StepShrinks(r, byA, act);
    }
  }

  lemma StepShrinks(s: System, byA: bool, act: Action)
    requires Inv(s) && Moves(act) && Step(s, byA, act).Next?
    ensures Inv(Step(s, byA, act).sys) && Remaining(Step(s, byA, act).sys) < Remaining(s)
  {
    hide Act, Half, Work;
    if byA {
      ActKeeps(s, act);
      ActShrinks(s, act);
    } else {
      ActKeeps(Flip(s), act);
      ActShrinks(Flip(s), act);
    }
  }

  /**
   Delivery.  Take any reachable state and let the goroutines run on in any order without new writes.
   The run is finite, and where it stops every byte written on the streams 0 and 1 has been read at
   the other end, in order, unless one end has discarded a full window of extended data.
   */
  lemma Delivery(s: System, steps: nat, t: System, n: nat)
    requires Reachable(s, steps) && Leads(s, t, n)
    ensures n <= Remaining(s)
    ensures !CanMove(t) && t.lb.discarded < CHANNEL_WINDOW_SIZE ==>
              t.lb.read0 == t.la.wrote0 && t.lb.read1 == t.la.wrote1
    ensures !CanMove(t) && t.la.discarded < CHANNEL_WINDOW_SIZE ==>
              t.la.read0 == t.lb.wrote0 && t.la.read1 == t.lb.wrote1
  {
    ReachableInv(s, steps);
    RunsEnd(s, t, n);
    RemainingNat(t);
    if !CanMove(t) && t.lb.discarded < CHANNEL_WINDOW_SIZE {
      QuietMeansDelivered(t);
    }
    if !CanMove(t) && t.la.discarded < CHANNEL_WINDOW_SIZE {
      FlipMoves(t);
      QuietMeansDelivered(Flip(t));
    }
  }

  lemma FlipMoves(s: System)
    ensures CanMove(Flip(s)) ==> CanMove(s)
  {
    if CanMove(Flip(s)) {
      var byA: bool, act: Action :| Moves(act) && Step(Flip(s), byA, act).Next?;
      assert Flip(Flip(s)) == s;
      assert Step(s, !byA, act).Next?;
    }
  }

  /** Once discarded data fills the window of b, nothing of the streams is in motion towards b. */
  lemma NothingFlows(s: System)
    requires Sends(s) && s.lb.discarded == CHANNEL_WINDOW_SIZE
    ensures s.a.ch.win == 0 && s.b.ch.pending == [] && s.b.ch.ext == []
    ensures s.ab != [] ==> !s.ab[0].Data?
  {
    assert s.ab != [] ==> MsgOk(s.ab[0]);
  }

  /** Discarded data is never credited: once it fills the window, the next step neither writes nor reads on. */
  lemma Starved(s: System, byA: bool, act: Action)
    requires Inv(s) && s.lb.discarded == CHANNEL_WINDOW_SIZE && Step(s, byA, act).Next?
    ensures byA ==> !act.Reserve?
    ensures SameReads(s.lb, Step(s, byA, act).sys.lb)
  {
    hide Act, Half;
    if byA {
      StarvedSender(s, act);
    } else {
      StarvedReceiver(Flip(s), act);
    }
  }

  /** t comes after s by any steps, new writes included. */
  ghost predicate Follows(s: System, t: System, n: nat)
    decreases n
  {
    if n == 0 then s == t
    else exists r: System, byA: bool, act: Action :: Follows(s, r, n - 1) && Step(r, byA, act) == Next(t)
  }

  /** What was written is never unwritten. */
  lemma WroteGrows(s: System, byA: bool, act: Action)
    requires Inv(s) && Step(s, byA, act).Next?
    ensures s.la.wrote0 <= Step(s, byA, act).sys.la.wrote0 && s.la.wrote1 <= Step(s, byA, act).sys.la.wrote1
  {
    hide Half, HandlePacket;
    if byA && act.Deliver? {
      DeliverAccepted(s, act.id);
    } else if !byA && act.Deliver? {
      DeliverAccepted(Flip(s), act.id);
    }
  }

  /**
   For good: whatever the two ends do after the window is spent on discarded data, nothing more is ever
   read, no write ever gets a reservation, and what was not delivered stays undelivered.
   */
  lemma {:induction false} StarvedForever(s: System, t: System, n: nat, i: nat)
    requires Inv(s) && s.lb.discarded == CHANNEL_WINDOW_SIZE && Follows(s, t, n)
    ensures Inv(t) && SameReads(s.lb, t.lb) && !Step(t, true, Reserve(i)).Next?
    ensures s.la.wrote0 <= t.la.wrote0 && s.la.wrote1 <= t.la.wrote1
    ensures s.lb.read0 != s.la.wrote0 ==> t.lb.read0 != t.la.wrote0
    ensures s.lb.read1 != s.la.wrote1 ==> t.lb.read1 != t.la.wrote1
    decreases n
  {
    hide Step, Inv;
    if n > 0 {
      var r: System, byA: bool, act: Action :| Follows(s, r, n - 1) && Step(r, byA, act) == Next(t);
      StarvedForever(s, r, n - 1, i);
      Starved(r, byA, act);
      StepKeeps(r, byA, act);
      WroteGrows(r, byA, act);
    }
    InvOrder(s);
    if Step(t, true, Reserve(i)).Next? {
      Starved(t, true, Reserve(i));
    }
  }

  lemma InvOrder(s: System)
    requires Inv(s)
    ensures s.lb.read0 <= s.la.wrote0 && s.lb.read1 <= s.la.wrote1
  {
  }

  predicate SameReads(l: Ledger, m: Ledger) {
    l.read0 == m.read0 && l.read1 == m.read1 && l.discarded == m.discarded
  }

  lemma StarvedSender(s: System, act: Action)
    requires Sends(s) && s.lb.discarded == CHANNEL_WINDOW_SIZE && Act(s, act).Next?
    ensures !act.Reserve? && Act(s, act).sys.lb == s.lb
  {
    NothingFlows(s);
    hide Half, HandlePacket;
  }

  lemma StarvedReceiver(s: System, act: Action)
    requires Inv(s) && s.la.discarded == CHANNEL_WINDOW_SIZE && Act(s, act).Next?
    ensures SameReads(s.la, Act(s, act).sys.la)
  {
    NothingFlows(Flip(s));
    if act.Deliver? {
      DeliverAccepted(s, act.id);
    }
  }

  /** The channel after a wrote k full packets of extended data with code 2 and b took them off the link. */
  function Wasted(k: nat): System
    requires k <= 64
  {
    var win := CHANNEL_WINDOW_SIZE - k * CHANNEL_MAX_PACKET;
    System(Endpoint(State(true, true, CHANNEL_MAX_PACKET, CHANNEL_MAX_PACKET, win, CHANNEL_WINDOW_SIZE, [], []),
                    [Writer(2, [], 0)], [], []),
           Endpoint(State(false, true, CHANNEL_MAX_PACKET, CHANNEL_MAX_PACKET, CHANNEL_WINDOW_SIZE, win, [], []),
                    [], [], []),
           Ledger([], [], [], [], 0), Ledger([], [], [], [], k * CHANNEL_MAX_PACKET), [], [])
  }

  lemma Extend(r: System, steps: nat, byA: bool, act: Action, t: System)
    requires Reachable(r, steps) && Step(r, byA, act) == Next(t)
    ensures Reachable(t, steps + 1)
  {
    hide Step;
  }

  lemma WastedStart() returns (s: System, steps: nat)
    ensures s == Wasted(0) && Reachable(s, steps)
  {
    hide Step, Wasted, Opened;
    var s0 := Opened();
    var s1 := WastedAccept();
    var s2 := WastedConfirm(s1);
    s := Wasted(0);
    steps := 0;
    Extend(s0, steps, false, Accept, s1);
    Extend(s1, steps + 1, true, Deliver(0), s2);
    Extend(s2, steps + 2, true, NewWriter(2), s);
    steps := 3;
  }

  lemma WastedAccept() returns (t: System)
    ensures Step(Opened(), false, Accept) == Next(t)
    ensures t == Wasted(0).(a := Opened().a, ba := [Confirm(CHANNEL_WINDOW_SIZE, CHANNEL_MAX_PACKET)])
  {
    t := Wasted(0).(a := Opened().a, ba := [Confirm(CHANNEL_WINDOW_SIZE, CHANNEL_MAX_PACKET)]);
  }

  lemma WastedConfirm(s: System) returns (t: System)
    requires s == Wasted(0).(a := Opened().a, ba := [Confirm(CHANNEL_WINDOW_SIZE, CHANNEL_MAX_PACKET)])
    ensures Step(s, true, Deliver(0)) == Next(t) && Step(t, true, NewWriter(2)) == Next(Wasted(0))
  {
    HandleHead(s.ba[0], s.a.ch, 0);
    t := Wasted(0).(a := Wasted(0).a.(writers := []));
  }

  /** StartWrite, Reserve and Send turn Wasted(k) into this state with the packet on the link. */
  function Flying(k: nat, data: seq<byte>): System
    requires k < 64
  {
    Wasted(k).(a := Wasted(k + 1).a, ab := [Data(2, data)])
  }

  lemma WastedSend(k: nat, data: seq<byte>) returns (s1: System, s2: System)
    requires k < 64 && |data| == CHANNEL_MAX_PACKET
    ensures Step(Wasted(k), true, StartWrite(0, data)) == Next(s1)
    ensures Step(s1, true, Reserve(0)) == Next(s2)
    ensures Step(s2, true, Send(0)) == Next(Flying(k, data))
  {
    var a := Wasted(k).a;
    s1 := Wasted(k).(a := a.(writers := [Writer(2, data, 0)]));
    s2 := s1.(a := Wasted(k + 1).a.(writers := [Writer(2, data, |data|)]));
    assert data[..|data|] == data && data[|data|..] == [];
  }

  lemma WastedDeliver(k: nat, data: seq<byte>)
    requires k < 64 && |data| == CHANNEL_MAX_PACKET
    ensures Step(Flying(k, data), false, Deliver(0)) == Next(Wasted(k + 1))
  {
    HandleHead(Data(2, data), Wasted(k).b.ch, 0);
  }

  lemma WastedNext(s: System, k: nat, steps: nat) returns (t: System)
    requires k < 64 && s == Wasted(k) && Reachable(s, steps)
    ensures t == Wasted(k + 1) && Reachable(t, steps + 4)
  {
    hide Step, Wasted, Flying;
    var data: seq<byte> := seq(CHANNEL_MAX_PACKET, _ => 0);
    var s1, s2 := WastedSend(k, data);
    var s3 := Flying(k, data);
    t := Wasted(k + 1);
    WastedDeliver(k, data);
    Extend(s, steps, true, StartWrite(0, data), s1);
    Extend(s1, steps + 1, true, Reserve(0), s2);
    Extend(s2, steps + 2, true, Send(0), s3);
    Extend(s3, steps + 3, false, Deliver(0), t);
  }

  lemma {:induction false} WastedReachable(k: nat) returns (s: System, steps: nat)
    requires k <= 64
    ensures s == Wasted(k) && Reachable(s, steps)
  {
    hide Step, Wasted;
    if k == 0 {
      s, steps := WastedStart();
    } else {
      s, steps := WastedReachable(k - 1);
      s := WastedNext(s, k - 1, steps);
      steps := steps + 4;
    }
  }

  /** Such a state is reached: delivery does fail when a whole window of data is discarded. */
  lemma StarvationReachable() returns (s: System, steps: nat)
    ensures Reachable(s, steps) && s.lb.discarded == CHANNEL_WINDOW_SIZE && s.a.ch.decided
  {
    hide Step;
    s, steps := WastedReachable(64);
  }
}
