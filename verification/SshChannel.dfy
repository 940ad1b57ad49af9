/**
 One end of an SSH channel (ssh/channel.go and the window of ssh/common.go): the send window, the
 receive window, the two receive buffers and the packets of the connection protocol that move them.
 Every handler is a function on a channel state; the class below runs the same handlers in place.
 */
module SshChannel {
  import opened Bits
  import opened ByteSeqs
  import opened BigEndian
  import opened SshBuffer
  import SshWire
  import opened Wrappers

  const MSG_OPEN_CONFIRM: byte := 91
  const MSG_OPEN_FAILURE: byte := 92
  const MSG_WINDOW_ADJUST: byte := 93
  const MSG_DATA: byte := 94
  const MSG_EXTENDED_DATA: byte := 95
  const MSG_EOF: byte := 96
  const MSG_CLOSE: byte := 97
  const MSG_REQUEST: byte := 98
  const MSG_SUCCESS: byte := 99
  const MSG_FAILURE: byte := 100

  const MIN_PACKET_LENGTH: nat := 9
  const CHANNEL_MAX_PACKET: nat := 0x8000
  const CHANNEL_WINDOW_SIZE: nat := 64 * CHANNEL_MAX_PACKET

  datatype Error =
    | ParseError | PayloadTooLarge | WrongLength | WroteTooMuch
    | ResponseOnInbound | DuplicateResponse | BadMaxPacket | BadWindowUpdate

  /** What the flow-control code of one end reads and writes. */
  datatype State = State(
    outbound: bool, decided: bool, maxIncoming: nat, maxRemote: nat,
    win: nat, myWindow: nat, pending: seq<byte>, ext: seq<byte>)

  predicate Fits(s: State) {
    s.win < U32_LIMIT && s.myWindow < U32_LIMIT && s.maxIncoming < U32_LIMIT && s.maxRemote < U32_LIMIT
  }

  // --------------------------------------------------------------------------
  // Packets
  // --------------------------------------------------------------------------

  /** The packet WriteExtended builds for one chunk. */
  function DataPacket(id: nat, code: nat, payload: seq<byte>): seq<byte>
    requires id < U32_LIMIT && code < U32_LIMIT && |payload| < U32_LIMIT
  {
    if code > 0
    then [MSG_EXTENDED_DATA] + U32(id) + U32(code) + U32(|payload|) + payload
    else [MSG_DATA] + U32(id) + U32(|payload|) + payload
  }

  function AdjustPacket(id: nat, n: nat): seq<byte>
    requires id < U32_LIMIT && n < U32_LIMIT
  {
    [MSG_WINDOW_ADJUST] + U32(id) + U32(n)
  }

  function ClosePacket(id: nat): seq<byte>
    requires id < U32_LIMIT
  {
    [MSG_CLOSE] + U32(id)
  }

  function ConfirmPacket(peersId: nat, myId: nat, window: nat, max: nat): seq<byte>
    requires peersId < U32_LIMIT && myId < U32_LIMIT && window < U32_LIMIT && max < U32_LIMIT
  {
    [MSG_OPEN_CONFIRM] + U32(peersId) + U32(myId) + U32(window) + U32(max)
  }

  // --------------------------------------------------------------------------
  // Handlers
  // --------------------------------------------------------------------------

  /** window.add: 32-bit addition that reports wrap-around instead of performing it. */
  function WindowAdd(win: nat, n: nat): Option<nat>
    requires win < U32_LIMIT && n < U32_LIMIT
  {
    if n == 0 then Some(win)
    else if (win + n) % U32_LIMIT < n then None
    else Some((win + n) % U32_LIMIT)
  }

  /** What WriteExtended asks of the window: the length of the data as a uint32, capped by the peer's limit. */
  function Want(maxRemote: nat, len: nat): nat {
    if maxRemote < len % U32_LIMIT then maxRemote else len % U32_LIMIT
  }

  /** A write of len bytes asks for at least one byte on every pass. */
  predicate Moves(maxRemote: nat, len: nat) {
    maxRemote > 0 && len < U32_LIMIT
  }

  function Reserved(win: nat, want: nat): nat {
    if win < want then win else want
  }

  function HandleData(s: State, p: seq<byte>): (State, Option<Error>)
    requires |p| > 0 && Fits(s)
  {
    var isExt := p[0] == MSG_EXTENDED_DATA;
    var header := if isExt then 13 else 9;
    if |p| < header then (s, Some(ParseError)) else
    var code := if isExt then FromU32(p[5..9]) else 0;
    var length := FromU32(p[header - 4..header]);
    if length == 0 then (s, None) else
    if length > s.maxIncoming then (s, Some(PayloadTooLarge)) else
    var data := p[header..];
    if length != |data| % U32_LIMIT then (s, Some(WrongLength)) else
    if s.myWindow < length then (s, Some(WroteTooMuch)) else
    var t := s.(myWindow := s.myWindow - length);
    if code == 1 then (t.(ext := s.ext + data), None)
    else if code > 0 then (t, None)
    else (t.(pending := s.pending + data), None)
  }

  function HandleAdjust(s: State, p: seq<byte>): (State, Option<Error>)
    requires |p| > 0 && Fits(s)
  {
    if |p| != 9 then (s, Some(ParseError)) else
    match WindowAdd(s.win, FromU32(p[5..9]))
    case None => (s, Some(BadWindowUpdate))
    case Some(w) => (s.(win := w), None)
  }

  function HandleConfirm(s: State, p: seq<byte>): (State, Option<Error>)
    requires |p| > 0 && Fits(s)
  {
    if |p| < 17 then (s, Some(ParseError)) else
    if !s.outbound then (s, Some(ResponseOnInbound)) else
    if s.decided then (s, Some(DuplicateResponse)) else
    var t := s.(decided := true);
    var max := FromU32(p[13..17]);
    if max < MIN_PACKET_LENGTH || max > 0x8000_0000 then (t, Some(BadMaxPacket)) else
    var w := WindowAdd(s.win, FromU32(p[9..13]));
    (t.(maxRemote := max, win := if w.Some? then w.value else s.win), None)
  }

  /** The fields of the messages about requests and refused opens. */
  function Fields(tag: byte): seq<SshWire.Kind> {
    if tag == MSG_OPEN_FAILURE then [SshWire.KUint32, SshWire.KUint32, SshWire.KString, SshWire.KString]
    else if tag == MSG_REQUEST then [SshWire.KUint32, SshWire.KString, SshWire.KBool, SshWire.KRest]
    else [SshWire.KUint32]
  }

  predicate Decodes(p: seq<byte>)
    requires |p| > 0
  {
    SshWire.Unmarshal(p[0], Fields(p[0]), p).Some?
  }

  function HandleFailure(s: State, p: seq<byte>): (State, Option<Error>)
    requires |p| > 0
  {
    if !Decodes(p) then (s, Some(ParseError)) else
    if !s.outbound then (s, Some(ResponseOnInbound)) else
    if s.decided then (s, Some(DuplicateResponse)) else
    (s.(decided := true), None)
  }

  /** The messages about channels that the loop dispatches to them. */
  predicate Covered(p: seq<byte>) {
    |p| > 0 && MSG_OPEN_CONFIRM <= p[0] <= MSG_FAILURE
  }

  /** Those that go on to the owner of the channel, into msg or incomingRequests. */
  predicate HandedOn(p: seq<byte>) {
    |p| > 0 && p[0] in {MSG_OPEN_CONFIRM, MSG_OPEN_FAILURE, MSG_REQUEST, MSG_SUCCESS, MSG_FAILURE}
  }

  /** handlePacket; EOF and close leave this part of the state alone. */
  function HandlePacket(s: State, p: seq<byte>): (State, Option<Error>)
    requires Covered(p) && Fits(s)
  {
    if p[0] == MSG_DATA || p[0] == MSG_EXTENDED_DATA then HandleData(s, p)
    else if p[0] == MSG_OPEN_CONFIRM then HandleConfirm(s, p)
    else if p[0] == MSG_OPEN_FAILURE then HandleFailure(s, p)
    else if p[0] == MSG_WINDOW_ADJUST then HandleAdjust(s, p)
    else (s, if HandedOn(p) && !Decodes(p) then Some(ParseError) else None)
  }

  // --------------------------------------------------------------------------
  // What the handlers do on the packets that the other end builds
  // --------------------------------------------------------------------------

  /**
   A data packet of the writer is accepted exactly when it fits both limits, and then arrives in its
   stream; an empty one is ignored.
   */
  lemma HandleDataPacket(s: State, id: nat, code: nat, payload: seq<byte>)
    requires Fits(s) && id < U32_LIMIT && code < U32_LIMIT && |payload| < U32_LIMIT
    ensures HandlePacket(s, DataPacket(id, code, payload)) ==
            if payload == [] then (s, None)
            else if |payload| > s.maxIncoming then (s, Some(PayloadTooLarge))
            else if |payload| > s.myWindow then (s, Some(WroteTooMuch))
            else (s.(myWindow := s.myWindow - |payload|,
                     pending := if code == 0 then s.pending + payload else s.pending,
                     ext := if code == 1 then s.ext + payload else s.ext), None)
  {
    var p := DataPacket(id, code, payload);
    U32RoundTrip(code);
    U32RoundTrip(|payload|);
    if code > 0 {
      assert p[5..9] == U32(code) && p[9..13] == U32(|payload|) && p[13..] == payload;
    } else {
      assert p[5..9] == U32(|payload|) && p[9..] == payload;
    }
  }

  lemma HandleAdjustPacket(s: State, id: nat, n: nat)
    requires Fits(s) && id < U32_LIMIT && n < U32_LIMIT
    ensures HandlePacket(s, AdjustPacket(id, n)) ==
            if s.win + n < U32_LIMIT then (s.(win := s.win + n), None) else (s, Some(BadWindowUpdate))
  {
    U32RoundTrip(n);
    assert AdjustPacket(id, n)[5..9] == U32(n);
  }

  lemma HandleConfirmPacket(s: State, peersId: nat, myId: nat, window: nat, max: nat)
    requires Fits(s) && peersId < U32_LIMIT && myId < U32_LIMIT && window < U32_LIMIT && max < U32_LIMIT
    ensures HandlePacket(s, ConfirmPacket(peersId, myId, window, max)) ==
            if !s.outbound then (s, Some(ResponseOnInbound))
            else if s.decided then (s, Some(DuplicateResponse))
            else if MIN_PACKET_LENGTH <= max <= 0x8000_0000
            then (s.(decided := true, maxRemote := max,
                     win := if s.win + window < U32_LIMIT then s.win + window else s.win), None)
            else (s.(decided := true), Some(BadMaxPacket))
  {
    U32RoundTrip(window);
    U32RoundTrip(max);
    var p := ConfirmPacket(peersId, myId, window, max);
    assert p[9..13] == U32(window) && p[13..17] == U32(max);
  }

  /** Confirmation and failure answer an open request of ours, and only the first of them does. */
  lemma AnsweredOnce(s: State, p: seq<byte>)
    requires Fits(s) && Covered(p) && (p[0] == MSG_OPEN_CONFIRM || p[0] == MSG_OPEN_FAILURE)
    ensures HandlePacket(s, p).1.None? ==> s.outbound && !s.decided && HandlePacket(s, p).0.decided
    ensures !s.outbound || s.decided ==> HandlePacket(s, p).0 == s && HandlePacket(s, p).1.Some?
  {
    hide Decodes, FromU32;
  }

  /** No packet takes an answer back. */
  lemma AnswerStays(s: State, p: seq<byte>)
    requires Fits(s) && Covered(p)
    ensures var t := HandlePacket(s, p).0;
            Fits(t) && t.outbound == s.outbound && (s.decided ==> t.decided)
  {
    hide Decodes, FromU32;
  }

  /** How many of the packets, handled one after the other, count as an answer. */
  function Answers(s: State, ps: seq<seq<byte>>): nat
    requires Fits(s) && forall i :: 0 <= i < |ps| ==> Covered(ps[i])
    decreases ps
  {
    if ps == [] then 0 else
    AnswerStays(s, ps[0]);
    var r := HandlePacket(s, ps[0]);
    (if (ps[0][0] == MSG_OPEN_CONFIRM || ps[0][0] == MSG_OPEN_FAILURE) && r.1.None? then 1 else 0)
      + Answers(r.0, ps[1..])
  }

  lemma {:induction false} AtMostOneAnswer(s: State, ps: seq<seq<byte>>)
    requires Fits(s) && forall i :: 0 <= i < |ps| ==> Covered(ps[i])
    ensures Answers(s, ps) <= if s.outbound && !s.decided then 1 else 0
    decreases ps
  {
    hide HandlePacket;
    if ps != [] {
      AnswerStays(s, ps[0]);
      if ps[0][0] == MSG_OPEN_CONFIRM || ps[0][0] == MSG_OPEN_FAILURE {
        AnsweredOnce(s, ps[0]);
      }
      AtMostOneAnswer(HandlePacket(s, ps[0]).0, ps[1..]);
    }
  }

  /** What is neither window, data, end nor close goes to the owner; a request changes nothing here. */
  lemma HandedOnExactly(s: State, p: seq<byte>)
    requires Fits(s) && Covered(p)
    ensures HandedOn(p) <==> !(93 <= p[0] <= 97)
    ensures p[0] >= 96 ==>
              HandlePacket(s, p) == (s, if p[0] >= 98 && !Decodes(p) then Some(ParseError) else None)
  {
    hide Decodes, FromU32;
  }

  /**
   WriteExtended makes progress on every pass exactly when the length is not a multiple of 2^32: the
   conversion of the length to uint32 would otherwise ask for an empty chunk forever.
   */
  lemma WriteProgress(maxRemote: nat, len: nat, win: nat)
    requires win > 0 && len > 0
    ensures Reserved(win, Want(maxRemote, len)) > 0 <==> maxRemote > 0 && len % U32_LIMIT != 0
    ensures len < U32_LIMIT && maxRemote > 0 ==> 0 < Reserved(win, Want(maxRemote, len)) <= len
    ensures len >= U32_LIMIT ==> len - Reserved(win, Want(maxRemote, len)) >= U32_LIMIT
  {
  }

  // --------------------------------------------------------------------------
  // The objects
  // --------------------------------------------------------------------------

  /** The send window (ssh/common.go). */
  class Window {
    var win: nat
    var closed: bool

    constructor (win: nat)
      ensures this.win == win && !closed
    {
      this.win, closed := win, false;
    }

    method Add(n: nat) returns (ok: bool)
      requires win < U32_LIMIT && n < U32_LIMIT
      modifies this
      ensures closed == old(closed) && win < U32_LIMIT
      ensures ok <==> old(win) + n < U32_LIMIT
      ensures win == if ok then old(win) + n else old(win)
      ensures WindowAdd(old(win), n) == if ok then Some(win) else None
    {
      if n == 0 {
        return true;
      }
      if (win + n) % U32_LIMIT < n {
        return false;
      }
      win := (win + n) % U32_LIMIT;
      return true;
    }

    method Close()
      modifies this
      ensures closed && win == old(win)
    {
      closed := true;
    }

    /**
     Waits for window and takes at most what is asked for.  The updates that arrive while it waits
     are handed in; when they run out it still waits.
     */
    method Reserve(want: nat, arrivals: seq<nat>) returns (got: nat, outcome: Outcome, used: nat, ghost granted: nat)
      requires win < U32_LIMIT && forall i :: 0 <= i < |arrivals| ==> arrivals[i] < U32_LIMIT
      modifies this
      ensures used <= |arrivals| && closed == old(closed) && win < U32_LIMIT
      ensures win + got == old(win) + granted && got <= want
      ensures outcome == EOF <==> closed
      ensures outcome == Blocked <==> !closed && old(win) == 0 && forall i :: 0 <= i < |arrivals| ==> arrivals[i] == 0
      ensures outcome == Done && want > 0 ==> got > 0
      ensures outcome == Blocked ==> got == 0 && used == |arrivals|
      ensures old(win) > 0 || closed ==> used == 0 && granted == 0
    {
      used, granted := 0, 0;
      while win == 0 && !closed && used < |arrivals|
        invariant used <= |arrivals| && win < U32_LIMIT && closed == old(closed) && win == old(win) + granted
        invariant win == 0 ==> forall i :: 0 <= i < used ==> arrivals[i] == 0
        invariant win > 0 && used > 0 ==> arrivals[used - 1] > 0
        invariant (old(win) > 0 || closed ==> used == 0) && (used == 0 ==> granted == 0)
      {
        var ok := Add(arrivals[used]);
        granted := granted + arrivals[used];
        used := used + 1;
      }
      if win == 0 && !closed {
        return 0, Blocked, used, granted;
      }
      got := if win < want then win else want;
      win := win - got;
      outcome := if closed then EOF else Done;
    }
  }

  lemma NothingRead(s: State, code: nat)
    requires code > 1 && s.myWindow < U32_LIMIT
    ensures Credited(Drained(s, code, 0), 0) == s
  {
  }

  lemma CreditModulo(w: nat, n: nat)
    requires w < U32_LIMIT
    ensures (w + n % U32_LIMIT) % U32_LIMIT == (w + n) % U32_LIMIT
    ensures n == 0 ==> (w + n) % U32_LIMIT == w
  {
  }

  /** The state after n bytes were taken out of a stream. */
  function Drained(s: State, code: nat, n: nat): State
    requires code == 0 ==> n <= |s.pending|
    requires code == 1 ==> n <= |s.ext|
  {
    s.(pending := if code == 0 then s.pending[n..] else s.pending, ext := if code == 1 then s.ext[n..] else s.ext)
  }

  /** The state after n bytes were credited to the peer. */
  function Credited(s: State, n: nat): State {
    s.(myWindow := (s.myWindow + n) % U32_LIMIT)
  }

  ghost predicate Separate(a: Buffer, b: Buffer)
    reads a, b, a.nodes, b.nodes
  {
    && a != b && a.Valid() && b.Valid()
    && (forall e :: e in a.nodes ==> e !in b.nodes) && (forall e :: e in b.nodes ==> e !in a.nodes)
  }

  /** One end of a channel; sent collects what it hands to the transport, handed what it hands to its owner. */
  class Channel {
    const outbound: bool
    const localId: nat
    const remoteWin: Window
    const pending: Buffer
    const extPending: Buffer
    var remoteId: nat
    var decided: bool
    var maxIncoming: nat
    var maxRemote: nat
    var myWindow: nat
    var sentEOF: bool
    var sentClose: bool
    var sent: seq<seq<byte>>
    var handed: seq<seq<byte>>

    ghost predicate Valid()
      reads this, remoteWin, pending, extPending, pending.nodes, extPending.nodes
    {
      && Separate(pending, extPending)
      && localId < U32_LIMIT && remoteId < U32_LIMIT && Fits(View())
    }

    ghost function View(): State
      reads this, remoteWin, pending, extPending
    {
      State(outbound, decided, maxIncoming, maxRemote, remoteWin.win, myWindow, pending.Contents(),
          extPending.Contents())
    }

    /** newChannel. */
    constructor (outbound: bool, localId: nat)
      requires localId < U32_LIMIT
      ensures Valid() && !decided && !sentEOF && !sentClose && sent == [] && handed == []
      ensures this.localId == localId && remoteId == 0 && fresh(remoteWin) && !remoteWin.closed
      ensures fresh(pending) && fresh(extPending) && !pending.closed && !extPending.closed
      ensures View() == State(outbound, false, 0, 0, 0, CHANNEL_WINDOW_SIZE, [], [])
    {
      this.outbound, this.localId := outbound, localId;
      remoteWin := new Window(0);
      pending := new Buffer();
      extPending := new Buffer();
      remoteId, decided, maxIncoming, maxRemote := 0, false, 0, 0;
      myWindow, sentEOF, sentClose, sent, handed := CHANNEL_WINDOW_SIZE, false, false, [], [];
    }

    /** Nothing goes out after a close message. */
    method WritePacket(p: seq<byte>) returns (ok: bool)
      requires |p| > 0
      modifies this`sentClose, this`sent
      ensures ok == !old(sentClose)
      ensures sentClose == (old(sentClose) || p[0] == MSG_CLOSE)
      ensures sent == if ok then old(sent) + [p] else old(sent)
    {
      if sentClose {
        return false;
      }
      sentClose := p[0] == MSG_CLOSE;
      sent := sent + [p];
      return true;
    }

    /**
     Splits the data into chunks that the window and the peer's packet limit allow and sends each of
     them in order.  The window pays for exactly the bytes sent, except that a chunk reserved when the
     channel turns out to be closed is lost.  The loop is watched for the given number of passes, and
     None says that it is still running: a write of fewer than 2^32 bytes needs no more passes than
     bytes, and a longer one never completes.
     */
    method WriteExtended(data: seq<byte>, code: nat, arrivals: seq<nat>, passes: nat)
      returns (n: nat, outcome: Option<Outcome>, ghost chunks: seq<seq<byte>>, ghost granted: nat)
      requires Valid() && code < U32_LIMIT
      requires forall i :: 0 <= i < |arrivals| ==> arrivals[i] < U32_LIMIT
      modifies this`sentClose, this`sent, remoteWin
      ensures Valid() && View() == old(View()).(win := remoteWin.win) && sentClose == old(sentClose)
      ensures n <= |data| && Concat(chunks) == data[..n]
      ensures forall c :: c in chunks ==> |c| <= maxRemote && |c| < U32_LIMIT
      ensures Moves(maxRemote, |data|) ==> [] !in chunks && (passes >= |data| ==> outcome.Some?)
      ensures |data| >= U32_LIMIT ==> |data| - n >= U32_LIMIT
      ensures sent == old(sent) + Packets(remoteId, code, chunks)
      ensures outcome == Some(Done) <==> n == |data| && !sentEOF
      ensures outcome != Some(EOF) ==> remoteWin.win + n == old(remoteWin.win) + granted
      ensures remoteWin.win + n <= old(remoteWin.win) + granted
      ensures sentEOF || (old(sentClose) && data != []) ==> sent == old(sent)
    {
      if sentEOF {
        return 0, Some(EOF), [], 0;
      }
      n, outcome, chunks, granted := WriteAll(data, code, arrivals, passes);
    }

    method WriteAll(data: seq<byte>, code: nat, arrivals: seq<nat>, passes: nat)
      returns (n: nat, outcome: Option<Outcome>, ghost chunks: seq<seq<byte>>, ghost granted: nat)
      requires remoteId < U32_LIMIT && code < U32_LIMIT && remoteWin.win < U32_LIMIT
      requires forall i :: 0 <= i < |arrivals| ==> arrivals[i] < U32_LIMIT
      modifies this`sentClose, this`sent, remoteWin
      ensures remoteWin.win < U32_LIMIT && sentClose == old(sentClose)
      ensures n <= |data| && Concat(chunks) == data[..n]
      ensures forall c :: c in chunks ==> |c| <= maxRemote && |c| < U32_LIMIT
      ensures Moves(maxRemote, |data|) ==> [] !in chunks && (passes >= |data| ==> outcome.Some?)
      ensures |data| >= U32_LIMIT ==> |data| - n >= U32_LIMIT
      ensures sent == old(sent) + Packets(remoteId, code, chunks)
      ensures outcome == Some(Done) <==> n == |data|
      ensures outcome != Some(EOF) ==> remoteWin.win + n == old(remoteWin.win) + granted
      ensures remoteWin.win + n <= old(remoteWin.win) + granted
      ensures sentClose ==> chunks == []
    {
      hide DataPacket, Packets, Concat, Valid;
      NoChunks(remoteId, code);
      n, chunks, granted := 0, [], 0;
      var rest, used: nat, pass := data, 0, 0;
      while |rest| > 0 && pass < passes
        invariant remoteWin.win < U32_LIMIT && sentClose == old(sentClose)
        invariant n <= |data| && rest == data[n..] && used <= |arrivals| && pass <= passes
        invariant Concat(chunks) == data[..n]
        invariant forall c :: c in chunks ==> |c| <= maxRemote && |c| < U32_LIMIT
        invariant Moves(maxRemote, |data|) ==> [] !in chunks && pass <= n
        invariant |data| >= U32_LIMIT ==> |data| - n >= U32_LIMIT
        invariant sent == old(sent) + Packets(remoteId, code, chunks)
        invariant remoteWin.win + n == old(remoteWin.win) + granted
        invariant sentClose ==> chunks == []
        decreases passes - pass
      {
        var got, o, u;
        ghost var g;
        got, o, u, g := WriteChunk(rest, code, arrivals[used..]);
        used, granted, pass := used + u, granted + g, pass + 1;
        if o != Done {
          return n, Some(o), chunks, granted;
        }
        ChunkTaken(data, n, got, chunks);
        PacketsAppend(remoteId, code, chunks, rest[..got]);
        chunks := chunks + [rest[..got]];
        n, rest := n + got, rest[got..];
      }
      outcome := if |rest| == 0 then Some(Done) else None;
    }

    /** One pass of the loop: the largest chunk that the window allows. */
    method WriteChunk(rest: seq<byte>, code: nat, arrivals: seq<nat>)
      returns (got: nat, outcome: Outcome, used: nat, ghost granted: nat)
      requires remoteId < U32_LIMIT && code < U32_LIMIT && |rest| > 0 && remoteWin.win < U32_LIMIT
      requires forall i :: 0 <= i < |arrivals| ==> arrivals[i] < U32_LIMIT
      modifies this`sentClose, this`sent, remoteWin
      ensures remoteWin.win < U32_LIMIT && sentClose == old(sentClose) && used <= |arrivals|
      ensures outcome == Done ==> got <= |rest| && got <= maxRemote && !sentClose
      ensures outcome == Done && Moves(maxRemote, |rest|) ==> got > 0
      ensures outcome == Done ==> got < U32_LIMIT && (|rest| >= U32_LIMIT ==> |rest| - got >= U32_LIMIT)
      ensures outcome == Done ==> remoteWin.win + got == old(remoteWin.win) + granted
      ensures outcome == Blocked ==> remoteWin.win == old(remoteWin.win) + granted
      ensures remoteWin.win <= old(remoteWin.win) + granted
      ensures sent == if outcome == Done then old(sent) + [DataPacket(remoteId, code, rest[..got])] else old(sent)
    {
      got, outcome, used, granted := remoteWin.Reserve(Want(maxRemote, |rest|), arrivals);
      if outcome == Done {
        var ok := WritePacket(DataPacket(remoteId, code, rest[..got]));
        outcome := if ok then Done else EOF;
      }
    }

    /** Takes a data packet into the window and its buffer. */
    method OnData(p: seq<byte>) returns (err: Option<Error>)
      requires Valid() && |p| > 0
      modifies this`myWindow, pending, extPending, pending.tail, extPending.tail
      ensures Valid() && (View(), err) == HandleData(old(View()), p)
      ensures pending.closed == old(pending.closed) && extPending.closed == old(extPending.closed)
    {
      var isExt := p[0] == MSG_EXTENDED_DATA;
      var header := if isExt then 13 else 9;
      if |p| < header {
        return Some(ParseError);
      }
      var code := if isExt then FromU32(p[5..9]) else 0;
      var length := FromU32(p[header - 4..header]);
      if length == 0 {
        return None;
      }
      if length > maxIncoming {
        return Some(PayloadTooLarge);
      }
      var data := p[header..];
      if length != |data| % U32_LIMIT {
        return Some(WrongLength);
      }
      if myWindow < length {
        return Some(WroteTooMuch);
      }
      myWindow := myWindow - length;
      if code == 1 {
        Put(extPending, pending, data);
      } else if code == 0 {
        Put(pending, extPending, data);
      }
      return None;
    }

    /** Writes to one of two separate buffers; the other stays as it is. */
    static method Put(buffer: Buffer, other: Buffer, data: seq<byte>)
      requires Separate(buffer, other)
      modifies buffer, buffer.tail
      ensures Separate(buffer, other)
      ensures buffer.Contents() == old(buffer.Contents()) + data && other.Contents() == old(other.Contents())
      ensures buffer.closed == old(buffer.closed) && other.closed == old(other.closed)
    {
      assert buffer.tail in buffer.nodes;
      buffer.Write(data);
      forall e | e in buffer.nodes ensures e !in other.nodes {
        assert e in buffer.nodes[..|buffer.nodes| - 1] || e == buffer.nodes[|buffer.nodes| - 1];
      }
    }

    /** 32-bit addition to the receive window, then the message. */
    method AdjustWindow(n: nat) returns (ok: bool)
      requires Valid() && n < U32_LIMIT
      modifies this`myWindow, this`sentClose, this`sent
      ensures Valid() && View() == old(View()).(myWindow := (old(myWindow) + n) % U32_LIMIT)
      ensures ok == !old(sentClose) && sentClose == old(sentClose)
      ensures sent == if ok then old(sent) + [AdjustPacket(remoteId, n)] else old(sent)
    {
      myWindow := (myWindow + n) % U32_LIMIT;
      ok := WritePacket(AdjustPacket(remoteId, n));
    }

    /**
     Reads from one of the two buffers and gives the bytes back to the window of the peer.  That the
     adjustment can no longer be sent after close does not disturb the reader.
     */
    method ReadExtended(buf: array<byte>, code: nat) returns (known: bool, n: nat, outcome: Outcome)
      requires Valid()
      modifies this`myWindow, this`sentClose, this`sent, pending, pending.nodes, extPending, extPending.nodes, buf
      ensures Valid() && known == (code < 2) && sentClose == old(sentClose)
      ensures known ==> n == (if buf.Length <= |old(Readable(code))| then buf.Length else |old(Readable(code))|)
      ensures !known ==> n == 0
      ensures buf[..n] == old(Readable(code))[..n] && buf[n..] == old(buf[..])[n..]
      ensures View() == Credited(Drained(old(View()), code, n), n)
      ensures sent == if n > 0 && !sentClose then old(sent) + [AdjustPacket(remoteId, n % U32_LIMIT)] else old(sent)
      ensures known ==> (outcome == EOF <==> buf.Length > 0 && old(Readable(code)) == [] && old(Shut(code)))
      ensures known ==> (outcome == Blocked <==> buf.Length > 0 && old(Readable(code)) == [] && !old(Shut(code)))
    {
      hide Separate, View, U32, AdjustPacket, Drained, Buffer.Contents;
      if code > 1 {
        assert buf[0..] == buf[..] == old(buf[..])[0..];
        NothingRead(View(), code);
        return false, 0, Done;
      }
      known := true;
      n, outcome := Take(buf, code);
      Credit(n);
    }

    /** Gives the bytes of a read back; a read without any sends nothing. */
    method Credit(n: nat)
      requires Valid()
      modifies this`myWindow, this`sentClose, this`sent
      ensures Valid() && View() == Credited(old(View()), n) && sentClose == old(sentClose)
      ensures sent == if n > 0 && !sentClose then old(sent) + [AdjustPacket(remoteId, n % U32_LIMIT)] else old(sent)
    {
      hide Separate, U32, AdjustPacket, Buffer.Contents, Buffer.Valid;
      CreditModulo(myWindow, n);
      if n > 0 {
        var _ := AdjustWindow(n % U32_LIMIT);
      }
    }

    /** The peer has ended the stream. */
    ghost predicate Shut(code: nat)
      reads this, pending, extPending
    {
      if code == 1 then extPending.closed else pending.closed
    }

    ghost function Readable(code: nat): seq<byte>
      reads this, pending, extPending
    {
      if code == 1 then extPending.Contents() else if code == 0 then pending.Contents() else []
    }

    method Take(buf: array<byte>, code: nat) returns (n: nat, outcome: Outcome)
      requires Valid() && code < 2
      modifies pending, pending.nodes, extPending, extPending.nodes, buf
      ensures Valid() && n == if buf.Length <= |old(Readable(code))| then buf.Length else |old(Readable(code))|
      ensures buf[..n] == old(Readable(code))[..n] && buf[n..] == old(buf[..])[n..]
      ensures View() == Drained(old(View()), code, n)
      ensures outcome == EOF <==> buf.Length > 0 && old(Readable(code)) == [] && old(Shut(code))
      ensures outcome == Blocked <==> buf.Length > 0 && old(Readable(code)) == [] && !old(Shut(code))
    {
      if code == 1 {
        n, outcome := Get(extPending, pending, buf);
      } else {
        n, outcome := Get(pending, extPending, buf);
      }
    }

    /** Reads from one of two separate buffers; the other stays as it is. */
    static method Get(buffer: Buffer, other: Buffer, buf: array<byte>) returns (n: nat, outcome: Outcome)
      requires Separate(buffer, other)
      modifies buffer, buffer.nodes, buf
      ensures Separate(buffer, other)
      ensures n == if buf.Length <= |old(buffer.Contents())| then buf.Length else |old(buffer.Contents())|
      ensures buf[..n] == old(buffer.Contents())[..n] && buf[n..] == old(buf[..])[n..]
      ensures buffer.Contents() == old(buffer.Contents())[n..] && other.Contents() == old(other.Contents())
      ensures outcome == EOF <==> buf.Length > 0 && old(buffer.Contents()) == [] && old(buffer.closed)
      ensures outcome == Blocked <==> buf.Length > 0 && old(buffer.Contents()) == [] && !old(buffer.closed)
    {
      forall i | 0 <= i < |other.nodes| ensures other.nodes[i] !in buffer.nodes {
        assert other.nodes[i] in other.nodes;
      }
      n, outcome := buffer.Read(buf);
    }

    /** The peer's end of the stream, or of the channel: readers drain the buffers and then see EOF. */
    method StopReaders()
      requires Valid()
      modifies pending`closed, extPending`closed
      ensures Valid() && View() == old(View()) && pending.closed && extPending.closed
    {
      pending.Eof();
      extPending.Eof();
    }

    /** Accept answers the open request once and announces the receive window. */
    method Accept() returns (ok: bool)
      requires Valid()
      modifies this`decided, this`maxIncoming, this`sentClose, this`sent
      ensures Valid() && ok == (!old(decided) && !old(sentClose)) && sentClose == old(sentClose)
      ensures View() == if old(decided) then old(View())
                        else old(View()).(decided := true, maxIncoming := CHANNEL_MAX_PACKET)
      ensures sent == if ok then old(sent) + [ConfirmPacket(remoteId, localId, myWindow, CHANNEL_MAX_PACKET)]
              else old(sent)
    {
      if decided {
        return false;
      }
      maxIncoming := CHANNEL_MAX_PACKET;
      decided := true;
      ok := WritePacket(ConfirmPacket(remoteId, localId, myWindow, maxIncoming));
    }

    method OnConfirm(p: seq<byte>) returns (err: Option<Error>)
      requires Valid() && |p| > 0
      modifies this`decided, this`remoteId, this`maxRemote, remoteWin
      ensures Valid() && (View(), err) == HandleConfirm(old(View()), p) && remoteWin.closed == old(remoteWin.closed)
      ensures err == None ==> remoteId == FromU32(p[5..9])
    {
      if |p| < 17 {
        return Some(ParseError);
      }
      if !outbound {
        return Some(ResponseOnInbound);
      }
      if decided {
        return Some(DuplicateResponse);
      }
      decided := true;
      var max := FromU32(p[13..17]);
      if max < MIN_PACKET_LENGTH || max > 0x8000_0000 {
        return Some(BadMaxPacket);
      }
      remoteId := FromU32(p[5..9]);
      maxRemote := max;
      var _ := remoteWin.Add(FromU32(p[9..13]));
      return None;
    }

    method OnAdjust(p: seq<byte>) returns (err: Option<Error>)
      requires Valid() && |p| > 0
      modifies remoteWin
      ensures Valid() && (View(), err) == HandleAdjust(old(View()), p) && remoteWin.closed == old(remoteWin.closed)
    {
      if |p| != 9 {
        return Some(ParseError);
      }
      var ok := remoteWin.Add(FromU32(p[5..9]));
      return if ok then None else Some(BadWindowUpdate);
    }

    /** A close message is answered once, and after that nothing leaves this channel any more. */
    method OnClose()
      requires Valid()
      modifies this`sentClose, this`sent, remoteWin, pending`closed, extPending`closed
      ensures Valid() && View() == old(View()) && sentClose && remoteWin.closed && pending.closed && extPending.closed
      ensures sent == if old(sentClose) then old(sent) else old(sent) + [ClosePacket(remoteId)]
    {
      var _ := WritePacket(ClosePacket(remoteId));
      StopReaders();
      sentClose := true;
      remoteWin.Close();
    }

    /** A refused open request: as a confirmation it comes once, and only on a channel opened from here. */
    method OnFailure(p: seq<byte>) returns (err: Option<Error>)
      requires Valid() && |p| > 0 && p[0] == MSG_OPEN_FAILURE
      modifies this`decided
      ensures Valid() && (View(), err) == HandleFailure(old(View()), p)
    {
      var m := SshWire.UnmarshalStruct(p[0], Fields(p[0]), p);
      if m.None? {
        return Some(ParseError);
      }
      if !outbound {
        return Some(ResponseOnInbound);
      }
      if decided {
        return Some(DuplicateResponse);
      }
      decided := true;
      return None;
    }

    /** handlePacket, with the messages that it hands on to the owner of the channel. */
    method OnPacket(p: seq<byte>) returns (err: Option<Error>)
      requires Valid() && Covered(p)
      modifies this, remoteWin, pending, extPending, pending.tail, extPending.tail
      ensures Valid() && (View(), err) == HandlePacket(old(View()), p)
      ensures p[0] in {MSG_EOF, MSG_CLOSE} ==> pending.closed && extPending.closed
      ensures p[0] !in {MSG_EOF, MSG_CLOSE}
              ==> pending.closed == old(pending.closed) && extPending.closed == old(extPending.closed)
      ensures p[0] == MSG_CLOSE ==> sentClose && remoteWin.closed
      ensures p[0] != MSG_CLOSE ==> sentClose == old(sentClose) && remoteWin.closed == old(remoteWin.closed)
      ensures sent == if p[0] != MSG_CLOSE || old(sentClose) then old(sent)
              else old(sent) + [ClosePacket(old(remoteId))]
      ensures handed == if err == None && HandedOn(p) then old(handed) + [p] else old(handed)
    {
      if p[0] == MSG_DATA || p[0] == MSG_EXTENDED_DATA {
        err := OnData(p);
      } else if p[0] == MSG_CLOSE {
        OnClose();
        err := None;
      } else if p[0] == MSG_EOF {
        StopReaders();
        err := None;
      } else if p[0] == MSG_WINDOW_ADJUST {
        err := OnAdjust(p);
      } else {
        err := OnMessage(p);
      }
    }

    method OnMessage(p: seq<byte>) returns (err: Option<Error>)
      requires Valid() && HandedOn(p)
      modifies this`decided, this`remoteId, this`maxRemote, this`handed, remoteWin
      ensures Valid() && (View(), err) == HandlePacket(old(View()), p) && remoteWin.closed == old(remoteWin.closed)
      ensures handed == if err == None then old(handed) + [p] else old(handed)
    {
      hide HandleConfirm, HandleFailure;
      if p[0] == MSG_OPEN_CONFIRM {
        err := OnConfirm(p);
      } else if p[0] == MSG_OPEN_FAILURE {
        err := OnFailure(p);
      } else {
        var m := SshWire.UnmarshalStruct(p[0], Fields(p[0]), p);
        err := if m.None? then Some(ParseError) else None;
      }
      if err == None {
        handed := handed + [p];
      }
    }
  }

  lemma ChunkTaken(data: seq<byte>, n: nat, got: nat, chunks: seq<seq<byte>>)
    requires n + got <= |data| && Concat(chunks) == data[..n]
    ensures Concat(chunks + [data[n..][..got]]) == data[..n + got]
    ensures data[n..][got..] == data[n + got..]
  {
    ConcatAppend(chunks, data[n..][..got]);
    assert data[..n] + data[n..][..got] == data[..n + got];
  }

  lemma PacketsAppend(id: nat, code: nat, chunks: seq<seq<byte>>, c: seq<byte>)
    requires id < U32_LIMIT && code < U32_LIMIT && |c| < U32_LIMIT && forall d :: d in chunks ==> |d| < U32_LIMIT
    ensures forall d :: d in chunks + [c] ==> |d| < U32_LIMIT
    ensures Packets(id, code, chunks + [c]) == Packets(id, code, chunks) + [DataPacket(id, code, c)]
  {
  }

  lemma NoChunks(id: nat, code: nat)
    requires id < U32_LIMIT && code < U32_LIMIT
    ensures Concat([]) == [] && Packets(id, code, []) == []
  {
  }

  /** The packets of a write, one for each chunk. */
  ghost function Packets(id: nat, code: nat, chunks: seq<seq<byte>>): seq<seq<byte>>
    requires id < U32_LIMIT && code < U32_LIMIT && forall c :: c in chunks ==> |c| < U32_LIMIT
  {
    seq(|chunks|, i requires 0 <= i < |chunks| => DataPacket(id, code, chunks[i]))
  }
}
