/**
 Key exchange and rekeying of the SSH transport (ssh/handshake.go, ssh/transport.go), as steps of one
 end: every lock region of the handshake transport and every packet that its read loop takes or
 writes during an exchange is one step.  Ciphers are named by the exchange that made them.
 */
module SshHandshake {
  import opened Wrappers

  const SEQ_LIMIT: nat := 0x1_0000_0000

  // --------------------------------------------------------------------------
  // Algorithm negotiation
  // --------------------------------------------------------------------------

  datatype KexInit = KexInit(
    cookie: nat, kex: seq<string>, hostKey: seq<string>,
    cipherCS: seq<string>, cipherSC: seq<string>, macCS: seq<string>, macSC: seq<string>,
    compCS: seq<string>, compSC: seq<string>, follows: bool)

  datatype Config = Config(kex: seq<string>, hostKey: seq<string>, ciphers: seq<string>, macs: seq<string>,
      comps: seq<string>)

  datatype DirectionAlgs = DirectionAlgs(cipher: string, mac: string, comp: string)

  datatype Algorithms = Algorithms(kex: string, hostKey: string, w: DirectionAlgs, r: DirectionAlgs)

  /** sendKexInitLocked offers the same lists in both directions, and announces no guessed packet. */
  function BuildInit(cfg: Config, cookie: nat): KexInit {
    KexInit(cookie, cfg.kex, cfg.hostKey, cfg.ciphers, cfg.ciphers, cfg.macs, cfg.macs, cfg.comps, cfg.comps, false)
  }

  /** The client's first choice that the server also offers. */
  function FindCommon(client: seq<string>, server: seq<string>): Option<string> {
    if client == [] then None else if client[0] in server then Some(client[0]) else FindCommon(client[1..], server)
  }

  function FindAgreed(c: KexInit, s: KexInit): Option<Algorithms> {
    var kex, hostKey := FindCommon(c.kex, s.kex), FindCommon(c.hostKey, s.hostKey);
    var wc, rc := FindCommon(c.cipherCS, s.cipherCS), FindCommon(c.cipherSC, s.cipherSC);
    var wm, rm := FindCommon(c.macCS, s.macCS), FindCommon(c.macSC, s.macSC);
    var wz, rz := FindCommon(c.compCS, s.compCS), FindCommon(c.compSC, s.compSC);
    if kex.None? || hostKey.None? || wc.None? || rc.None? || wm.None? || rm.None? || wz.None? || rz.None? then None else
    Some(Algorithms(kex.value, hostKey.value, DirectionAlgs(wc.value, wm.value, wz.value),
        DirectionAlgs(rc.value, rm.value, rz.value)))
  }

  /** findCommon as the loops it is, against what it has to find. */
  method FindCommonLoop(client: seq<string>, server: seq<string>) returns (r: Option<string>)
    ensures r == FindCommon(client, server)
    ensures r.None? <==> forall i :: 0 <= i < |client| ==> client[i] !in server
    ensures r.Some? ==> r.value in server && exists i: nat :: FirstMatch(client, server, i) && client[i] == r.value
  {
    var i := 0;
    assert client[0..] == client;
    while i < |client|
      invariant 0 <= i <= |client|
      invariant forall k :: 0 <= k < i ==> client[k] !in server
      invariant FindCommon(client, server) == FindCommon(client[i..], server)
    {
      var j := 0;
      while j < |server|
        invariant 0 <= j <= |server|
        invariant forall k :: 0 <= k < j ==> server[k] != client[i]
      {
        if client[i] == server[j] {
          assert FirstMatch(client, server, i);
          return Some(client[i]);
        }
        j := j + 1;
      }
      assert client[i..][1..] == client[i + 1..];
      i := i + 1;
    }
    return None;
  }

  predicate FirstMatch(client: seq<string>, server: seq<string>, i: nat) {
    i < |client| && client[i] in server && forall k :: 0 <= k < i ==> client[k] !in server
  }

  /** The name is the first in the client's list that the server's list also has. */
  ghost predicate Chosen(client: seq<string>, server: seq<string>, name: string) {
    exists i: nat :: FirstMatch(client, server, i) && client[i] == name
  }

  predicate Disjoint(client: seq<string>, server: seq<string>) {
    forall i :: 0 <= i < |client| ==> client[i] !in server
  }

  lemma {:induction false} CommonExactly(client: seq<string>, server: seq<string>)
    ensures var r := FindCommon(client, server);
            (r.None? <==> Disjoint(client, server)) && (r.Some? ==> Chosen(client, server, r.value))
  {
    if client != [] {
      if client[0] in server {
        assert FirstMatch(client, server, 0);
      } else {
        CommonExactly(client[1..], server);
        if !Disjoint(client[1..], server) {
          var i: nat :| FirstMatch(client[1..], server, i) && client[1..][i] == FindCommon(client, server).value;
          assert FirstMatch(client, server, i + 1);
        } else {
          assert forall i :: 0 < i < |client| ==> client[i] == client[1..][i - 1];
        }
      }
    }
  }

  /**
   Every algorithm is the client's first choice, among those that the server offers for the same purpose
   and direction; w is for what the client writes.  There is no agreement exactly if one of the eight
   pairs of lists has nothing in common.
   */
  lemma AgreedExactly(c: KexInit, s: KexInit)
    ensures FindAgreed(c, s).None? <==>
            || Disjoint(c.kex, s.kex) || Disjoint(c.hostKey, s.hostKey)
            || Disjoint(c.cipherCS, s.cipherCS) || Disjoint(c.cipherSC, s.cipherSC)
            || Disjoint(c.macCS, s.macCS) || Disjoint(c.macSC, s.macSC)
            || Disjoint(c.compCS, s.compCS) || Disjoint(c.compSC, s.compSC)
    ensures FindAgreed(c, s).Some? ==>
              var a := FindAgreed(c, s).value;
              && Chosen(c.kex, s.kex, a.kex) && Chosen(c.hostKey, s.hostKey, a.hostKey)
              && Chosen(c.cipherCS, s.cipherCS, a.w.cipher) && Chosen(c.cipherSC, s.cipherSC, a.r.cipher)
              && Chosen(c.macCS, s.macCS, a.w.mac) && Chosen(c.macSC, s.macSC, a.r.mac)
              && Chosen(c.compCS, s.compCS, a.w.comp) && Chosen(c.compSC, s.compSC, a.r.comp)
  {
    hide FindCommon, Chosen, Disjoint;
    CommonExactly(c.kex, s.kex);
    CommonExactly(c.hostKey, s.hostKey);
    CommonExactly(c.cipherCS, s.cipherCS);
    CommonExactly(c.cipherSC, s.cipherSC);
    CommonExactly(c.macCS, s.macCS);
    CommonExactly(c.macSC, s.macSC);
    CommonExactly(c.compCS, s.compCS);
    CommonExactly(c.compSC, s.compSC);
  }

  /**
   With the configurations of the two ends: whichever of them computes it, the result is the client's
   first choice among the server's names, the same in both directions.
   */
  lemma ConfigAgreement(client: Config, server: Config, m: nat, n: nat, e: End)
    ensures var c, s := BuildInit(client, m), BuildInit(server, n);
            var a := if e.client then Agreed(e, s, c) else Agreed(e, c, s);
            && (a.None? <==>
                  || Disjoint(client.kex, server.kex) || Disjoint(client.hostKey, server.hostKey)
                  || Disjoint(client.ciphers, server.ciphers) || Disjoint(client.macs, server.macs)
                  || Disjoint(client.comps, server.comps))
            && (a.Some? ==>
                  && Chosen(client.kex, server.kex, a.value.kex)
                  && Chosen(client.hostKey, server.hostKey, a.value.hostKey)
                  && Chosen(client.ciphers, server.ciphers, a.value.w.cipher)
                  && Chosen(client.macs, server.macs, a.value.w.mac)
                  && Chosen(client.comps, server.comps, a.value.w.comp) && a.value.r == a.value.w)
  {
    hide Chosen, Disjoint, FindCommon;
    AgreedExactly(BuildInit(client, m), BuildInit(server, n));
    SymmetricAgreement(client, server, m, n);
  }

  /** Two ends that offer symmetric lists agree on the same algorithms for both directions. */
  lemma SymmetricAgreement(c: Config, s: Config, m: nat, n: nat)
    ensures var a := FindAgreed(BuildInit(c, m), BuildInit(s, n)); a.Some? ==> a.value.w == a.value.r
  {
  }

  // --------------------------------------------------------------------------
  // One end
  // --------------------------------------------------------------------------

  /** K and H of an exchange. */
  datatype KexResult = KexResult(k: nat, h: nat)

  /** The outcome of an exchange as a function of the two KEXINITs and the two key shares. */
  type Kex = (KexInit, KexInit, nat, nat) -> KexResult

  /** A packet cipher, named by its direction, its algorithms and the exchange that keyed it. */
  datatype Cipher = Plain | Keyed(clientToServer: bool, algs: DirectionAlgs, result: KexResult, session: nat)

  datatype Body = Init(init: KexInit) | DhInit(x: nat) | DhReply(y: nat) | NewKeys | Upper(data: seq<int>)

  datatype Packet = Packet(body: Body, cipher: Cipher, seqNum: nat)

  datatype Conn = Conn(cipher: Cipher, seqNum: nat, pending: Option<Cipher>)

  /** Where the read loop is. */
  datatype Pc =
    | Reading
    | Entered(other: KexInit)
    | Ready(other: KexInit, my: KexInit)
    | Skipping(other: KexInit, my: KexInit, algs: Algorithms, share: nat)
    | Waiting(other: KexInit, my: KexInit, algs: Algorithms, share: nat)
    | Derived(algs: Algorithms, result: KexResult)
    | Prepared
    | NewKeysSent
    | Finished
    | Failed
    | Stopped

  /** ctl lists the key exchange packets written, got those taken from the peer. */
  datatype End = End(
    client: bool, cfg: Config, reader: Conn, writer: Conn, session: Option<nat>, sentInit: Option<KexInit>,
    writtenSinceKex: nat, readSinceKex: nat, dead: bool, closed: bool, pc: Pc, ctl: seq<Body>, got: seq<Body>)

  datatype Outcome = Disabled | Panic | Blocked | Next(e: End, out: seq<Packet>)

  function NextSeq(n: nat): nat {
    (n + 1) % SEQ_LIMIT
  }

  /** connectionState.writePacket: None is the panic for missing key material. */
  function ConnWrite(w: Conn, b: Body): Option<(Conn, Packet)> {
    var p := Packet(b, w.cipher, w.seqNum);
    var v := w.(seqNum := NextSeq(w.seqNum));
    if !b.NewKeys? then Some((v, p))
    else if v.pending.None? then None
    else Some((v.(cipher := v.pending.value, pending := None), p))
  }

  /** connectionState.readPacket on a packet that decrypts; None is the error about bogus newkeys. */
  function ConnRead(r: Conn, b: Body): Option<Conn> {
    var v := r.(seqNum := NextSeq(r.seqNum));
    if !b.NewKeys? then Some(v)
    else if v.pending.None? then None
    else Some(v.(cipher := v.pending.value, pending := None))
  }

  function Write(e: End, b: Body): Option<(End, Packet)> {
    var r := ConnWrite(e.writer, b);
    if r.None? then None
    else Some((e.(writer := r.value.0, ctl := if b.Upper? then e.ctl else e.ctl + [b]), r.value.1))
  }

  function Wrote(e: End, b: Body, pc: Pc): Outcome {
    match Write(e, b)
    case None => Panic
    case Some((f, p)) => Next(f.(pc := pc), [p])
  }

  function Take(e: End, b: Body): Option<End> {
    var r := ConnRead(e.reader, b);
    if r.None? then None else Some(e.(reader := r.value, got := if b.Upper? then e.got else e.got + [b]))
  }

  /** Ours and theirs, in the order client, server. */
  function Agreed(e: End, other: KexInit, my: KexInit): Option<Algorithms> {
    if e.client then FindAgreed(my, other) else FindAgreed(other, my)
  }

  /** Any goroutine asks for a key change: on its own, or because a byte count passed the threshold. */
  function RequestStep(e: End, cookie: nat): Outcome {
    if e.sentInit.Some? || e.closed then Disabled else
    var my := BuildInit(e.cfg, cookie);
    Wrote(e.(sentInit := Some(my)), Init(my), e.pc)
  }

  /** writePacket once it is past its wait.  KEXINIT and NEWKEYS are refused, the bytes still count. */
  function WriteStep(e: End, data: seq<int>, refused: bool): Outcome {
    if e.sentInit.Some? || e.dead || e.closed then Disabled else
    var f := e.(writtenSinceKex := e.writtenSinceKex + |data|);
    if refused then Next(f, []) else Wrote(f, Upper(data), e.pc)
  }

  /** A packet in the idle state.  The length of a packet of the exchange is not modelled: it counts as one. */
  function ReadStep(e: End, b: Body): Outcome {
    if e.pc != Reading then Disabled else
    match Take(e, b)
    case None => Next(e.(pc := Stopped, dead := true), [])
    case Some(f) =>
      var g := f.(readSinceKex := f.readSinceKex + if b.Upper? then |b.data| else 1);
      if b.Init? then Next(g.(pc := Entered(b.init)), []) else Next(g, [])
  }

  /** sendKexInit on entering the exchange. */
  function EnterStep(e: End, cookie: nat): Outcome {
    if !e.pc.Entered? then Disabled else
    if e.sentInit.Some? then Next(e.(pc := Ready(e.pc.other, e.sentInit.value)), []) else
    if e.closed then Next(e.(pc := Failed), []) else
    var my := BuildInit(e.cfg, cookie);
    Wrote(e.(sentInit := Some(my)), Init(my), Ready(e.pc.other, my))
  }

  /** Negotiation, and the client's key share. */
  function AgreeStep(e: End, share: nat): Outcome {
    if !e.pc.Ready? then Disabled else
    match Agreed(e, e.pc.other, e.pc.my)
    case None => Next(e.(pc := Failed), [])
    case Some(algs) =>
      if GuessedWrong(e.pc.other, algs) then Next(e.(pc := Skipping(e.pc.other, e.pc.my, algs, share)), [])
      else Exchange(e, Waiting(e.pc.other, e.pc.my, algs, share), share)
  }

  function Exchange(e: End, pc: Pc, share: nat): Outcome {
    if e.client then Wrote(e, DhInit(share), pc) else Next(e.(pc := pc), [])
  }

  /** The peer has sent a first packet for an algorithm that was not agreed on. */
  predicate GuessedWrong(other: KexInit, algs: Algorithms) {
    other.follows && other.kex != [] && algs.kex != other.kex[0]
  }

  /** Such a packet is read and ignored. */
  function SkipStep(e: End, b: Body): Outcome {
    if !e.pc.Skipping? then Disabled else
    match Take(e, b)
    case None => Next(e.(pc := Failed), [])
    case Some(f) => Exchange(f, Waiting(e.pc.other, e.pc.my, e.pc.algs, e.pc.share), e.pc.share)
  }

  /** The peer's key share; the server answers with its own. */
  function ShareStep(kex: Kex, e: End, b: Body): Outcome {
    if !e.pc.Waiting? then Disabled else
    match Take(e, b)
    case None => Next(e.(pc := Failed), [])
    case Some(f) =>
      if e.client && b.DhReply? then
        Next(f.(pc := Derived(e.pc.algs, kex(e.pc.my, e.pc.other, e.pc.share, b.y))), [])
      else if !e.client && b.DhInit? then
        Wrote(f, DhReply(e.pc.share), Derived(e.pc.algs, kex(e.pc.other, e.pc.my, b.x, e.pc.share)))
      else Next(f.(pc := Failed), [])
  }

  /** prepareKeyChange: both channels have room for one cipher. */
  function PrepareStep(e: End): Outcome {
    if !e.pc.Derived? then Disabled else
    if e.reader.pending.Some? || e.writer.pending.Some? then Blocked else
    var session := if e.session.Some? then e.session.value else e.pc.result.h;
    Next(e.(session := Some(session), pc := Prepared,
            reader := e.reader.(pending := Some(Keyed(!e.client, e.pc.algs.r, e.pc.result, session))),
            writer := e.writer.(pending := Some(Keyed(e.client, e.pc.algs.w, e.pc.result, session)))), [])
  }

  function SendNewKeysStep(e: End): Outcome {
    if !e.pc.Prepared? then Disabled else Wrote(e, NewKeys, NewKeysSent)
  }

  function TakeNewKeysStep(e: End, b: Body): Outcome {
    if !e.pc.NewKeysSent? then Disabled else
    match Take(e, b)
    case None => Next(e.(pc := Failed), [])
    case Some(f) => Next(f.(pc := if b.NewKeys? then Finished else Failed), [])
  }

  /** The lock region after the exchange that lets the writers go on. */
  function FinishStep(e: End): Outcome {
    if !e.pc.Finished? then Disabled else
    Next(e.(pc := Reading, sentInit := None, writtenSinceKex := 0, readSinceKex := 0), [])
  }

  /** The same region after a failure: the connection is closed and writing is over. */
  function FailStep(e: End): Outcome {
    if !e.pc.Failed? then Disabled else
    Next(e.(pc := Stopped, sentInit := None, writtenSinceKex := 0, dead := true, closed := true), [])
  }

  /** The exchange gives up: a signature, host key or packet is wrong, or the connection breaks. */
  function GiveUpStep(e: End): Outcome {
    if e.pc.Reading? then Next(e.(pc := Stopped, dead := true), [])
    else if e.pc.Stopped? then Disabled
    else Next(e.(pc := Failed), [])
  }

  /**
   A peer that announces a guess has its next packet ignored exactly if the guess was wrong; apart from
   that packet the exchange goes on in the same way.  The agreed algorithm is in both lists, so there is
   a first entry to compare it with.
   */
  lemma GuessSkipped(e: End, share: nat, b: Body)
    requires e.pc.Ready? && Agreed(e, e.pc.other, e.pc.my).Some? && !b.NewKeys?
    ensures var algs := Agreed(e, e.pc.other, e.pc.my).value;
            var wait := Waiting(e.pc.other, e.pc.my, algs, share);
            var o := AgreeStep(e, share);
            && o.Next? && e.pc.other.kex != []
            && if !e.pc.other.follows || e.pc.other.kex[0] == algs.kex
               then o.e.pc == wait && o.e.reader == e.reader && o.e.got == e.got && StartsWith(e, o.out, share)
               else
                 && o.e.pc.Skipping? && o.out == [] && o.e.reader == e.reader
                 && var n := SkipStep(o.e, b);
                 && n.Next? && n.e.pc == wait && n.e.reader == e.reader.(seqNum := NextSeq(e.reader.seqNum))
                 && StartsWith(e, n.out, share)
  {
    hide FindCommon;
    var c, s := if e.client then e.pc.my else e.pc.other, if e.client then e.pc.other else e.pc.my;
    CommonExactly(c.kex, s.kex);
  }

  /** The client opens the exchange with its share, the server waits. */
  predicate StartsWith(e: End, out: seq<Packet>, share: nat) {
    if e.client then |out| == 1 && out[0].body == DhInit(share) else out == []
  }

  datatype Event =
    | Request(cookie: nat) | WriteUpper(data: seq<int>, refused: bool) | Read(b: Body) | Enter(cookie: nat)
    | Agree(share: nat) | Skip(b: Body) | Share(b: Body) | Prepare | SendNewKeys | TakeNewKeys(b: Body) | Finish
        | Fail | GiveUp

  function Act(kex: Kex, e: End, ev: Event): Outcome {
    match ev
    case Request(cookie) => RequestStep(e, cookie)
    case WriteUpper(data, refused) => WriteStep(e, data, refused)
    case Read(b) => ReadStep(e, b)
    case Enter(cookie) => EnterStep(e, cookie)
    case Agree(share) => AgreeStep(e, share)
    case Skip(b) => SkipStep(e, b)
    case Share(b) => ShareStep(kex, e, b)
    case Prepare => PrepareStep(e)
    case SendNewKeys => SendNewKeysStep(e)
    case TakeNewKeys(b) => TakeNewKeysStep(e, b)
    case Finish => FinishStep(e)
    case Fail => FailStep(e)
    case GiveUp => GiveUpStep(e)
  }

  /** newTransport and newHandshakeTransport. */
  function Fresh(client: bool, cfg: Config): End {
    End(client, cfg, Conn(Plain, 0, None), Conn(Plain, 0, None), None, None, 0, 0, false, false, Reading, [], [])
  }

  // --------------------------------------------------------------------------
  // One end, whatever the peer sends
  // --------------------------------------------------------------------------

  /** Section 7.1 of RFC 4253 on what one end writes. */
  datatype Phase = Open | InKex | Wrong

  function Scan(p: Phase, b: Body): Phase {
    match p
    case Open => if b.Upper? then Open else if b.Init? then InKex else Wrong
    case InKex => if b.NewKeys? then Open else if b.DhInit? || b.DhReply? then InKex else Wrong
    case Wrong => Wrong
  }

  function ScanAll(p: Phase, out: seq<Packet>): Phase
    decreases out
  {
    if out == [] then p else ScanAll(Scan(p, out[0].body), out[1..])
  }

  /** How the read loop, the blocked writers and the trace hang together. */
  ghost predicate Calm(e: End, p: Phase) {
    && p != Wrong
    && (e.pc.Ready? || e.pc.Skipping? || e.pc.Waiting? || e.pc.Derived? || e.pc.Prepared? || e.pc.NewKeysSent?
        || e.pc.Finished?
        ==> e.sentInit.Some?)
    && (e.pc.Ready? || e.pc.Skipping? || e.pc.Waiting? || e.pc.Derived? || e.pc.Prepared? ==> p == InKex)
    && (e.pc.NewKeysSent? || e.pc.Finished? ==> p == Open)
    && (e.pc.Reading? || e.pc.Entered? ==> (e.sentInit.Some? <==> p == InKex))
    && (p == InKex && !e.closed ==> e.sentInit.Some?)
    && (!e.pc.Stopped? ==> !e.closed) && (e.closed ==> e.dead)
    && (e.pc.Prepared? <==> e.writer.pending.Some? && !e.pc.Failed? && !e.pc.Stopped?)
    && (e.pc.Prepared? || e.pc.NewKeysSent? <==> e.reader.pending.Some? && !e.pc.Failed? && !e.pc.Stopped?)
  }

  /** Steps neither panic nor block on the pending cipher, and keep the trace in order; first those that write. */
  lemma WritingCalm(kex: Kex, e: End, p: Phase, ev: Event)
    requires Calm(e, p) && (ev.Request? || ev.WriteUpper? || ev.Enter? || ev.Agree?)
    ensures var o := Act(kex, e, ev); o.Disabled? || (o.Next? && Calm(o.e, ScanAll(p, o.out)) && |o.out| <= 1)
  {
    hide FindAgreed, BuildInit, GuessedWrong;
  }

  lemma ReadingCalm(kex: Kex, e: End, p: Phase, ev: Event)
    requires Calm(e, p) && (ev.Read? || ev.Skip? || ev.Share? || ev.TakeNewKeys?)
    ensures var o := Act(kex, e, ev); o.Disabled? || (o.Next? && Calm(o.e, ScanAll(p, o.out)) && |o.out| <= 1)
  {
    hide FindAgreed, BuildInit, GuessedWrong;
  }

  lemma OtherCalm(kex: Kex, e: End, p: Phase, ev: Event)
    requires Calm(e, p) && (ev.Prepare? || ev.SendNewKeys? || ev.Finish? || ev.Fail? || ev.GiveUp?)
    ensures var o := Act(kex, e, ev); o.Disabled? || (o.Next? && Calm(o.e, ScanAll(p, o.out)) && |o.out| <= 1)
  {
    hide FindAgreed, BuildInit, GuessedWrong;
  }

  lemma StepCalm(kex: Kex, e: End, p: Phase, ev: Event)
    requires Calm(e, p)
    ensures var o := Act(kex, e, ev); o.Disabled? || (o.Next? && Calm(o.e, ScanAll(p, o.out)) && |o.out| <= 1)
  {
    hide Act, Calm, ScanAll;
    match ev
    case Request(_) | WriteUpper(_, _) | Enter(_) | Agree(_) => WritingCalm(kex, e, p, ev);
    case Read(_) | Skip(_) | Share(_) | TakeNewKeys(_) => ReadingCalm(kex, e, p, ev);
    case _ => OtherCalm(kex, e, p, ev);
  }

  lemma {:induction false} ScanAppend(p: Phase, a: seq<Packet>, b: seq<Packet>)
    ensures ScanAll(p, a + b) == ScanAll(ScanAll(p, a), b)
    decreases a
  {
    if a == [] {
      assert a + b == b;
    } else {
      ScanAppend(Scan(p, a[0].body), a[1..], b);
      assert (a + b)[1..] == a[1..] + b;
    }
  }

  lemma {:induction false} WrongStays(out: seq<Packet>)
    ensures ScanAll(Wrong, out) == Wrong
  {
    if out != [] {
      WrongStays(out[1..]);
    }
  }

  /** In an orderly trace an upper-layer packet or a KEXINIT after a KEXINIT has a NEWKEYS before it. */
  lemma {:induction false} NewKeysBetween(p: Phase, out: seq<Packet>, j: nat) returns (k: nat)
    requires ScanAll(p, out) != Wrong && p == InKex && j < |out| && (out[j].body.Upper? || out[j].body.Init?)
    ensures k < j && out[k].body.NewKeys?
    decreases out
  {
    WrongStays(out[1..]);
    if out[0].body.NewKeys? {
      k := 0;
    } else {
      k := NewKeysBetween(Scan(p, out[0].body), out[1..], j - 1);
      k := k + 1;
    }
  }

  datatype Run = Ran(e: End, out: seq<Packet>) | Stuck(o: Outcome)

  /** A run of one end; events that are not enabled are skipped. */
  function RunEnd(kex: Kex, e: End, evs: seq<Event>): Run
    decreases evs
  {
    if evs == [] then Ran(e, []) else
    match RunEnd(kex, e, evs[..|evs| - 1])
    case Stuck(o) => Stuck(o)
    case Ran(f, out) =>
      var o := Act(kex, f, evs[|evs| - 1]);
      if o.Next? then Ran(o.e, out + o.out) else if o.Disabled? then Ran(f, out) else Stuck(o)
  }

  /** The bytes that the upper layers handed over since the last exchange came to an end. */
  function Tally(kex: Kex, e: End, evs: seq<Event>): nat
    decreases evs
  {
    if evs == [] then e.writtenSinceKex else
    var n, r, ev := Tally(kex, e, evs[..|evs| - 1]), RunEnd(kex, e, evs[..|evs| - 1]), evs[|evs| - 1];
    if r.Stuck? || !Act(kex, r.e, ev).Next? then n
    else if ev.Finish? || ev.Fail? then 0
    else if ev.WriteUpper? then n + |ev.data| else n
  }

  /** In every run the counter that triggers a key exchange has them all, and no others. */
  lemma {:induction false} Tallied(kex: Kex, e: End, evs: seq<Event>)
    ensures RunEnd(kex, e, evs).Ran? ==> RunEnd(kex, e, evs).e.writtenSinceKex == Tally(kex, e, evs)
    decreases evs
  {
    if evs != [] {
      Tallied(kex, e, evs[..|evs| - 1]);
      var r := RunEnd(kex, e, evs[..|evs| - 1]);
      if r.Ran? {
        StepCounts(kex, r.e, evs[|evs| - 1]);
      }
      hide Act;
    }
  }

  lemma StepCounts(kex: Kex, e: End, ev: Event)
    ensures var o := Act(kex, e, ev);
            o.Next? ==>
              o.e.writtenSinceKex == if ev.Finish? || ev.Fail? then 0
                                     else if ev.WriteUpper? then e.writtenSinceKex + |ev.data| else e.writtenSinceKex
    ensures var o := Act(kex, e, ev);
            o.Next? ==>
              o.e.readSinceKex == if ev.Finish? then 0
                                  else if ev.Read? && !o.e.pc.Stopped?
                                  then e.readSinceKex + (if ev.b.Upper? then |ev.b.data| else 1) else e.readSinceKex
  {
    hide FindAgreed, BuildInit;
  }

  lemma {:induction false} RunCalm(kex: Kex, e: End, evs: seq<Event>)
    requires Calm(e, Open)
    ensures var r := RunEnd(kex, e, evs); r.Ran? && Calm(r.e, ScanAll(Open, r.out))
    decreases evs
  {
    hide Act, Calm;
    if evs != [] {
      RunCalm(kex, e, evs[..|evs| - 1]);
      var r := RunEnd(kex, e, evs[..|evs| - 1]);
      StepCalm(kex, r.e, ScanAll(Open, r.out), evs[|evs| - 1]);
      var o := Act(kex, r.e, evs[|evs| - 1]);
      if o.Next? {
        ScanAppend(Open, r.out, o.out);
      }
    }
  }

  /**
   Whatever packets arrive and whenever rekeying is asked for, also after a failed exchange: writing
   NEWKEYS always finds its key material, the pending slots always have room, and on the wire any
   upper-layer packet or KEXINIT after a KEXINIT has a NEWKEYS in between.
   */
  lemma TraceOrder(kex: Kex, client: bool, cfg: Config, evs: seq<Event>, i: nat, j: nat)
    ensures var r := RunEnd(kex, Fresh(client, cfg), evs);
            && r.Ran?
            && (i < j < |r.out| && r.out[i].body.Init? && (r.out[j].body.Upper? || r.out[j].body.Init?) ==>
                  exists k :: i < k < j && r.out[k].body.NewKeys?)
  {
    hide Act, RunEnd;
    RunCalm(kex, Fresh(client, cfg), evs);
    Orderly(RunEnd(kex, Fresh(client, cfg), evs).out, i, j);
  }

  lemma Orderly(out: seq<Packet>, i: nat, j: nat)
    requires ScanAll(Open, out) != Wrong
    ensures i < j < |out| && out[i].body.Init? && (out[j].body.Upper? || out[j].body.Init?) ==>
              exists k :: i < k < j && out[k].body.NewKeys?
  {
    hide ScanAll;
    if i < j < |out| && out[i].body.Init? && (out[j].body.Upper? || out[j].body.Init?) {
      AfterInit(out, i);
      var k := NewKeysBetween(InKex, out[i + 1..], j - i - 1);
      assert out[i + 1 + k].body.NewKeys?;
    }
  }

  lemma AfterInit(out: seq<Packet>, i: nat)
    requires ScanAll(Open, out) != Wrong && i < |out| && out[i].body.Init?
    ensures ScanAll(InKex, out[i + 1..]) != Wrong
  {
    var rest := out[i + 1..];
    assert out == out[..i] + ([out[i]] + rest);
    ScanAppend(Open, out[..i], [out[i]] + rest);
    assert ([out[i]] + rest)[1..] == rest;
    WrongStays(rest);
  }
}
