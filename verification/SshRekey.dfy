/**
 A client and a server over two first-in first-out links, through any number of key exchanges started
 by either of them at any time.  Every packet is read with the cipher and the sequence number that
 it was written with.
 */
module SshRekey {
  import opened SshHandshake
  import opened Wrappers

  datatype System = System(a: End, b: End, ab: seq<Packet>, ba: seq<Packet>)

  datatype Result = Skipped | Mismatch | Broken | Went(sys: System)

  function Flip(s: System): System {
    System(s.b, s.a, s.ba, s.ab)
  }

  predicate Reads(ev: Event) {
    ev.Read? || ev.Skip? || ev.Share? || ev.TakeNewKeys?
  }

  /** A step of end a.  A packet read must match the reader's cipher and sequence number. */
  function SysAct(kex: Kex, s: System, ev: Event): Result {
    if Reads(ev) && (s.ba == [] || s.ba[0].body != ev.b) then Skipped else
    var o := Act(kex, s.a, ev);
    if o.Disabled? then Skipped else
    if Reads(ev) && (s.ba[0].cipher != s.a.reader.cipher || s.ba[0].seqNum != s.a.reader.seqNum) then Mismatch else
    if !o.Next? then Broken else
    Went(s.(a := o.e, ab := s.ab + o.out, ba := if Reads(ev) then s.ba[1..] else s.ba))
  }

  function SysStep(kex: Kex, s: System, byA: bool, ev: Event): Result {
    if byA then SysAct(kex, s, ev) else
    match SysAct(kex, Flip(s), ev)
    case Went(t) => Went(Flip(t))
    case r => r
  }

  function Connected(client: Config, server: Config): System {
    System(Fresh(true, client), Fresh(false, server), [], [])
  }

  datatype Turn = Turn(byA: bool, ev: Event)

  /** A run; steps that are not enabled are skipped. */
  function RunSys(kex: Kex, s: System, turns: seq<Turn>): Result
    decreases turns
  {
    if turns == [] then Went(s) else
    match RunSys(kex, s, turns[..|turns| - 1])
    case Went(t) =>
      var last := turns[|turns| - 1];
      var r := SysStep(kex, t, last.byA, last.ev);
      if r.Skipped? then Went(t) else r
    case r => r
  }

  // --------------------------------------------------------------------------
  // The ciphers of the exchanges
  // --------------------------------------------------------------------------

  function InitAt(ctl: seq<Body>, i: nat): KexInit {
    if i < |ctl| && ctl[i].Init? then ctl[i].init else KexInit(0, [], [], [], [], [], [], [], [], false)
  }

  function ShareAt(ctl: seq<Body>, i: nat): nat {
    if i < |ctl| && ctl[i].DhInit? then ctl[i].x else if i < |ctl| && ctl[i].DhReply? then ctl[i].y else 0
  }

  /** The exchange packets of the client and of the server, as far as an end has seen them. */
  datatype View = View(c: seq<Body>, s: seq<Body>)

  function ViewOf(e: End): View {
    if e.client then View(e.ctl, e.got) else View(e.got, e.ctl)
  }

  function ResultAt(kex: Kex, v: View, r: nat): KexResult {
    kex(InitAt(v.c, 3 * r), InitAt(v.s, 3 * r), ShareAt(v.c, 3 * r + 1), ShareAt(v.s, 3 * r + 1))
  }

  function AlgsAt(v: View, r: nat): DirectionAlgs {
    var a := FindAgreed(InitAt(v.c, 3 * r), InitAt(v.s, 3 * r));
    if a.Some? then a.value.w else DirectionAlgs("", "", "")
  }

  /** The cipher of one direction after n key changes. */
  function CipherAt(kex: Kex, v: View, toServer: bool, n: nat): Cipher {
    if n == 0 then Plain else Keyed(toServer, AlgsAt(v, n - 1), ResultAt(kex, v, n - 1), ResultAt(kex, v, 0).h)
  }

  /** The first n exchanges are in the view. */
  predicate Covers(v: View, n: nat) {
    n > 0 ==> 3 * n - 1 <= |v.c| && 3 * n - 1 <= |v.s|
  }

  predicate Extends(v: View, w: View) {
    v.c <= w.c && v.s <= w.s
  }

  /** What is in a view does not change when the view grows. */
  lemma CipherStable(kex: Kex, v: View, w: View, toServer: bool, n: nat)
    requires Extends(v, w) && Covers(v, n)
    ensures CipherAt(kex, w, toServer, n) == CipherAt(kex, v, toServer, n)
  {
    if n > 0 {
      RoundStable(kex, v, w, n - 1);
      RoundStable(kex, v, w, 0);
    }
  }

  lemma RoundStable(kex: Kex, v: View, w: View, r: nat)
    requires Extends(v, w) && 3 * r + 2 <= |v.c| && 3 * r + 2 <= |v.s|
    ensures ResultAt(kex, w, r) == ResultAt(kex, v, r) && AlgsAt(w, r) == AlgsAt(v, r)
  {
    assert v.c[3 * r] == w.c[3 * r] && v.s[3 * r] == w.s[3 * r];
    assert v.c[3 * r + 1] == w.c[3 * r + 1] && v.s[3 * r + 1] == w.s[3 * r + 1];
  }

  predicate Symmetric(i: KexInit) {
    i.cipherCS == i.cipherSC && i.macCS == i.macSC && i.compCS == i.compSC && !i.follows
  }

  lemma SymmetricAgrees(c: KexInit, s: KexInit)
    requires Symmetric(c) && Symmetric(s)
    ensures FindAgreed(c, s).Some? ==> FindAgreed(c, s).value.w == FindAgreed(c, s).value.r
  {
  }

  // --------------------------------------------------------------------------
  // One end
  // --------------------------------------------------------------------------

  /** KEXINIT, key share, NEWKEYS, over and over. */
  predicate InTurn(b: Body, i: nat, client: bool) {
    if i % 3 == 0 then b.Init? && Symmetric(b.init)
    else if i % 3 == 1 then (if client then b.DhInit? else b.DhReply?)
    else b.NewKeys?
  }

  ghost predicate Pattern(ctl: seq<Body>, client: bool) {
    forall i :: 0 <= i < |ctl| ==> InTurn(ctl[i], i, client)
  }

  /** How many exchange packets an end has written and taken at each place of the read loop. */
  predicate Counts(e: End) {
    var n, m := |e.ctl|, |e.got|;
    var sent := if e.sentInit.Some? then 1 else 0;
    match e.pc
    case Reading => m % 3 == 0 && n == m + sent
    case Entered(_) => m % 3 == 1 && n == m - 1 + sent
    case Ready(_, _) => m % 3 == 1 && n == m && sent == 1
    case Skipping(_, _, _, _) => false
    case Waiting(_, _, _, _) => m % 3 == 1 && n == (if e.client then m + 1 else m) && sent == 1
    case Derived(_, _) => m % 3 == 2 && n == m && sent == 1
    case Prepared => m % 3 == 2 && n == m && sent == 1
    case NewKeysSent => m % 3 == 2 && n == m + 1 && sent == 1
    case Finished => m % 3 == 0 && m > 0 && n == m && sent == 1
    case Failed => sent == 0 ==> n % 3 == 0
    case Stopped => sent == 0 && !e.closed ==> n % 3 == 0
  }

  /** The values that the read loop carries come from the packets of the exchange. */
  predicate Values(kex: Kex, e: End) {
    var r := |e.got| / 3;
    var v := ViewOf(e);
    match e.pc
    case Entered(other) => other == InitAt(e.got, 3 * r)
        && (e.sentInit.Some? ==> e.sentInit.value == InitAt(e.ctl, 3 * r))
    case Ready(other, my) => other == InitAt(e.got, 3 * r) && my == InitAt(e.ctl, 3 * r)
    case Waiting(other, my, algs, share) =>
      && other == InitAt(e.got, 3 * r) && my == InitAt(e.ctl, 3 * r)
      && FindAgreed(InitAt(v.c, 3 * r), InitAt(v.s, 3 * r)) == Some(algs)
      && (e.client ==> share == ShareAt(e.ctl, 3 * r + 1))
    case Derived(algs, result) =>
      FindAgreed(InitAt(v.c, 3 * r), InitAt(v.s, 3 * r)) == Some(algs) && result == ResultAt(kex, v, r)
    case Reading => e.sentInit.Some? ==> e.sentInit.value == InitAt(e.ctl, 3 * r)
    case _ => true
  }

  /** The ciphers in use and the ones waiting. */
  predicate Ciphers(kex: Kex, e: End) {
    var v := ViewOf(e);
    var r := |e.got| / 3;
    var active := !e.pc.Failed? && !e.pc.Stopped?;
    && e.writer.cipher == CipherAt(kex, v, e.client, |e.ctl| / 3)
    && (active ==>
        && e.reader.cipher == CipherAt(kex, v, !e.client, r)
        && e.writer.pending == (if e.pc.Prepared? then Some(CipherAt(kex, v, e.client, r + 1)) else None)
        && e.reader.pending ==
           (if e.pc.Prepared? || e.pc.NewKeysSent? then Some(CipherAt(kex, v, !e.client, r + 1)) else None)
        && e.session == (if r > 0 || e.pc.Prepared? || e.pc.NewKeysSent? then Some(ResultAt(kex, v, 0).h) else None))
  }

  ghost predicate EndOk(kex: Kex, e: End) {
    && Pattern(e.ctl, e.client) && Pattern(e.got, !e.client)
    && Counts(e) && Values(kex, e) && Ciphers(kex, e)
    && Covers(ViewOf(e), |e.ctl| / 3) && Covers(ViewOf(e), |e.got| / 3)
    && (!e.pc.Stopped? ==> !e.closed) && (e.pc.Stopped? ==> e.dead)
  }

  // --------------------------------------------------------------------------
  // A link
  // --------------------------------------------------------------------------

  /** The packets on a link: k of the sender's exchange packets are already taken. */
  predicate LinkOk(kex: Kex, v: View, toServer: bool, link: seq<Packet>, ctl: seq<Body>, k: nat, seqNum: nat)
    decreases link
  {
    if link == [] then k == |ctl| else
    && link[0].cipher == CipherAt(kex, v, toServer, k / 3) && link[0].seqNum == seqNum
    && (if link[0].body.Upper?
        then k % 3 == 0 && LinkOk(kex, v, toServer, link[1..], ctl, k, NextSeq(seqNum))
        else k < |ctl| && link[0].body == ctl[k] && LinkOk(kex, v, toServer, link[1..], ctl, k + 1, NextSeq(seqNum)))
  }

  ghost predicate Joined(kex: Kex, tx: End, rx: End, link: seq<Packet>) {
    && rx.got <= tx.ctl && tx.client != rx.client
    && rx.reader.seqNum < SEQ_LIMIT && tx.writer.seqNum == (rx.reader.seqNum + |link|) % SEQ_LIMIT
    && (!rx.pc.Stopped? && !rx.pc.Failed?
        ==> LinkOk(kex, ViewOf(tx), tx.client, link, tx.ctl, |rx.got|, rx.reader.seqNum))
  }

  ghost predicate Inv(kex: Kex, s: System) {
    EndOk(kex, s.a) && EndOk(kex, s.b) && Joined(kex, s.a, s.b, s.ab) && Joined(kex, s.b, s.a, s.ba)
  }

  lemma ConnectedInv(kex: Kex, client: Config, server: Config)
    ensures Inv(kex, Connected(client, server))
  {
  }

  // --------------------------------------------------------------------------
  // What a step does at its own end
  // --------------------------------------------------------------------------

  /** The packet that comes next in the peer's stream. */
  predicate Expected(e: End, b: Body) {
    (b.Upper? && |e.got| % 3 == 0) || InTurn(b, |e.got|, !e.client)
  }

  function Grown(ctl: seq<Body>, b: Body): seq<Body> {
    if b.Upper? then ctl else ctl + [b]
  }

  /** What was written: nothing, or one packet with the writer's cipher and number, allowed at this point. */
  ghost predicate Emits(e: End, f: End, out: seq<Packet>) {
    if out == [] then f.ctl == e.ctl && f.writer.seqNum == e.writer.seqNum
    else
      && |out| == 1 && out[0].cipher == e.writer.cipher && out[0].seqNum == e.writer.seqNum
      && f.ctl == Grown(e.ctl, out[0].body) && f.writer.seqNum == NextSeq(e.writer.seqNum)
      && (out[0].body.Upper? ==> |e.ctl| % 3 == 0)
  }

  /** A step that takes no packet. */
  ghost predicate Quiet(kex: Kex, e: End, o: Outcome) {
    o.Disabled? || (o.Next? && EndOk(kex, o.e) && Emits(e, o.e, o.out) && o.e.client == e.client &&
                    o.e.got == e.got && o.e.reader.seqNum == e.reader.seqNum &&
                    (e.pc.Failed? || e.pc.Stopped? ==> o.e.pc.Failed? || o.e.pc.Stopped?))
  }

  /** A step that takes a packet, and goes on. */
  ghost predicate Taking(kex: Kex, e: End, b: Body, o: Outcome) {
    o.Disabled? || (o.Next? && EndOk(kex, o.e) && Emits(e, o.e, o.out) && o.e.client == e.client &&
                    o.e.got == Grown(e.got, b) && o.e.reader.seqNum == NextSeq(e.reader.seqNum) &&
                    !e.pc.Failed? && !e.pc.Stopped? && !o.e.pc.Failed? && !o.e.pc.Stopped?)
  }

  /** Views only grow, and ciphers of covered exchanges stay. */
  lemma StableAll(kex: Kex, v: View, w: View)
    requires Extends(v, w)
    ensures forall d: bool, n: nat :: Covers(v, n) ==> CipherAt(kex, w, d, n) == CipherAt(kex, v, d, n)
    ensures 2 <= |v.c| && 2 <= |v.s| ==> ResultAt(kex, w, 0) == ResultAt(kex, v, 0)
  {
    forall d: bool, n: nat | Covers(v, n) ensures CipherAt(kex, w, d, n) == CipherAt(kex, v, d, n) {
      CipherStable(kex, v, w, d, n);
    }
    if 2 <= |v.c| && 2 <= |v.s| {
      RoundStable(kex, v, w, 0);
    }
  }

  lemma PatternAppend(ctl: seq<Body>, b: Body, client: bool)
    requires Pattern(ctl, client) && InTurn(b, |ctl|, client)
    ensures Pattern(ctl + [b], client)
  {
  }

  lemma PatternAt(ctl: seq<Body>, client: bool, i: nat)
    requires Pattern(ctl, client) && i < |ctl|
    ensures InTurn(ctl[i], i, client)
  {
  }

  lemma AtStable(ctl: seq<Body>, b: Body, i: nat)
    requires i < |ctl|
    ensures InitAt(ctl + [b], i) == InitAt(ctl, i) && ShareAt(ctl + [b], i) == ShareAt(ctl, i)
  {
  }

  lemma AtNew(ctl: seq<Body>, b: Body)
    ensures b.Init? ==> InitAt(ctl + [b], |ctl|) == b.init
    ensures b.DhInit? ==> ShareAt(ctl + [b], |ctl|) == b.x
    ensures b.DhReply? ==> ShareAt(ctl + [b], |ctl|) == b.y
  {
  }

  lemma RequestCiphers(kex: Kex, e: End, cookie: nat)
    requires EndOk(kex, e) && RequestStep(e, cookie).Next?
    ensures Ciphers(kex, RequestStep(e, cookie).e)
  {
    hide CipherAt, ResultAt, AlgsAt, FindAgreed, Pattern, InitAt, ShareAt, Values, BuildInit;
    StableAll(kex, ViewOf(e), ViewOf(RequestStep(e, cookie).e));
  }

  lemma RequestKeeps(kex: Kex, e: End, cookie: nat)
    requires EndOk(kex, e)
    ensures Quiet(kex, e, RequestStep(e, cookie))
  {
    hide CipherAt, ResultAt, AlgsAt, FindAgreed, Pattern, InitAt, ShareAt, Ciphers;
    var o := RequestStep(e, cookie);
    if o.Next? {
      RequestCiphers(kex, e, cookie);
      StableAll(kex, ViewOf(e), ViewOf(o.e));
      PatternAppend(e.ctl, Init(BuildInit(e.cfg, cookie)), e.client);
      AtNew(e.ctl, Init(BuildInit(e.cfg, cookie)));
    }
  }

  lemma WriteKeeps(kex: Kex, e: End, data: seq<int>, refused: bool)
    requires EndOk(kex, e)
    ensures Quiet(kex, e, WriteStep(e, data, refused))
  {
    hide CipherAt, ResultAt, AlgsAt, FindAgreed, Pattern, InitAt, ShareAt;
  }

  lemma EnterKeeps(kex: Kex, e: End, cookie: nat)
    requires EndOk(kex, e)
    ensures Quiet(kex, e, EnterStep(e, cookie))
  {
    hide EndOk, Quiet;
    if !e.pc.Entered? {
      DisabledQuiet(kex, e);
    } else if e.sentInit.Some? {
      EnterAgain(kex, e, cookie);
    } else {
      EnterFirst(kex, e, cookie);
    }
  }

  lemma DisabledQuiet(kex: Kex, e: End)
    ensures Quiet(kex, e, Disabled)
  {
  }

  lemma EnterAgain(kex: Kex, e: End, cookie: nat)
    requires EndOk(kex, e) && e.pc.Entered? && e.sentInit.Some?
    ensures Quiet(kex, e, EnterStep(e, cookie))
  {
    hide CipherAt, ResultAt, AlgsAt, FindAgreed, Pattern, InitAt, ShareAt;
    StableAll(kex, ViewOf(e), ViewOf(EnterStep(e, cookie).e));
  }

  lemma EnterFirst(kex: Kex, e: End, cookie: nat)
    requires EndOk(kex, e) && e.pc.Entered? && e.sentInit.None?
    ensures Quiet(kex, e, EnterStep(e, cookie))
  {
    hide CipherAt, ResultAt, AlgsAt, FindAgreed, Pattern, InitAt, ShareAt;
    StableAll(kex, ViewOf(e), ViewOf(EnterStep(e, cookie).e));
    AtNew(e.ctl, Init(BuildInit(e.cfg, cookie)));
    PatternAppend(e.ctl, Init(BuildInit(e.cfg, cookie)), e.client);
  }

  lemma AgreeKeeps(kex: Kex, e: End, share: nat)
    requires EndOk(kex, e)
    ensures Quiet(kex, e, AgreeStep(e, share))
  {
    hide CipherAt, ResultAt, AlgsAt, FindAgreed, Pattern, InitAt, ShareAt;
    var o := AgreeStep(e, share);
    if e.pc.Ready? {
      NoGuess(e);
    }
    if o.Next? {
      StableAll(kex, ViewOf(e), ViewOf(o.e));
      if e.client {
        AtStable(e.ctl, DhInit(share), |e.ctl| - 1);
        AtNew(e.ctl, DhInit(share));
        PatternAppend(e.ctl, DhInit(share), e.client);
      }
    }
  }

  /** Neither end announces a guessed packet. */
  lemma NoGuess(e: End)
    requires Pattern(e.got, !e.client) && |e.got| % 3 == 1 && e.pc.Ready?
             && e.pc.other == InitAt(e.got, 3 * (|e.got| / 3))
    ensures !e.pc.other.follows
  {
    PatternAt(e.got, !e.client, 3 * (|e.got| / 3));
  }

  lemma PrepareKeeps(kex: Kex, e: End)
    requires EndOk(kex, e)
    ensures Quiet(kex, e, PrepareStep(e))
  {
    hide ResultAt, FindAgreed, Pattern;
    if e.pc.Derived? {
      var r := |e.got| / 3;
      PatternAt(e.ctl, e.client, 3 * r);
      PatternAt(e.got, !e.client, 3 * r);
      SymmetricAgrees(InitAt(ViewOf(e).c, 3 * r), InitAt(ViewOf(e).s, 3 * r));
    }
  }

  lemma SendNewKeysKeeps(kex: Kex, e: End)
    requires EndOk(kex, e)
    ensures Quiet(kex, e, SendNewKeysStep(e))
  {
    hide CipherAt, ResultAt, AlgsAt, FindAgreed, Pattern, InitAt, ShareAt;
    var o := SendNewKeysStep(e);
    if o.Next? {
      StableAll(kex, ViewOf(e), ViewOf(o.e));
      PatternAppend(e.ctl, NewKeys, e.client);
    }
  }

  lemma EndingKeeps(kex: Kex, e: End)
    requires EndOk(kex, e)
    ensures Quiet(kex, e, FinishStep(e)) && Quiet(kex, e, FailStep(e)) && Quiet(kex, e, GiveUpStep(e))
  {
    hide CipherAt, ResultAt, AlgsAt, FindAgreed, Pattern, InitAt, ShareAt;
  }

  lemma ReadKeeps(kex: Kex, e: End, b: Body)
    requires EndOk(kex, e) && Expected(e, b)
    ensures Taking(kex, e, b, ReadStep(e, b))
  {
    hide CipherAt, ResultAt, AlgsAt, FindAgreed, Pattern, InitAt, ShareAt;
    var o := ReadStep(e, b);
    if o.Next? && !b.Upper? {
      StableAll(kex, ViewOf(e), ViewOf(o.e));
      PatternAppend(e.got, b, !e.client);
      AtNew(e.got, b);
    }
  }

  /** The result of the exchange is the one that both key shares determine. */
  lemma ResultDerived(kex: Kex, e: End, f: End, b: Body)
    requires EndOk(kex, e) && Expected(e, b) && e.pc.Waiting? && f.client == e.client && f.got == e.got + [b]
    requires f.ctl == if e.client then e.ctl else e.ctl + [DhReply(e.pc.share)]
    ensures var r := |f.got| / 3;
            && FindAgreed(InitAt(ViewOf(f).c, 3 * r), InitAt(ViewOf(f).s, 3 * r)) == Some(e.pc.algs)
            && ResultAt(kex, ViewOf(f), r) ==
               (if e.client then kex(e.pc.my, e.pc.other, e.pc.share, b.y)
                   else kex(e.pc.other, e.pc.my, b.x, e.pc.share))
  {
    hide CipherAt, AlgsAt, FindAgreed, Pattern, InitAt, ShareAt, Ciphers;
    var r := |e.got| / 3;
    AtStable(e.got, b, 3 * r);
    AtNew(e.got, b);
    AtStable(e.ctl, DhReply(e.pc.share), 3 * r);
    AtNew(e.ctl, DhReply(e.pc.share));
  }

  lemma ShareKeeps(kex: Kex, e: End, b: Body)
    requires EndOk(kex, e) && Expected(e, b)
    ensures Taking(kex, e, b, ShareStep(kex, e, b))
  {
    hide CipherAt, ResultAt, AlgsAt, FindAgreed, Pattern, InitAt, ShareAt;
    var o := ShareStep(kex, e, b);
    if o.Next? {
      StableAll(kex, ViewOf(e), ViewOf(o.e));
      PatternAppend(e.got, b, !e.client);
      ResultDerived(kex, e, o.e, b);
      if !e.client {
        PatternAppend(e.ctl, DhReply(e.pc.share), e.client);
      }
    }
  }

  lemma TakeNewKeysKeeps(kex: Kex, e: End, b: Body)
    requires EndOk(kex, e) && Expected(e, b)
    ensures Taking(kex, e, b, TakeNewKeysStep(e, b))
  {
    hide CipherAt, ResultAt, AlgsAt, FindAgreed, Pattern, InitAt, ShareAt;
    var o := TakeNewKeysStep(e, b);
    if o.Next? {
      StableAll(kex, ViewOf(e), ViewOf(o.e));
      PatternAppend(e.got, b, !e.client);
    }
  }

  // --------------------------------------------------------------------------
  // What a step does to the links
  // --------------------------------------------------------------------------

  ghost predicate SameCiphers(kex: Kex, v: View, w: View, d: bool, n: nat) {
    forall i: nat :: i <= n ==> CipherAt(kex, w, d, i) == CipherAt(kex, v, d, i)
  }

  lemma {:induction false} LinkBound(kex: Kex, v: View, d: bool, link: seq<Packet>, ctl: seq<Body>, k: nat, seqNum: nat)
    requires LinkOk(kex, v, d, link, ctl, k, seqNum)
    ensures k <= |ctl|
    decreases link
  {
    if link != [] {
      var up := link[0].body.Upper?;
      LinkBound(kex, v, d, link[1..], ctl, if up then k else k + 1, NextSeq(seqNum));
    }
  }

  /** The packets on a link do not care whether their sender has seen more. */
  lemma {:induction false} LinkGrow(kex: Kex, v: View, w: View, d: bool, link: seq<Packet>, ctl: seq<Body>, k: nat,
      seqNum: nat)
    requires LinkOk(kex, v, d, link, ctl, k, seqNum) && SameCiphers(kex, v, w, d, |ctl| / 3)
    ensures LinkOk(kex, w, d, link, ctl, k, seqNum)
    decreases link
  {
    hide CipherAt;
    if link != [] {
      LinkBound(kex, v, d, link, ctl, k, seqNum);
      var up := link[0].body.Upper?;
      LinkGrow(kex, v, w, d, link[1..], ctl, if up then k else k + 1, NextSeq(seqNum));
    }
  }

  /** A packet written with the current cipher and number goes to the end of the link. */
  lemma {:induction false} LinkAppend(kex: Kex, v: View, w: View, d: bool, link: seq<Packet>, ctl: seq<Body>, k: nat,
      seqNum: nat, p: Packet)
    requires LinkOk(kex, v, d, link, ctl, k, seqNum) && SameCiphers(kex, v, w, d, |ctl| / 3) && seqNum < SEQ_LIMIT
    requires p.cipher == CipherAt(kex, v, d, |ctl| / 3) && p.seqNum == (seqNum + |link|) % SEQ_LIMIT
    requires p.body.Upper? ==> |ctl| % 3 == 0
    ensures LinkOk(kex, w, d, link + [p], Grown(ctl, p.body), k, seqNum)
    decreases link
  {
    hide CipherAt;
    if link == [] {
      assert (link + [p])[1..] == [];
    } else {
      LinkBound(kex, v, d, link, ctl, k, seqNum);
      var up := link[0].body.Upper?;
      LinkBound(kex, v, d, link[1..], ctl, if up then k else k + 1, NextSeq(seqNum));
      LinkAppend(kex, v, w, d, link[1..], ctl, if up then k else k + 1, NextSeq(seqNum), p);
      assert (link + [p])[1..] == link[1..] + [p];
    }
  }

  /** The sender's side of a link. */
  lemma SenderKeeps(kex: Kex, tx: End, rx: End, link: seq<Packet>, f: End, out: seq<Packet>)
    requires EndOk(kex, tx) && Joined(kex, tx, rx, link) && Emits(tx, f, out) && f.client == tx.client
             && tx.got <= f.got
    ensures Joined(kex, f, rx, link + out)
  {
    hide CipherAt, ResultAt, AlgsAt, FindAgreed, Pattern, Counts, Values;
    var v, w := ViewOf(tx), ViewOf(f);
    StableAll(kex, v, w);
    assert SameCiphers(kex, v, w, tx.client, |tx.ctl| / 3);
    if !rx.pc.Stopped? && !rx.pc.Failed? {
      if out == [] {
        LinkGrow(kex, v, w, tx.client, link, tx.ctl, |rx.got|, rx.reader.seqNum);
        assert link + out == link;
      } else {
        LinkAppend(kex, v, w, tx.client, link, tx.ctl, |rx.got|, rx.reader.seqNum, out[0]);
        assert link + out == link + [out[0]];
      }
    }
  }

  /** The next packet has the reader's cipher and number, and is the one that the read loop expects. */
  lemma HeadMatches(kex: Kex, tx: End, rx: End, link: seq<Packet>)
    requires EndOk(kex, tx) && EndOk(kex, rx) && Joined(kex, tx, rx, link) && tx.got <= rx.ctl && link != []
    requires !rx.pc.Stopped? && !rx.pc.Failed?
    ensures link[0].cipher == rx.reader.cipher && link[0].seqNum == rx.reader.seqNum && Expected(rx, link[0].body)
    ensures Grown(rx.got, link[0].body) <= tx.ctl
    ensures LinkOk(kex, ViewOf(tx), tx.client, link[1..], tx.ctl, |Grown(rx.got, link[0].body)|,
            NextSeq(rx.reader.seqNum))
  {
    hide CipherAt, ResultAt, AlgsAt, FindAgreed, Counts, Values;
    var k := |rx.got|;
    LinkBound(kex, ViewOf(tx), tx.client, link, tx.ctl, k, rx.reader.seqNum);
    CipherMeet(kex, tx, rx, k / 3);
    if !link[0].body.Upper? {
      assert InTurn(tx.ctl[k], k, tx.client);
      assert rx.got + [link[0].body] == tx.ctl[..k + 1];
    }
  }

  /** Both ends see the same cipher after n key changes. */
  lemma CipherMeet(kex: Kex, tx: End, rx: End, n: nat)
    requires tx.client != rx.client && rx.got <= tx.ctl && tx.got <= rx.ctl
    requires Covers(ViewOf(tx), n) && Covers(ViewOf(rx), n)
    ensures CipherAt(kex, ViewOf(tx), tx.client, n) == CipherAt(kex, ViewOf(rx), !rx.client, n)
  {
    var v, w := ViewOf(tx), ViewOf(rx);
    var m := View(if |v.c| <= |w.c| then v.c else w.c, if |v.s| <= |w.s| then v.s else w.s);
    CipherStable(kex, m, v, tx.client, n);
    CipherStable(kex, m, w, tx.client, n);
  }

  // --------------------------------------------------------------------------
  // The system
  // --------------------------------------------------------------------------

  lemma QuietStep(kex: Kex, e: End, ev: Event)
    requires EndOk(kex, e) && !Reads(ev)
    ensures Quiet(kex, e, Act(kex, e, ev))
  {
    hide Quiet, EndOk, RequestStep, WriteStep, EnterStep, AgreeStep, PrepareStep, SendNewKeysStep, FinishStep,
        FailStep, GiveUpStep;
    match ev
    case Request(cookie) => RequestKeeps(kex, e, cookie);
    case WriteUpper(data, refused) => WriteKeeps(kex, e, data, refused);
    case Enter(cookie) => EnterKeeps(kex, e, cookie);
    case Agree(share) => AgreeKeeps(kex, e, share);
    case Prepare => PrepareKeeps(kex, e);
    case SendNewKeys => SendNewKeysKeeps(kex, e);
    case Finish => EndingKeeps(kex, e);
    case Fail => EndingKeeps(kex, e);
    case GiveUp => EndingKeeps(kex, e);
  }

  lemma TakingStep(kex: Kex, e: End, ev: Event)
    requires EndOk(kex, e) && Reads(ev) && Expected(e, ev.b)
    ensures Taking(kex, e, ev.b, Act(kex, e, ev))
  {
    hide Taking, EndOk, ReadStep, ShareStep, TakeNewKeysStep, Expected;
    match ev
    case Read(b) => ReadKeeps(kex, e, b);
    case Skip(b) => NeverSkips(kex, e, b);
    case Share(b) => ShareKeeps(kex, e, b);
    case TakeNewKeys(b) => TakeNewKeysKeeps(kex, e, b);
  }

  lemma NeverSkips(kex: Kex, e: End, b: Body)
    requires EndOk(kex, e)
    ensures Taking(kex, e, b, SkipStep(e, b))
  {
    hide CipherAt, ResultAt, AlgsAt, FindAgreed, Pattern, InitAt, ShareAt;
  }

  lemma QuietInv(kex: Kex, s: System, ev: Event)
    requires Inv(kex, s) && !Reads(ev)
    ensures var r := SysAct(kex, s, ev); r.Skipped? || (r.Went? && Inv(kex, r.sys))
  {
    hide Act, EndOk, LinkOk, Emits, ViewOf;
    QuietStep(kex, s.a, ev);
    var o := Act(kex, s.a, ev);
    if o.Next? {
      SenderKeeps(kex, s.a, s.b, s.ab, o.e, o.out);
      EmitsPrefix(s.a, o.e, o.out, s.b.got);
    }
  }

  /** What the peer has taken stays a prefix of what is written. */
  lemma EmitsPrefix(e: End, f: End, out: seq<Packet>, got: seq<Body>)
    requires Emits(e, f, out) && got <= e.ctl
    ensures got <= f.ctl
  {
  }

  lemma TakingInv(kex: Kex, s: System, ev: Event)
    requires Inv(kex, s) && Reads(ev)
    ensures var r := SysAct(kex, s, ev);
            r.Skipped? || (r.Went? && Inv(kex, r.sys) && !r.sys.a.pc.Failed? && !r.sys.a.pc.Stopped?)
  {
    hide Act, EndOk, LinkOk, Emits, ViewOf, Expected;
    var o := Act(kex, s.a, ev);
    if s.ba != [] && s.ba[0].body == ev.b && !o.Disabled? {
      NotStopped(kex, s.a, ev);
      HeadMatches(kex, s.b, s.a, s.ba);
      TakingStep(kex, s.a, ev);
      SenderKeeps(kex, s.a, s.b, s.ab, o.e, o.out);
      EmitsPrefix(s.a, o.e, o.out, s.b.got);
      SeqPop(s.a.reader.seqNum, |s.ba|);
    }
  }

  lemma NotStopped(kex: Kex, e: End, ev: Event)
    requires Reads(ev) && !Act(kex, e, ev).Disabled?
    ensures !e.pc.Failed? && !e.pc.Stopped?
  {
  }

  lemma SeqPop(n: nat, len: nat)
    requires n < SEQ_LIMIT && len > 0
    ensures (n + len) % SEQ_LIMIT == (NextSeq(n) + (len - 1)) % SEQ_LIMIT && NextSeq(n) < SEQ_LIMIT
  {
  }

  lemma InvFlip(kex: Kex, s: System)
    requires Inv(kex, s)
    ensures Inv(kex, Flip(s))
  {
  }

  lemma SysKeeps(kex: Kex, s: System, byA: bool, ev: Event)
    requires Inv(kex, s)
    ensures var r := SysStep(kex, s, byA, ev); r.Skipped? || (r.Went? && Inv(kex, r.sys))
  {
    hide Inv, SysAct;
    var t := if byA then s else Flip(s);
    assert Inv(kex, t) by { InvFlip(kex, s); }
    if Reads(ev) {
      TakingInv(kex, t, ev);
    } else {
      QuietInv(kex, t, ev);
    }
    var r := SysAct(kex, t, ev);
    if r.Went? {
      InvFlip(kex, r.sys);
    }
  }

  lemma {:induction false} RunInv(kex: Kex, client: Config, server: Config, turns: seq<Turn>)
    ensures var r := RunSys(kex, Connected(client, server), turns); r.Went? && Inv(kex, r.sys)
    decreases turns
  {
    hide Inv, SysStep, Connected;
    if turns == [] {
      ConnectedInv(kex, client, server);
    } else {
      RunInv(kex, client, server, turns[..|turns| - 1]);
      var s := RunSys(kex, Connected(client, server), turns[..|turns| - 1]).sys;
      SysKeeps(kex, s, turns[|turns| - 1].byA, turns[|turns| - 1].ev);
    }
  }

  /**
   In every run of a client and a server, across any number of key exchanges: no packet is read with
   another cipher, algorithm or sequence number than it was written with, NEWKEYS never lacks its key
   material and never comes as a surprise, the pending slots never block, and a read loop that takes
   a packet never fails over it.
   */
  lemma RekeyInLockstep(kex: Kex, client: Config, server: Config, turns: seq<Turn>, byA: bool, ev: Event)
    ensures RunSys(kex, Connected(client, server), turns).Went?
    ensures var s := RunSys(kex, Connected(client, server), turns).sys;
            var t := if byA then s else Flip(s);
            Reads(ev) && t.ba != [] && t.ba[0].body == ev.b && !Act(kex, t.a, ev).Disabled? ==>
              && t.ba[0].cipher == t.a.reader.cipher && t.ba[0].seqNum == t.a.reader.seqNum
              && SysAct(kex, t, ev).Went? && !SysAct(kex, t, ev).sys.a.pc.Failed?
              && !SysAct(kex, t, ev).sys.a.pc.Stopped?
  {
    hide RunSys, Act, EndOk, Joined;
    RunInv(kex, client, server, turns);
    var s := RunSys(kex, Connected(client, server), turns).sys;
    var t := if byA then s else Flip(s);
    if Reads(ev) && t.ba != [] && t.ba[0].body == ev.b && !Act(kex, t.a, ev).Disabled? {
      TakingInv(kex, t, ev);
    }
  }
}
