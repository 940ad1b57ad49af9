/**
 Two ends of an OTR conversation right after a key exchange, joined by first-in first-out links.  Each
 end sends whenever it likes; the theorems hold for every interleaving of sends and deliveries.
 */
module OtrSession {
  import opened Modular
  import opened Bits
  import opened OtrRatchet
  import opened Wrappers

  /**
   One end; my and their number the keys without wrap-around, next is the next counter without it, and
   priv(n) is the n-th private value.
   */
  datatype End = End(st: State, my: nat, their: nat, next: nat, priv: nat -> nat)

  /** A message on a link, with the key numbers and the text that its sender meant. */
  datatype Packet = Packet(m: Message, s: nat, r: nat, text: seq<byte>)

  datatype System = System(a: End, b: End, ab: seq<Packet>, ba: seq<Packet>,
                           sentA: seq<seq<byte>>, sentB: seq<seq<byte>>, gotA: seq<seq<byte>>, gotB: seq<seq<byte>>)

  datatype Result = Disabled | Panic | Refused(outcome: Outcome) | Next(sys: System)

  function Flip(s: System): System {
    System(s.b, s.a, s.ba, s.ab, s.sentB, s.sentA, s.gotB, s.gotA)
  }

  ghost function SendStep(c: Crypto, s: System, text: seq<byte>): Result
    requires c.p > 1
  {
    match GenerateData(c, s.a.st, text)
    case None => Panic
    case Some((st, m)) =>
      Next(s.(a := s.a.(st := st, next := s.a.next + 1), sentA := s.sentA + [text],
              ab := s.ab + [Packet(m, if s.a.my > 0 then s.a.my - 1 else 0, s.a.their, text)]))
  }

  ghost function DeliverStep(c: Crypto, s: System): Result
    requires c.p > 1
  {
    if s.ba == [] then Disabled else
    var b := s.ba[0].m.body;
    var r := ProcessData(c, s.a.st, s.ba[0].m, s.a.priv(s.a.my + 1));
    if !r.1.Accepted? then Refused(r.1) else
    Next(s.(a := s.a.(st := r.0, my := if b.recipient == s.a.st.my then s.a.my + 1 else s.a.my,
                      their := if b.sender == s.a.st.their then s.a.their + 1 else s.a.their),
            ba := s.ba[1..], gotA := s.gotA + [r.1.text]))
  }

  datatype Action = Send(text: seq<byte>) | Deliver

  ghost function Act(c: Crypto, s: System, act: Action): Result
    requires c.p > 1
  {
    if act.Send? then SendStep(c, s, act.text) else DeliverStep(c, s)
  }

  /** A step of either end. */
  ghost function Step(c: Crypto, s: System, byA: bool, act: Action): Result
    requires c.p > 1
  {
    if byA then Act(c, s, act) else
    match Act(c, Flip(s), act)
    case Next(t) => Next(Flip(t))
    case r => r
  }

  /** The end after the key exchange: key 1 was used in it, key 2 is drawn, the peer's key 1 is known. */
  ghost predicate Fresh(c: Crypto, e: End, peer: End)
    requires c.p > 1
  {
    && e.my == 2 && e.their == 1
    && e.st == Begin(c, e.priv(1), e.priv(2), Public(c, peer.priv(1)), e.st.ctr, e.st.oldMACs)
    && 0 < e.st.ctr < CTR_LIMIT && e.next == e.st.ctr
  }

  ghost predicate Initial(c: Crypto, s: System)
    requires c.p > 1
  {
    && Fresh(c, s.a, s.b) && Fresh(c, s.b, s.a) && s.ab == [] && s.ba == []
    && s.sentA == [] && s.sentB == [] && s.gotA == [] && s.gotB == []
  }

  /** s comes about from s0 in n steps, and no packet on the way has named equal public values. */
  ghost predicate Reachable(c: Crypto, s0: System, s: System, n: nat)
    requires c.p > 1
    decreases n
  {
    if n == 0 then s == s0
    else exists r: System, byA: bool, act: Action ::
           Reachable(c, s0, r, n - 1) && PairsDiffer(c, r) && Step(c, r, byA, act) == Next(s)
  }

  /** The two public values that a packet names are different: see KeysSwap for why this matters. */
  ghost predicate PairDiffers(c: Crypto, tx: End, rx: End, p: Packet)
    requires c.p > 1
  {
    Public(c, tx.priv(p.s)) != Public(c, rx.priv(p.r))
  }

  /** So it is for every packet on its way. */
  ghost predicate PairsDiffer(c: Crypto, s: System)
    requires c.p > 1
  {
    && (forall i :: 0 <= i < |s.ab| ==> PairDiffers(c, s.a, s.b, s.ab[i]))
    && (forall i :: 0 <= i < |s.ba| ==> PairDiffers(c, s.b, s.a, s.ba[i]))
  }

  // --------------------------------------------------------------------------
  // The invariant
  // --------------------------------------------------------------------------

  ghost predicate EndOk(c: Crypto, e: End) {
    && Valid(c, e.st) && e.my >= 2 && e.their >= 1
    && e.st.my == e.my % ID_LIMIT && e.st.their == e.their % ID_LIMIT
    && e.st.curPriv == e.priv(e.my) && e.st.curPub == Public(c, e.priv(e.my))
    && e.st.lastPriv == e.priv(e.my - 1) && e.st.lastPub == Public(c, e.priv(e.my - 1))
    && 0 < e.next <= CTR_LIMIT && e.st.ctr == e.next % CTR_LIMIT
  }

  /** rx is at most one key behind tx, and holds the right public values. */
  ghost predicate Knows(c: Crypto, rx: End, tx: End)
    requires c.p > 1
  {
    && 1 <= rx.their && tx.my - 1 <= rx.their <= tx.my
    && rx.st.theirCur == Public(c, tx.priv(rx.their))
    && rx.st.theirLast == (if rx.their == 1 then None else Some(Public(c, tx.priv(rx.their - 1))))
  }

  /** The key numbers of a packet are ones that its receiver still holds. */
  ghost predicate InReach(tx: End, rx: End, p: Packet) {
    && 1 <= p.s && tx.my - 2 <= p.s <= tx.my - 1 && (rx.their == tx.my ==> p.s == tx.my - 1)
    && rx.my - 1 <= p.r <= rx.my && 1 <= p.r <= tx.their
  }

  /** The packet is what its sender makes of its text under the keys that it names. */
  ghost predicate Authentic(c: Crypto, tx: End, rx: End, p: Packet)
    requires c.p > 1
  {
    var b := p.m.body;
    var k := Derive(c, tx.priv(p.s), Public(c, tx.priv(p.s)), Public(c, rx.priv(p.r)));
    && !b.ignore && b.sender == p.s % ID_LIMIT && b.recipient == p.r % ID_LIMIT
    && b.y == Public(c, tx.priv(p.s + 1))
    && b.text == Crypt(c, k.sendAES, b.ctr, p.text) && p.m.mac == c.mac(k.sendMAC, b)
  }

  ghost predicate Genuine(c: Crypto, tx: End, rx: End, p: Packet)
    requires c.p > 1
  {
    Authentic(c, tx, rx, p) && 0 < p.m.body.ctr < tx.next
  }

  ghost predicate Sorted(q: seq<Packet>) {
    forall i, j :: 0 <= i < j < |q| ==> q[i].s <= q[j].s && q[i].r <= q[j].r && q[i].m.body.ctr < q[j].m.body.ctr
  }

  /** Everything the slots remember is older than everything on its way. */
  ghost predicate CountersBelow(slots: seq<Slot>, q: seq<Packet>, next: nat) {
    forall i :: 0 <= i < |slots| && slots[i].used ==>
      slots[i].lastCtr < next && forall j :: 0 <= j < |q| ==> slots[i].lastCtr < q[j].m.body.ctr
  }

  function Texts(q: seq<Packet>): seq<seq<byte>> {
    if q == [] then [] else [q[0].text] + Texts(q[1..])
  }

  /** One direction. */
  ghost predicate Half(c: Crypto, tx: End, rx: End, q: seq<Packet>) {
    && c.p > 1 && Knows(c, rx, tx)
    && (forall i :: 0 <= i < |q| ==> InReach(tx, rx, q[i]) && Genuine(c, tx, rx, q[i]))
    && Sorted(q) && CountersBelow(rx.st.slots, q, tx.next)
  }

  ghost predicate Inv(c: Crypto, s: System) {
    && Group(c) && EndOk(c, s.a) && EndOk(c, s.b)
    && Half(c, s.a, s.b, s.ab) && Half(c, s.b, s.a, s.ba)
    && s.sentA == s.gotB + Texts(s.ab) && s.sentB == s.gotA + Texts(s.ba)
  }

  lemma InitialInv(c: Crypto, s: System)
    requires Group(c) && Initial(c, s)
    ensures Inv(c, s)
  {
  }

  lemma InvGroup(c: Crypto, s: System)
    requires Inv(c, s)
    ensures c.p > 1
  {
  }

  lemma InvFlip(c: Crypto, s: System)
    requires Inv(c, s)
    ensures Inv(c, Flip(s))
  {
  }

  // --------------------------------------------------------------------------
  // Sending
  // --------------------------------------------------------------------------

  lemma {:induction false} TextsAppend(q: seq<Packet>, p: Packet)
    ensures Texts(q + [p]) == Texts(q) + [p.text]
  {
    if q == [] {
      assert q + [p] == [p];
    } else {
      TextsAppend(q[1..], p);
      assert (q + [p])[1..] == q[1..] + [p];
    }
  }

  /** The packet that a sends now is authentic and within reach of b; its counter is the next, modulo 2^64. */
  lemma SendAuthentic(c: Crypto, s: System, text: seq<byte>) returns (st: State, p: Packet, i: nat)
    requires EndOk(c, s.a) && Knows(c, s.a, s.b)
    ensures SendStep(c, s, text) == Next(s.(a := s.a.(st := st, next := s.a.next + 1), sentA := s.sentA + [text],
            ab := s.ab + [p]))
    ensures Valid(c, st) && st == s.a.st.(slots := st.slots, oldMACs := [], ctr := (s.a.next + 1) % CTR_LIMIT)
    ensures Touched(s.a.st.slots, st.slots, i, Prev(s.a.st.my), s.a.st.their)
    ensures p.s == s.a.my - 1 && p.r == s.a.their && p.text == text && p.m.body.ctr == s.a.next % CTR_LIMIT
    ensures InReach(s.a, s.b, p) && Authentic(c, s.a, s.b, p)
  {
    hide Derive, Crypt, GenerateData, Valid, Public, Touched;
    var a := s.a;
    var m;
    st, m, i := GenerateShape(c, a.st, text);
    NumberIds(a.my);
    NextCounter(a.next);
    p := Packet(m, a.my - 1, a.their, text);
  }

  lemma NextCounter(n: nat)
    ensures (n % CTR_LIMIT + 1) % CTR_LIMIT == (n + 1) % CTR_LIMIT
  {
  }

  lemma KnowsOf(c: Crypto, tx: End, rx: End, q: seq<Packet>)
    requires Half(c, tx, rx, q)
    ensures c.p > 1 && Knows(c, rx, tx)
  {
  }

  /** The new packet is the last in every respect. */
  lemma SendForward(c: Crypto, tx: End, rx: End, q: seq<Packet>, st: State, p: Packet)
    requires Half(c, tx, rx, q) && 0 < tx.next && st == tx.st.(slots := st.slots, oldMACs := st.oldMACs, ctr := st.ctr)
    requires p.s == tx.my - 1 && p.r == tx.their && p.m.body.ctr == tx.next
    requires InReach(tx, rx, p) && Authentic(c, tx, rx, p)
    ensures Half(c, tx.(st := st, next := tx.next + 1), rx, q + [p])
  {
    hide Derive, Crypt, Public;
    var t := tx.(st := st, next := tx.next + 1);
    forall i | 0 <= i < |q| ensures InReach(t, rx, q[i]) && Genuine(c, t, rx, q[i]) {
      assert InReach(tx, rx, q[i]) && Genuine(c, tx, rx, q[i]);
    }
    assert Authentic(c, t, rx, p);
    assert forall i :: 0 <= i < |q| ==> q[i].s <= p.s && q[i].r <= p.r && q[i].m.body.ctr < p.m.body.ctr;
  }

  /** A newly filled slot starts at counter zero, below everything on its way. */
  lemma SendBackward(c: Crypto, tx: End, rx: End, q: seq<Packet>, st: State, next: nat, i: nat, mine: nat, their: nat)
    requires Half(c, tx, rx, q) && EndOk(c, tx) && st == rx.st.(slots := st.slots, oldMACs := st.oldMACs, ctr := st.ctr)
    requires Touched(rx.st.slots, st.slots, i, mine, their)
    ensures Half(c, tx, rx.(st := st, next := next), q)
  {
    hide Derive, Crypt, Public, Valid;
    var r := rx.(st := st, next := next);
    forall j | 0 <= j < |q| ensures InReach(tx, r, q[j]) && Genuine(c, tx, r, q[j]) {
      assert InReach(tx, rx, q[j]) && Genuine(c, tx, rx, q[j]);
    }
    assert forall j :: 0 <= j < |q| ==> 0 < q[j].m.body.ctr;
  }

  lemma SendKeeps(c: Crypto, s: System, text: seq<byte>)
    requires Inv(c, s) && s.a.next < CTR_LIMIT
    ensures SendStep(c, s, text).Next? && Inv(c, SendStep(c, s, text).sys)
  {
    hide SendStep, Half, Valid, Public, Derive, Crypt, Authentic, InReach, Texts, Touched, Knows;
    assert Knows(c, s.a, s.b) by { KnowsOf(c, s.b, s.a, s.ba); }
    var st, p, i := SendAuthentic(c, s, text);
    SendForward(c, s.a, s.b, s.ab, st, p);
    SendBackward(c, s.b, s.a, s.ba, st, s.a.next + 1, i, Prev(s.a.st.my), s.a.st.their);
    TextsAppend(s.ab, p);
    assert s.gotB + (Texts(s.ab) + [text]) == (s.gotB + Texts(s.ab)) + [text];
  }

  // --------------------------------------------------------------------------
  // Delivery
  // --------------------------------------------------------------------------

  /** The receiver holds the keys that the packet was made with. */
  lemma HeldKeys(c: Crypto, rx: End, tx: End, p: Packet)
    requires EndOk(c, rx) && Knows(c, rx, tx) && InReach(tx, rx, p)
    requires p.m.body.sender == p.s % ID_LIMIT && p.m.body.recipient == p.r % ID_LIMIT
    ensures MyKey(rx.st, p.m.body.recipient) == Some((rx.priv(p.r), Public(c, rx.priv(p.r))))
    ensures TheirKey(rx.st, p.m.body.sender) == Some(Public(c, tx.priv(p.s)))
    ensures p.m.body.recipient == rx.st.my <==> p.r == rx.my
    ensures p.m.body.sender == rx.st.their <==> p.s == rx.their
  {
    hide Valid, Public;
    NumberIds(rx.my);
    NumberIds(rx.their);
    WrapIds(rx.st.my);
    WrapIds(rx.st.their);
    hide Prev, Succ;
    assert p.r == rx.my || p.r == rx.my - 1;
    assert p.s == rx.their || p.s == rx.their - 1;
  }

  /** The next packet is accepted and gives the text that was sent. */
  lemma DeliverAccepted(c: Crypto, s: System) returns (i: nat, slots: seq<Slot>)
    requires Inv(c, s) && s.ba != [] && PairDiffers(c, s.b, s.a, s.ba[0])
    ensures i < 4 && |slots| == 4 && Valid(c, s.a.st.(slots := slots)) && slots[i].used
    ensures Touched(s.a.st.slots, slots, i, s.ba[0].m.body.recipient, s.ba[0].m.body.sender)
    ensures var p := s.ba[0];
            ProcessData(c, s.a.st, p.m, s.a.priv(s.a.my + 1)) ==
            (Turn(c, s.a.st.(slots := slots[i := slots[i].(lastCtr := p.m.body.ctr)]), p.m.body, s.a.priv(s.a.my + 1)),
             Accepted(p.text))
  {
    var p := s.ba[0];
    assert InReach(s.b, s.a, p) && Genuine(c, s.b, s.a, p);
    assert forall j :: 0 <= j < 4 && s.a.st.slots[j].used ==> s.a.st.slots[j].lastCtr < p.m.body.ctr;
    HeldKeys(c, s.a, s.b, p);
    KeysSwap(c, s.b.priv(p.s), s.a.priv(p.r));
    assert Public(c, s.a.priv(p.r)) != Public(c, s.b.priv(p.s));
    hide ProcessData, Derive, Crypt, Public, Valid, Turn;
    i, slots := ProcessGenuine(c, s.a.st, p.m, s.a.priv(s.a.my + 1), p.text);
  }

  /** The receiver after the packet. */
  ghost function Turned(c: Crypto, e: End, p: Packet, st: State): End
    requires c.p > 1
  {
    e.(st := Turn(c, st, p.m.body, e.priv(e.my + 1)), my := if p.r == e.my then e.my + 1 else e.my,
       their := if p.s == e.their then e.their + 1 else e.their)
  }

  lemma TurnedOk(c: Crypto, rx: End, tx: End, p: Packet, st: State)
    requires EndOk(c, rx) && Knows(c, rx, tx) && InReach(tx, rx, p) && Genuine(c, tx, rx, p)
    requires Valid(c, st) && st == rx.st.(slots := st.slots)
    ensures EndOk(c, Turned(c, rx, p, st)) && Knows(c, Turned(c, rx, p, st), tx)
  {
    hide Valid, Public, Derive, Crypt, Turn;
    TurnShape(c, st, p.m.body, rx.priv(rx.my + 1));
    HeldKeys(c, rx, tx, p);
    NumberIds(rx.my);
    NumberIds(rx.their);
  }

  lemma CountersShrink(was: seq<Slot>, now: seq<Slot>, q: seq<Packet>, next: nat)
    requires |was| == |now| == 4 && CountersBelow(was, q, next)
    requires forall j :: 0 <= j < 4 ==> now[j].used ==> now[j] == was[j]
    ensures CountersBelow(now, q, next)
  {
  }

  /** The slot of the first packet takes its counter, which is below all that follow. */
  lemma CountersNext(was: seq<Slot>, slots: seq<Slot>, i: nat, q: seq<Packet>, next: nat)
    requires q != [] && CountersBelow(was, q, next) && Sorted(q) && i < 4 && |slots| == |was| == 4
    requires forall j :: 0 <= j < 4 && j != i ==> slots[j] == was[j]
    requires q[0].m.body.ctr < next
    ensures CountersBelow(slots[i := slots[i].(lastCtr := q[0].m.body.ctr)], q[1..], next)
  {
  }

  /** What follows on the same link is still within reach, genuine and new. */
  lemma DeliverBackward(c: Crypto, tx: End, rx: End, q: seq<Packet>, st: State, i: nat, slots: seq<Slot>)
    requires Half(c, tx, rx, q) && q != [] && EndOk(c, rx) && EndOk(c, tx) && i < 4 && |slots| == 4 && slots[i].used
    requires Touched(rx.st.slots, slots, i, q[0].m.body.recipient, q[0].m.body.sender)
    requires st == rx.st.(slots := slots[i := slots[i].(lastCtr := q[0].m.body.ctr)]) && Valid(c, st)
    requires tx.their <= rx.my
    ensures Half(c, tx, Turned(c, rx, q[0], st), q[1..])
  {
    hide Valid, Public, Derive, Crypt, Turn;
    var p, t := q[0], Turned(c, rx, q[0], st);
    assert InReach(tx, rx, p) && Genuine(c, tx, rx, p);
    TurnedOk(c, rx, tx, p, st);
    TurnShape(c, st, p.m.body, rx.priv(rx.my + 1));
    HeldKeys(c, rx, tx, p);
    forall j | 0 <= j < |q[1..]| ensures InReach(tx, t, q[1..][j]) && Genuine(c, tx, t, q[1..][j]) {
      var o := q[j + 1];
      assert InReach(tx, rx, o) && Genuine(c, tx, rx, o) && p.s <= o.s && p.r <= o.r;
    }
    CountersNext(rx.st.slots, slots, i, q, tx.next);
    CountersShrink(st.slots, t.st.slots, q[1..], tx.next);
  }

  /** The peer still knows our keys, and what we sent before stays within its reach. */
  lemma DeliverForward(c: Crypto, tx: End, rx: End, q: seq<Packet>, p: Packet, st: State)
    requires Half(c, tx, rx, q) && InReach(rx, tx, p) && EndOk(c, tx)
    requires st == tx.st.(slots := st.slots) && Valid(c, st)
    requires p.m.body.sender == p.s % ID_LIMIT && p.m.body.recipient == p.r % ID_LIMIT
    ensures Half(c, Turned(c, tx, p, st), rx, q)
  {
    hide Valid, Public, Derive, Crypt, Turn;
    var t := Turned(c, tx, p, st);
    TurnShape(c, st, p.m.body, tx.priv(tx.my + 1));
    forall j | 0 <= j < |q| ensures InReach(t, rx, q[j]) && Genuine(c, t, rx, q[j]) {
      assert InReach(tx, rx, q[j]) && Genuine(c, tx, rx, q[j]);
    }
  }

  lemma DeliverKeeps(c: Crypto, s: System)
    requires Inv(c, s) && s.ba != [] && PairDiffers(c, s.b, s.a, s.ba[0])
    ensures DeliverStep(c, s).Next? && Inv(c, DeliverStep(c, s).sys)
  {
    hide Inv, ProcessData, Turn, Valid, Touched;
    InvGroup(c, s);
    var p := s.ba[0];
    var i, slots := DeliverAccepted(c, s);
    var st := s.a.st.(slots := slots[i := slots[i].(lastCtr := p.m.body.ctr)]);
    DeliverInv(c, s, i, slots, st);
  }

  lemma DeliverInv(c: Crypto, s: System, i: nat, slots: seq<Slot>, st: State)
    requires Inv(c, s) && s.ba != [] && i < 4 && |slots| == 4 && Valid(c, s.a.st.(slots := slots)) && slots[i].used
    requires Touched(s.a.st.slots, slots, i, s.ba[0].m.body.recipient, s.ba[0].m.body.sender)
    requires st == s.a.st.(slots := slots[i := slots[i].(lastCtr := s.ba[0].m.body.ctr)])
    ensures var p := s.ba[0];
            var e := Turned(c, s.a, p, st);
            && Inv(c, s.(a := e, ba := s.ba[1..], gotA := s.gotA + [p.text])) && e.st.ctr == s.a.st.ctr
            && (p.m.body.recipient == s.a.st.my <==> p.r == s.a.my)
            && (p.m.body.sender == s.a.st.their <==> p.s == s.a.their)
  {
    hide Valid, Public, Derive, Crypt, Turn, Half, Knows, InReach, Genuine, Touched;
    var p := s.ba[0];
    HeadFacts(c, s);
    CounterSet(c, s.a.st, i, slots, p.m.body.ctr);
    TurnedOk(c, s.a, s.b, p, st);
    TurnShape(c, st, p.m.body, s.a.priv(s.a.my + 1));
    HeldKeys(c, s.a, s.b, p);
    DeliverBackward(c, s.b, s.a, s.ba, st, i, slots);
    DeliverForward(c, s.a, s.b, s.ab, p, st);
    assert s.gotA + ([p.text] + Texts(s.ba[1..])) == (s.gotA + [p.text]) + Texts(s.ba[1..]);
  }

  lemma HeadFacts(c: Crypto, s: System)
    requires Inv(c, s) && s.ba != []
    ensures c.p > 1 && InReach(s.b, s.a, s.ba[0]) && Genuine(c, s.b, s.a, s.ba[0])
    ensures s.ba[0].m.body.sender == s.ba[0].s % ID_LIMIT && s.ba[0].m.body.recipient == s.ba[0].r % ID_LIMIT
    ensures Knows(c, s.a, s.b) && s.b.their <= s.a.my
  {
    hide Valid, Public, Derive, Crypt;
  }

  lemma CounterSet(c: Crypto, st: State, i: nat, slots: seq<Slot>, ctr: nat)
    requires i < 4 && |slots| == 4 && Valid(c, st.(slots := slots))
    ensures Valid(c, st.(slots := slots[i := slots[i].(lastCtr := ctr)]))
  {
    SetCounter(c, st.(slots := slots), i, ctr);
  }

  // --------------------------------------------------------------------------
  // The theorems
  // --------------------------------------------------------------------------

  lemma StepKeeps(c: Crypto, s: System, byA: bool, act: Action)
    requires Inv(c, s) && PairsDiffer(c, s) && (act.Send? ==> (if byA then s.a else s.b).next < CTR_LIMIT)
    ensures match Step(c, s, byA, act)
            case Next(t) => Inv(c, t)
            case r => r.Disabled?
  {
    hide Inv, SendStep, DeliverStep, PairDiffers;
    InvGroup(c, s);
    var r := if byA then s else Flip(s);
    assert Inv(c, r) by { InvFlip(c, s); }
    if act.Send? {
      SendKeeps(c, r, act.text);
    } else if r.ba != [] {
      DeliverKeeps(c, r);
    } else {
      NothingToDeliver(c, r);
    }
    var t := Act(c, r, act);
    if t.Next? {
      InvFlip(c, t.sys);
    }
  }

  lemma NothingToDeliver(c: Crypto, s: System)
    requires c.p > 1 && s.ba == []
    ensures DeliverStep(c, s).Disabled?
  {
  }

  /** Along a run an end draws more keys and sends more texts. */
  ghost predicate Later(e: End, sent: seq<seq<byte>>, f: End, sent': seq<seq<byte>>) {
    f.priv == e.priv && e.my <= f.my && |sent| <= |sent'| && f.next == e.next + |sent'| - |sent|
  }

  lemma StepLater(c: Crypto, s: System, byA: bool, act: Action)
    requires c.p > 1 && Step(c, s, byA, act).Next?
    ensures var t := Step(c, s, byA, act).sys; Later(s.a, s.sentA, t.a, t.sentA) && Later(s.b, s.sentB, t.b, t.sentB)
    ensures var t := Step(c, s, byA, act).sys;
            act.Send? ==> if byA then t.a.next == s.a.next + 1 else t.b.next == s.b.next + 1
  {
    hide GenerateData, ProcessData;
  }

  /** The counters of all messages sent so far are above zero: they began where the key exchange left them. */
  predicate Room(s0: System, s: System) {
    s0.a.next + |s.sentA| <= CTR_LIMIT && s0.b.next + |s.sentB| <= CTR_LIMIT
  }

  lemma {:induction false} ReachableInv(c: Crypto, s0: System, s: System, n: nat)
    requires Group(c) && Initial(c, s0) && Reachable(c, s0, s, n) && Room(s0, s)
    ensures Inv(c, s) && Later(s0.a, s0.sentA, s.a, s.sentA) && Later(s0.b, s0.sentB, s.b, s.sentB)
    decreases n
  {
    hide Step, Inv;
    if n == 0 {
      InitialInv(c, s0);
    } else {
      var r: System, byA: bool, act: Action :|
        Reachable(c, s0, r, n - 1) && PairsDiffer(c, r) && Step(c, r, byA, act) == Next(s);
      StepLater(c, r, byA, act);
      ReachableInv(c, s0, r, n - 1);
      StepKeeps(c, r, byA, act);
    }
  }

  /**
   In every run after a key exchange in which fewer than 2^64 messages are sent and no message names two
   equal public values: sending never panics, every message that arrives is accepted, each end is
   at most one key behind the other, and the texts that an end got are the first ones that the other
   sent, in order.
   */
  lemma SessionDelivers(c: Crypto, s0: System, s: System, n: nat, byA: bool, act: Action)
    requires Group(c) && Initial(c, s0) && Reachable(c, s0, s, n) && PairsDiffer(c, s) && Room(s0, s)
    ensures Step(c, s, byA, act).Next? || Step(c, s, byA, act).Disabled?
    ensures s.gotB <= s.sentA && s.gotA <= s.sentB
    ensures s.b.my - 1 <= s.a.their <= s.b.my && s.a.my - 1 <= s.b.their <= s.a.my
    ensures s.ab == [] ==> s.gotB == s.sentA
  {
    ReachableInv(c, s0, s, n);
    StepGoes(c, s, byA, act);
    hide Step, Valid, EndOk, Public;
  }

  lemma StepGoes(c: Crypto, s: System, byA: bool, act: Action)
    requires Inv(c, s) && PairsDiffer(c, s)
    ensures Step(c, s, byA, act).Next? || Step(c, s, byA, act).Disabled?
  {
    hide SendStep, DeliverStep, Valid, Public, PairsDiffer;
    if act.Send? {
      var r := if byA then s else Flip(s);
      assert EndOk(c, r.a) && Knows(c, r.a, r.b);
      var st, p, i := SendAuthentic(c, r, act.text);
    } else {
      StepKeeps(c, s, byA, act);
    }
  }

  // --------------------------------------------------------------------------
  // The bound on messages is needed
  // --------------------------------------------------------------------------

  /**
   The message after the one with the last counter carries counter zero, and its receiver, who has taken
   everything before it, refuses it as a replay.
   */
  lemma CounterWraps(c: Crypto, s: System, text: seq<byte>)
    requires Inv(c, s) && s.ab == [] && s.a.next == CTR_LIMIT
    requires Public(c, s.a.priv(s.a.my - 1)) != Public(c, s.b.priv(s.a.their))
    ensures var r := Step(c, s, true, Action.Send(text));
            && r.Next? && |r.sys.ab| == 1 && r.sys.ab[0].m.body.ctr == 0
            && Step(c, r.sys, false, Deliver) == Refused(Rejected(CounterRegressed))
  {
    hide SendStep, Valid, Public, Derive, Crypt, ProcessData;
    assert Knows(c, s.a, s.b) && Knows(c, s.b, s.a);
    var st, p, i := SendAuthentic(c, s, text);
    HeldKeys(c, s.b, s.a, p);
    KeysSwap(c, s.a.priv(p.s), s.b.priv(p.r));
    ProcessStale(c, s.b.st, p.m, s.b.priv(s.b.my + 1));
  }

  lemma Extend(c: Crypto, s0: System, r: System, n: nat, byA: bool, act: Action, t: System)
    requires c.p > 1 && Reachable(c, s0, r, n) && PairsDiffer(c, r) && Step(c, r, byA, act) == Next(t)
    ensures Reachable(c, s0, t, n + 1)
  {
    hide Step;
  }

  /** One text goes over. */
  lemma SendAndDeliver(c: Crypto, s: System, text: seq<byte>) returns (t: System, u: System)
    requires Inv(c, s) && s.ab == [] && s.a.next < CTR_LIMIT && NeverMeet(c, s.a, s.b)
    ensures Step(c, s, true, Action.Send(text)) == Next(t) && Step(c, t, false, Deliver) == Next(u)
    ensures Inv(c, u) && u.ab == [] && u.a.next == s.a.next + 1 && NeverMeet(c, t.a, t.b) && NeverMeet(c, u.a, u.b)
  {
    hide Inv, SendStep, DeliverStep, PairDiffers;
    InvGroup(c, s);
    SendKeeps(c, s, text);
    t := SendStep(c, s, text).sys;
    SendShape(c, s, text);
    InvFlip(c, t);
    NeverDiffer(c, t);
    DeliverKeeps(c, Flip(t));
    u := Flip(DeliverStep(c, Flip(t)).sys);
    InvFlip(c, Flip(u));
    DeliverShape(c, Flip(t));
  }

  lemma SendShape(c: Crypto, s: System, text: seq<byte>)
    requires c.p > 1 && SendStep(c, s, text).Next?
    ensures var t := SendStep(c, s, text).sys;
            |t.ab| == |s.ab| + 1 && t.a.next == s.a.next + 1 && t.a.priv == s.a.priv && t.b == s.b
  {
    hide GenerateData;
  }

  lemma DeliverShape(c: Crypto, s: System)
    requires c.p > 1 && DeliverStep(c, s).Next? && |s.ba| == 1
    ensures var t := DeliverStep(c, s).sys; t.ba == [] && t.b == s.b && t.a.priv == s.a.priv && t.a.next == s.a.next
  {
    hide ProcessData;
  }

  /** The two ends never draw the same public value. */
  ghost predicate NeverMeet(c: Crypto, a: End, b: End)
    requires c.p > 1
  {
    forall i: nat, j: nat :: Public(c, a.priv(i)) != Public(c, b.priv(j))
  }

  lemma NeverDiffer(c: Crypto, s: System)
    requires c.p > 1 && NeverMeet(c, s.a, s.b)
    ensures PairsDiffer(c, s)
  {
    hide Public;
  }

  /** From every session there is a run to the last counter. */
  lemma {:induction false} CountUp(c: Crypto, s0: System, s: System, n: nat) returns (t: System, m: nat)
    requires Inv(c, s) && s.ab == [] && NeverMeet(c, s.a, s.b) && Reachable(c, s0, s, n)
    ensures Inv(c, t) && t.ab == [] && NeverMeet(c, t.a, t.b) && Reachable(c, s0, t, m) && t.a.next == CTR_LIMIT
    decreases CTR_LIMIT - s.a.next
  {
    hide Inv, Step, Reachable, PairsDiffer;
    InvGroup(c, s);
    NextBound(c, s);
    if s.a.next == CTR_LIMIT {
      t, m := s, n;
    } else {
      var r, u := SendAndDeliver(c, s, []);
      NeverDiffer(c, s);
      NeverDiffer(c, r);
      Extend(c, s0, s, n, true, Action.Send([]), r);
      Extend(c, s0, r, n + 1, false, Deliver, u);
      t, m := CountUp(c, s0, u, n + 2);
    }
  }

  lemma SomeKey(c: Crypto, s: System)
    requires Inv(c, s)
    ensures s.a.my >= 2
  {
  }

  lemma NextBound(c: Crypto, s: System)
    requires Inv(c, s)
    ensures s.a.next <= CTR_LIMIT
  {
  }

  /** So every session can come to a state in which the next message is sent and then refused. */
  lemma WrapReached(c: Crypto, s0: System, text: seq<byte>) returns (s: System, n: nat)
    requires Group(c) && Initial(c, s0) && NeverMeet(c, s0.a, s0.b)
    ensures Reachable(c, s0, s, n) && PairsDiffer(c, s) && Step(c, s, true, Action.Send(text)).Next?
    ensures Step(c, Step(c, s, true, Action.Send(text)).sys, false, Deliver) == Refused(Rejected(CounterRegressed))
  {
    hide Inv, Step, Reachable, PairsDiffer, Public;
    InitialInv(c, s0);
    Begins(c, s0);
    s, n := CountUp(c, s0, s0, 0);
    NeverDiffer(c, s);
    SomeKey(c, s);
    CounterWraps(c, s, text);
  }

  lemma Begins(c: Crypto, s0: System)
    requires c.p > 1
    ensures Reachable(c, s0, s0, 0)
  {
  }
}
