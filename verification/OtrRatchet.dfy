/**
 The Diffie-Hellman ratchet of Off-the-Record messaging, version 2 (otr/otr.go): one end of a
 conversation, its four key slots, and what sending and receiving a data message does to them.

 Key ids are 32-bit numbers that wrap around.  Hash, MAC and key stream are arbitrary functions;
 the Diffie-Hellman exchange is computed.
 */
module OtrRatchet {
  import opened Modular
  import opened Bits
  import opened Wrappers

  const ID_LIMIT: nat := 0x1_0000_0000
  const CTR_LIMIT: nat := 0x1_0000_0000_0000_0000

  /** The part of a data message that the MAC covers. */
  datatype Body = Body(ignore: bool, sender: nat, recipient: nat, y: nat, ctr: nat, text: seq<byte>)

  datatype Message = Message(body: Body, mac: seq<byte>, revealed: seq<seq<byte>>)

  /** The group of the exchange, and the primitives. */
  datatype Crypto = Crypto(
    p: nat,
    g: nat,
    mpi: nat -> seq<byte>,
    hash: seq<byte> -> seq<byte>,
    mac: (seq<byte>, Body) -> seq<byte>,
    stream: (seq<byte>, nat, nat) -> byte)

  ghost predicate Group(c: Crypto) {
    c.p > 1 && c.g > 0
  }

  datatype Keys = Keys(sendAES: seq<byte>, sendMAC: seq<byte>, recvAES: seq<byte>, recvMAC: seq<byte>)

  datatype Slot = Slot(used: bool, their: nat, mine: nat, keys: Keys, lastCtr: nat)

  datatype State = State(
    my: nat, curPriv: nat, curPub: nat, lastPriv: nat, lastPub: nat,
    their: nat, theirCur: nat, theirLast: Option<nat>,
    slots: seq<Slot>, ctr: nat, oldMACs: seq<seq<byte>>)

  datatype Error = NoMoreSlots | UnknownMyKey | UnknownTheirKey | BadMAC | CounterRegressed

  datatype Outcome = Accepted(text: seq<byte>) | Rejected(error: Error) | Ignored

  // --------------------------------------------------------------------------
  // Keys
  // --------------------------------------------------------------------------

  /** big.Int.Exp. */
  function Exp(c: Crypto, b: nat, e: nat): nat
    requires c.p > 1
  {
    Pow(b, e) % c.p
  }

  function Public(c: Crypto, priv: nat): nat
    requires c.p > 1
  {
    Exp(c, c.g, priv)
  }

  function Truncate(s: seq<byte>): seq<byte> {
    if |s| <= 16 then s else s[..16]
  }

  function KeyFor(c: Crypto, prefix: byte, secret: nat): seq<byte> {
    Truncate(c.hash([prefix] + c.mpi(secret)))
  }

  /** The keys that one end computes for a pair of public values. */
  function Derive(c: Crypto, myPriv: nat, myPub: nat, theirPub: nat): Keys
    requires c.p > 1
  {
    var send: byte := if myPub > theirPub then 1 else 2;
    var recv: byte := if myPub > theirPub then 2 else 1;
    var s := Exp(c, theirPub, myPriv);
    var sendAES, recvAES := KeyFor(c, send, s), KeyFor(c, recv, s);
    Keys(sendAES, c.hash(sendAES), recvAES, c.hash(recvAES))
  }

  /** Both ends get the same secret. */
  lemma SharedSecret(c: Crypto, a: nat, b: nat)
    requires Group(c)
    ensures Exp(c, Public(c, a), b) == Exp(c, Public(c, b), a)
  {
    var ga, gb := Pow(c.g, a), Pow(c.g, b);
    CongMod(ga, c.p);
    CongMod(gb, c.p);
    PowCong(ga % c.p, ga, b, c.p);
    PowCong(gb % c.p, gb, a, c.p);
    PowPow(c.g, a, b);
    PowPow(c.g, b, a);
  }

  /** The secret is the generator to the product of the two private values. */
  lemma SecretIs(c: Crypto, a: nat, b: nat)
    requires Group(c)
    ensures Exp(c, Public(c, b), a) == Pow(c.g, a * b) % c.p
  {
    var gb := Pow(c.g, b);
    CongMod(gb, c.p);
    PowCong(gb % c.p, gb, a, c.p);
    PowPow(c.g, b, a);
    assert a * b == b * a;
  }

  /**
   With different public values, what one end sends with the other receives with, and the end with the
   higher one sends under the prefix 1.  With equal ones both ends take themselves for the low end, and
   their sending keys are the same.
   */
  lemma KeysSwap(c: Crypto, a: nat, b: nat)
    requires Group(c)
    ensures var A, B := Public(c, a), Public(c, b);
            var ka, kb := Derive(c, a, A, B), Derive(c, b, B, A);
            if A != B then kb == Keys(ka.recvAES, ka.recvMAC, ka.sendAES, ka.sendMAC) else kb == ka
    ensures Public(c, a) > Public(c, b) ==>
              var ka := Derive(c, a, Public(c, a), Public(c, b));
              var secret := c.mpi(Pow(c.g, a * b) % c.p);
              && Sixteen(c.hash([1] + secret), ka.sendAES) && Sixteen(c.hash([2] + secret), ka.recvAES)
              && ka.sendMAC == c.hash(ka.sendAES) && ka.recvMAC == c.hash(ka.recvAES)
  {
    SharedSecret(c, a, b);
    SecretIs(c, a, b);
  }

  /** The key is made of the first sixteen bytes of the hash, or of all if there are fewer. */
  predicate Sixteen(hash: seq<byte>, key: seq<byte>) {
    key <= hash && (|key| == 16 || (key == hash && |key| < 16))
  }

  /** AES in counter mode: the same operation encrypts and decrypts. */
  function Crypt(c: Crypto, key: seq<byte>, ctr: nat, text: seq<byte>): seq<byte> {
    seq<byte>(|text|, i requires 0 <= i < |text| => XorByte(c.stream(key, ctr, i), text[i]))
  }

  lemma CryptInverse(c: Crypto, key: seq<byte>, ctr: nat, text: seq<byte>)
    ensures Crypt(c, key, ctr, Crypt(c, key, ctr, text)) == text
  {
    var e := Crypt(c, key, ctr, text);
    forall i | 0 <= i < |text| ensures Crypt(c, key, ctr, e)[i] == text[i] {
      XorByteCancel(c.stream(key, ctr, i), text[i]);
    }
  }

  // --------------------------------------------------------------------------
  // Slots
  // --------------------------------------------------------------------------

  function Prev(id: nat): nat {
    (id + ID_LIMIT - 1) % ID_LIMIT
  }

  function Succ(id: nat): nat {
    (id + 1) % ID_LIMIT
  }

  predicate Matches(s: Slot, mine: nat, their: nat) {
    s.used && s.their == their && s.mine == mine
  }

  /** The first slot from i on with these ids, or the number of slots. */
  function Cached(slots: seq<Slot>, mine: nat, their: nat, i: nat): (r: nat)
    requires i <= |slots|
    ensures i <= r <= |slots| && (r < |slots| ==> Matches(slots[r], mine, their))
    ensures forall j :: i <= j < r ==> !Matches(slots[j], mine, their)
    decreases |slots| - i
  {
    if i == |slots| || Matches(slots[i], mine, their) then i else Cached(slots, mine, their, i + 1)
  }

  /** The first free slot from i on, or the number of slots. */
  function Free(slots: seq<Slot>, i: nat): (r: nat)
    requires i <= |slots|
    ensures i <= r <= |slots| && (r < |slots| ==> !slots[r].used)
    ensures forall j :: i <= j < r ==> slots[j].used
    decreases |slots| - i
  {
    if i == |slots| || !slots[i].used then i else Free(slots, i + 1)
  }

  /** The private and the public value for one of our two live key ids. */
  function MyKey(st: State, mine: nat): Option<(nat, nat)> {
    if mine == st.my then Some((st.curPriv, st.curPub))
    else if mine == Prev(st.my) then Some((st.lastPriv, st.lastPub))
    else None
  }

  function TheirKey(st: State, their: nat): Option<nat> {
    if their == st.their then Some(st.theirCur)
    else if their == Prev(st.their) then st.theirLast
    else None
  }

  datatype Calc = At(i: nat, slots: seq<Slot>) | CalcError(error: Error)

  /** The slot for a pair of ids, from the cache or newly computed. */
  function CalcDataKeys(c: Crypto, st: State, mine: nat, their: nat): (r: Calc)
    requires c.p > 1
    ensures r.At? ==> r.i < |r.slots| == |st.slots|
  {
    var hit := Cached(st.slots, mine, their, 0);
    if hit < |st.slots| then At(hit, st.slots) else
    var free := Free(st.slots, 0);
    if free == |st.slots| then CalcError(NoMoreSlots) else
    var my, pub := MyKey(st, mine), TheirKey(st, their);
    if my.None? then CalcError(UnknownMyKey) else
    if pub.None? then CalcError(UnknownTheirKey) else
    At(free, st.slots[free := Slot(true, their, mine, Derive(c, my.value.0, my.value.1, pub.value), 0)])
  }

  function EvictMine(slots: seq<Slot>, id: nat): (r: seq<Slot>)
    ensures |r| == |slots|
    ensures forall i :: 0 <= i < |r| ==> r[i] == if slots[i].mine == id then slots[i].(used := false) else slots[i]
  {
    if slots == [] then []
    else [if slots[0].mine == id then slots[0].(used := false) else slots[0]] + EvictMine(slots[1..], id)
  }

  function EvictTheirs(slots: seq<Slot>, id: nat): (r: seq<Slot>)
    ensures |r| == |slots|
    ensures forall i :: 0 <= i < |r| ==> r[i] == if slots[i].their == id then slots[i].(used := false) else slots[i]
  {
    if slots == [] then []
    else [if slots[0].their == id then slots[0].(used := false) else slots[0]] + EvictTheirs(slots[1..], id)
  }

  /** The receiving MAC keys that an eviction makes public. */
  function MACsOfMine(slots: seq<Slot>, id: nat): seq<seq<byte>> {
    if slots == [] then []
    else (if slots[0].used && slots[0].mine == id then [slots[0].keys.recvMAC] else []) + MACsOfMine(slots[1..], id)
  }

  function MACsOfTheirs(slots: seq<Slot>, id: nat): seq<seq<byte>> {
    if slots == [] then []
    else (if slots[0].used && slots[0].their == id then [slots[0].keys.recvMAC] else []) + MACsOfTheirs(slots[1..], id)
  }

  // --------------------------------------------------------------------------
  // The operations
  // --------------------------------------------------------------------------

  /** rotateDHKeys with a newly drawn private value. */
  function Rotate(c: Crypto, st: State, draw: nat): State
    requires c.p > 1
  {
    st.(my := Succ(st.my), slots := EvictMine(st.slots, Prev(st.my)),
        oldMACs := st.oldMACs + MACsOfMine(st.slots, Prev(st.my)),
        lastPriv := st.curPriv, lastPub := st.curPub, curPriv := draw, curPub := Public(c, draw))
  }

  /** The peer used its newest key: y is the next one. */
  function Advance(st: State, y: nat): State {
    st.(their := Succ(st.their), slots := EvictTheirs(st.slots, Prev(st.their)),
        oldMACs := st.oldMACs + MACsOfTheirs(st.slots, Prev(st.their)),
        theirLast := Some(st.theirCur), theirCur := y)
  }

  /** The key changes that an accepted message causes. */
  function Turn(c: Crypto, st: State, b: Body, draw: nat): State
    requires c.p > 1
  {
    var s := if b.recipient == st.my then Rotate(c, st, draw) else st;
    if b.sender == s.their then Advance(s, b.y) else s
  }

  function ProcessData(c: Crypto, st: State, m: Message, draw: nat): (State, Outcome)
    requires c.p > 1
  {
    var b := m.body;
    match CalcDataKeys(c, st, b.recipient, b.sender)
    case CalcError(e) => (st, if b.ignore then Ignored else Rejected(e))
    case At(i, slots) =>
      var slot := slots[i];
      if c.mac(slot.keys.recvMAC, b) != m.mac then (st.(slots := slots), if b.ignore then Ignored else Rejected(BadMAC))
      else if b.ctr <= slot.lastCtr then (st.(slots := slots), Rejected(CounterRegressed))
      else
        (Turn(c, st.(slots := slots[i := slot.(lastCtr := b.ctr)]), b, draw),
            Accepted(Crypt(c, slot.keys.recvAES, b.ctr, b.text)))
  }

  /** None stands for the panic. */
  function GenerateData(c: Crypto, st: State, text: seq<byte>): Option<(State, Message)>
    requires c.p > 1
  {
    match CalcDataKeys(c, st, Prev(st.my), st.their)
    case CalcError(_) => None
    case At(i, slots) =>
      var keys := slots[i].keys;
      var b := Body(false, Prev(st.my), st.their, st.curPub, st.ctr, Crypt(c, keys.sendAES, st.ctr, text));
      Some((st.(slots := slots, oldMACs := [], ctr := (st.ctr + 1) % CTR_LIMIT),
            Message(b, c.mac(keys.sendMAC, b), st.oldMACs)))
  }

  // --------------------------------------------------------------------------
  // The slot invariant
  // --------------------------------------------------------------------------

  /** A cached slot is what computing it again would give, and its ids are live. */
  ghost predicate SlotOk(c: Crypto, st: State, s: Slot)
    requires c.p > 1
  {
    s.used ==>
      && MyKey(st, s.mine).Some? && TheirKey(st, s.their).Some?
      && s.keys == Derive(c, MyKey(st, s.mine).value.0, MyKey(st, s.mine).value.1, TheirKey(st, s.their).value)
  }

  ghost predicate Distinct(slots: seq<Slot>) {
    forall i, j :: 0 <= i < j < |slots| && slots[i].used ==> !Matches(slots[j], slots[i].mine, slots[i].their)
  }

  ghost predicate Valid(c: Crypto, st: State) {
    && c.p > 1 && |st.slots| == 4 && st.my < ID_LIMIT && st.their < ID_LIMIT
    && Distinct(st.slots)
    && forall i :: 0 <= i < |st.slots| ==> SlotOk(c, st, st.slots[i])
  }

  predicate Live(st: State, mine: nat, their: nat) {
    MyKey(st, mine).Some? && TheirKey(st, their).Some?
  }

  /** Four different slots inside the window of four pairs leave no pair out. */
  lemma Pigeonhole(a: int, b: int, c: int, d: int, x: int)
    requires 0 <= a < 4 && 0 <= b < 4 && 0 <= c < 4 && 0 <= d < 4 && 0 <= x < 4
    requires a != b && a != c && a != d && b != c && b != d && c != d
    ensures x == a || x == b || x == c || x == d
  {
  }

  function Corner(st: State, mine: nat, their: nat): nat {
    (if mine == st.my then 2 else 0) + (if their == st.their then 1 else 0)
  }

  lemma CornerInjective(st: State, m1: nat, t1: nat, m2: nat, t2: nat)
    requires Live(st, m1, t1) && Live(st, m2, t2)
    ensures Corner(st, m1, t1) == Corner(st, m2, t2) <==> m1 == m2 && t1 == t2
  {
  }

  /** Every pair of live ids is in the cache or finds a free slot. */
  lemma LiveFound(c: Crypto, st: State, mine: nat, their: nat)
    requires Valid(c, st) && Live(st, mine, their)
    ensures Cached(st.slots, mine, their, 0) < 4 || Free(st.slots, 0) < 4
  {
    if Free(st.slots, 0) == 4 {
      Full(c, st, mine, their);
    }
  }

  /** When no slot is free, the slots hold the four live pairs. */
  lemma Full(c: Crypto, st: State, mine: nat, their: nat)
    requires Valid(c, st) && Live(st, mine, their) && Free(st.slots, 0) == 4
    ensures Cached(st.slots, mine, their, 0) < 4
  {
    var s := st.slots;
    forall i, j | 0 <= i < j < 4 ensures Corner(st, s[i].mine, s[i].their) != Corner(st, s[j].mine, s[j].their) {
      assert SlotOk(c, st, s[i]) && SlotOk(c, st, s[j]);
      CornerInjective(st, s[i].mine, s[i].their, s[j].mine, s[j].their);
    }
    hide Corner;
    var x := Corner(st, mine, their);
    var k := Hole(seq(4, i requires 0 <= i < 4 => Corner(st, s[i].mine, s[i].their)), x);
    assert SlotOk(c, st, s[k]);
    CornerInjective(st, s[k].mine, s[k].their, mine, their);
    assert Matches(s[k], mine, their);
  }

  lemma Hole(v: seq<nat>, x: nat) returns (k: nat)
    requires |v| == 4 && x < 4 && forall i :: 0 <= i < 4 ==> v[i] < 4
    requires forall i, j :: 0 <= i < j < 4 ==> v[i] != v[j]
    ensures k < 4 && v[k] == x
  {
    Pigeonhole(v[0], v[1], v[2], v[3], x);
    k := if v[0] == x then 0 else if v[1] == x then 1 else if v[2] == x then 2 else 3;
  }

  /**
   What calcDataKeys gives: for live ids the slot of the pair, reused or freshly computed with counter
   zero, nothing else changed; for other ids an error, and the one about slots exactly when all are taken.
   */
  lemma CalcKeeps(c: Crypto, st: State, mine: nat, their: nat)
    requires Valid(c, st)
    ensures var r := CalcDataKeys(c, st, mine, their);
            if Live(st, mine, their) then
              && r.At? && r.i < 4 && Valid(c, st.(slots := r.slots)) && Matches(r.slots[r.i], mine, their)
              && Touched(st.slots, r.slots, r.i, mine, their)
            else r == CalcError(if Free(st.slots, 0) == 4 then NoMoreSlots
                                else if MyKey(st, mine).None? then UnknownMyKey else UnknownTheirKey)
  {
    var hit := Cached(st.slots, mine, their, 0);
    if hit < 4 {
      assert SlotOk(c, st, st.slots[hit]);
      assert st.(slots := st.slots) == st;
    } else if Live(st, mine, their) {
      LiveFound(c, st, mine, their);
      var free := Free(st.slots, 0);
      var my, pub := MyKey(st, mine).value, TheirKey(st, their).value;
      FillSlot(c, st, free, Slot(true, their, mine, Derive(c, my.0, my.1, pub), 0));
    }
  }

  /** Only slot i differs, and only if it was free and the pair was not cached. */
  ghost predicate Touched(was: seq<Slot>, now: seq<Slot>, i: nat, mine: nat, their: nat) {
    && |was| == |now| == 4 && i < 4
    && (forall j :: 0 <= j < 4 && j != i ==> now[j] == was[j])
    && (now[i] != was[i] ==>
          !was[i].used && now[i].lastCtr == 0 && forall j :: 0 <= j < 4 ==> !Matches(was[j], mine, their))
  }

  lemma FillSlot(c: Crypto, st: State, i: nat, s: Slot)
    requires Valid(c, st) && i < 4 && !st.slots[i].used && SlotOk(c, st, s)
    requires forall j :: 0 <= j < 4 ==> !Matches(st.slots[j], s.mine, s.their)
    ensures Valid(c, st.(slots := st.slots[i := s]))
  {
    hide Derive, MyKey, TheirKey;
    var t := st.(slots := st.slots[i := s]);
    forall j | 0 <= j < 4 ensures SlotOk(c, t, t.slots[j]) {
      assert SlotOk(c, st, st.slots[j]);
      SameKeys(c, st, t, t.slots[j]);
    }
  }

  /** Slots do not depend on other slots. */
  lemma SameKeys(c: Crypto, st: State, t: State, s: Slot)
    requires c.p > 1 && t == st.(slots := t.slots, ctr := t.ctr, oldMACs := t.oldMACs) && SlotOk(c, st, s)
    ensures SlotOk(c, t, s)
  {
    hide Derive;
  }

  lemma SetCounter(c: Crypto, st: State, i: nat, ctr: nat)
    requires Valid(c, st) && i < 4
    ensures Valid(c, st.(slots := st.slots[i := st.slots[i].(lastCtr := ctr)]))
  {
    hide Derive, MyKey, TheirKey;
    var t := st.(slots := st.slots[i := st.slots[i].(lastCtr := ctr)]);
    forall j | 0 <= j < 4 ensures SlotOk(c, t, t.slots[j]) {
      assert SlotOk(c, st, st.slots[j]);
      CounterFree(c, st, st.slots[j], ctr);
      SameKeys(c, st, t, t.slots[j]);
    }
  }

  lemma CounterFree(c: Crypto, st: State, s: Slot, ctr: nat)
    requires c.p > 1 && SlotOk(c, st, s)
    ensures SlotOk(c, st, s.(lastCtr := ctr))
  {
    hide Derive;
  }

  /** Rotation retires our older key together with every slot that used it. */
  lemma RotateKeeps(c: Crypto, st: State, draw: nat)
    requires Valid(c, st)
    ensures Valid(c, Rotate(c, st, draw))
  {
    var t := Rotate(c, st, draw);
    forall i | 0 <= i < 4 ensures SlotOk(c, t, t.slots[i]) {
      assert SlotOk(c, st, st.slots[i]);
      hide Derive;
      WrapIds(st.my);
    }
  }

  lemma AdvanceKeeps(c: Crypto, st: State, y: nat)
    requires Valid(c, st)
    ensures Valid(c, Advance(st, y))
  {
    var t := Advance(st, y);
    forall i | 0 <= i < 4 ensures SlotOk(c, t, t.slots[i]) {
      assert SlotOk(c, st, st.slots[i]);
      hide Derive;
      WrapIds(st.their);
    }
  }

  lemma WrapIds(id: nat)
    requires id < ID_LIMIT
    ensures Prev(Succ(id)) == id && Succ(Prev(id)) == id && Prev(id) != id && Succ(id) != id && Prev(id) != Succ(id)
  {
  }

  /** Every message, genuine or not, leaves the slots in order. */
  lemma ProcessKeeps(c: Crypto, st: State, m: Message, draw: nat)
    requires Valid(c, st)
    ensures Valid(c, ProcessData(c, st, m, draw).0)
  {
    var b := m.body;
    CalcKeeps(c, st, b.recipient, b.sender);
    hide Valid, CalcDataKeys, Rotate, Advance;
    var r := CalcDataKeys(c, st, b.recipient, b.sender);
    if r.At? {
      var s1 := st.(slots := r.slots);
      SetCounter(c, s1, r.i, b.ctr);
      var s2 := s1.(slots := s1.slots[r.i := s1.slots[r.i].(lastCtr := b.ctr)]);
      RotateKeeps(c, s2, draw);
      var s3 := if b.recipient == s2.my then Rotate(c, s2, draw) else s2;
      AdvanceKeeps(c, s3, b.y);
    }
  }

  /** Sending never panics. */
  lemma GenerateKeeps(c: Crypto, st: State, text: seq<byte>)
    requires Valid(c, st)
    ensures GenerateData(c, st, text).Some? && Valid(c, GenerateData(c, st, text).value.0)
  {
    CalcKeeps(c, st, Prev(st.my), st.their);
    var r := CalcDataKeys(c, st, Prev(st.my), st.their);
    var s1 := st.(slots := r.slots);
    var t := GenerateData(c, st, text).value.0;
    forall i | 0 <= i < 4 ensures SlotOk(c, t, t.slots[i]) {
      assert SlotOk(c, s1, s1.slots[i]);
      SameKeys(c, s1, t, t.slots[i]);
    }
  }

  /** What a turn changes, apart from taking slots out of use. */
  lemma TurnShape(c: Crypto, st: State, b: Body, draw: nat)
    requires Valid(c, st)
    ensures var t := Turn(c, st, b, draw);
            && Valid(c, t) && t.ctr == st.ctr
            && (if b.recipient == st.my
                then t.my == Succ(st.my) && t.curPriv == draw && t.curPub == Public(c, draw) &&
                     t.lastPriv == st.curPriv && t.lastPub == st.curPub
                else t.my == st.my && t.curPriv == st.curPriv && t.curPub == st.curPub &&
                     t.lastPriv == st.lastPriv && t.lastPub == st.lastPub)
            && (if b.sender == st.their
                then t.their == Succ(st.their) && t.theirCur == b.y && t.theirLast == Some(st.theirCur)
                else t.their == st.their && t.theirCur == st.theirCur && t.theirLast == st.theirLast)
            && |t.slots| == 4 && (forall j :: 0 <= j < 4 ==> t.slots[j].used ==> t.slots[j] == st.slots[j])
  {
    hide SlotOk, Distinct, Public;
    RotateKeeps(c, st, draw);
    var s := if b.recipient == st.my then Rotate(c, st, draw) else st;
    AdvanceKeeps(c, s, b.y);
  }

  /** The message of one end: our older key, their newest, and our next key announced. */
  lemma GenerateShape(c: Crypto, st: State, text: seq<byte>) returns (t: State, m: Message, i: nat)
    requires Valid(c, st)
    ensures GenerateData(c, st, text) == Some((t, m)) && Valid(c, t)
    ensures t == st.(slots := t.slots, oldMACs := [], ctr := (st.ctr + 1) % CTR_LIMIT)
    ensures Touched(st.slots, t.slots, i, Prev(st.my), st.their)
    ensures var k := Derive(c, st.lastPriv, st.lastPub, st.theirCur);
            var b := Body(false, Prev(st.my), st.their, st.curPub, st.ctr, Crypt(c, k.sendAES, st.ctr, text));
            m == Message(b, c.mac(k.sendMAC, b), st.oldMACs)
  {
    CalcKeeps(c, st, Prev(st.my), st.their);
    GenerateKeeps(c, st, text);
    WrapIds(st.my);
    hide Derive, Crypt, CalcDataKeys;
    var r := CalcDataKeys(c, st, Prev(st.my), st.their);
    assert SlotOk(c, st.(slots := r.slots), r.slots[r.i]);
    i := r.i;
    t, m := GenerateData(c, st, text).value.0, GenerateData(c, st, text).value.1;
  }

  /** A genuine message for a live pair of ids is accepted when its counter is new, and then decrypted. */
  lemma ProcessGenuine(c: Crypto, st: State, m: Message, draw: nat, text: seq<byte>) returns (i: nat, slots: seq<Slot>)
    requires Valid(c, st) && Live(st, m.body.recipient, m.body.sender)
    requires var my, pub := MyKey(st, m.body.recipient).value, TheirKey(st, m.body.sender).value;
             var k := Derive(c, my.0, my.1, pub);
             m.mac == c.mac(k.recvMAC, m.body) && m.body.text == Crypt(c, k.recvAES, m.body.ctr, text)
    requires 0 < m.body.ctr
    requires forall j :: 0 <= j < 4 && st.slots[j].used ==> st.slots[j].lastCtr < m.body.ctr
    ensures i < 4 && |slots| == 4 && Valid(c, st.(slots := slots))
    ensures Touched(st.slots, slots, i, m.body.recipient, m.body.sender) && slots[i].used
    ensures ProcessData(c, st, m, draw) ==
            (Turn(c, st.(slots := slots[i := slots[i].(lastCtr := m.body.ctr)]), m.body, draw), Accepted(text))
  {
    var b := m.body;
    CalcKeeps(c, st, b.recipient, b.sender);
    hide Derive, CalcDataKeys, Turn;
    var r := CalcDataKeys(c, st, b.recipient, b.sender);
    assert SlotOk(c, st.(slots := r.slots), r.slots[r.i]);
    i, slots := r.i, r.slots;
    CryptInverse(c, slots[i].keys.recvAES, b.ctr, text);
    hide Crypt;
  }

  /** A genuine message for live ids whose counter is zero is refused as a replay. */
  lemma ProcessStale(c: Crypto, st: State, m: Message, draw: nat)
    requires Valid(c, st) && Live(st, m.body.recipient, m.body.sender) && m.body.ctr == 0
    requires var my, pub := MyKey(st, m.body.recipient).value, TheirKey(st, m.body.sender).value;
             m.mac == c.mac(Derive(c, my.0, my.1, pub).recvMAC, m.body)
    ensures ProcessData(c, st, m, draw).1 == Rejected(CounterRegressed)
  {
    hide Derive, CalcDataKeys, Turn, Crypt;
    CalcKeeps(c, st, m.body.recipient, m.body.sender);
    var r := CalcDataKeys(c, st, m.body.recipient, m.body.sender);
    assert SlotOk(c, st.(slots := r.slots), r.slots[r.i]);
  }

  // --------------------------------------------------------------------------
  // What is accepted, and what is published
  // --------------------------------------------------------------------------

  /** The MAC of the message is right under the receiving key of the live pair of ids that it names. */
  ghost predicate Verified(c: Crypto, st: State, m: Message)
    requires c.p > 1
  {
    && Live(st, m.body.recipient, m.body.sender)
    && m.mac == c.mac(PairKeys(c, st, m.body.recipient, m.body.sender).recvMAC, m.body)
  }

  ghost function PairKeys(c: Crypto, st: State, mine: nat, their: nat): Keys
    requires c.p > 1 && Live(st, mine, their)
  {
    Derive(c, MyKey(st, mine).value.0, MyKey(st, mine).value.1, TheirKey(st, their).value)
  }

  /** The counter is above zero and above everything that the slot of the pair remembers. */
  ghost predicate Fresh(st: State, b: Body) {
    0 < b.ctr && forall i :: 0 <= i < |st.slots| && Matches(st.slots[i], b.recipient, b.sender) ==>
                   st.slots[i].lastCtr < b.ctr
  }

  /** The used slots keep their pair, keys and counter; a slot that changes was free. */
  ghost predicate Undisturbed(was: seq<Slot>, now: seq<Slot>) {
    |was| == |now| == 4 && forall i :: 0 <= i < 4 && was[i].used ==> now[i] == was[i]
  }

  /**
   A message is accepted exactly if its MAC is right for a live pair of ids and its counter is new, and
   then the text is its decryption under the receiving key of that pair.  The flag "ignore unreadable"
   hides a wrong pair or MAC and nothing else.  Without acceptance ids, keys and counters stay.
   */
  lemma AcceptedExactly(c: Crypto, st: State, m: Message, draw: nat)
    requires Valid(c, st)
    ensures var r := ProcessData(c, st, m, draw);
            var b := m.body;
            && (r.1.Accepted? <==> Verified(c, st, m) && Fresh(st, b))
            && (r.1.Accepted? ==>
                  r.1.text == Crypt(c, PairKeys(c, st, b.recipient, b.sender).recvAES, b.ctr, b.text))
            && (r.1 == Rejected(CounterRegressed) <==> Verified(c, st, m) && !Fresh(st, b))
            && (r.1.Ignored? <==> b.ignore && !Verified(c, st, m))
            && (r.1 == Rejected(BadMAC) <==> !b.ignore && !Verified(c, st, m) && Live(st, b.recipient, b.sender))
            && (!r.1.Accepted? ==> r.0 == st.(slots := r.0.slots) && Undisturbed(st.slots, r.0.slots))
  {
    var b := m.body;
    CalcKeeps(c, st, b.recipient, b.sender);
    hide Derive, CalcDataKeys, Turn, Crypt;
    var r := CalcDataKeys(c, st, b.recipient, b.sender);
    if r.At? {
      assert SlotOk(c, st.(slots := r.slots), r.slots[r.i]);
      PairSlot(st.slots, r.slots, r.i, b);
    }
  }

  /** The slot that calcDataKeys finds stands for what the state remembers of the pair. */
  lemma PairSlot(was: seq<Slot>, now: seq<Slot>, i: nat, b: Body)
    requires Touched(was, now, i, b.recipient, b.sender) && Matches(now[i], b.recipient, b.sender) && Distinct(now)
    ensures now[i].lastCtr < b.ctr <==>
            0 < b.ctr && forall k :: 0 <= k < 4 && Matches(was[k], b.recipient, b.sender) ==> was[k].lastCtr < b.ctr
  {
    forall k | 0 <= k < 4 && Matches(was[k], b.recipient, b.sender) ensures k == i {
      assert now[k] == was[k];
    }
  }

  lemma {:induction false} MineMACs(slots: seq<Slot>, id: nat, key: seq<byte>)
    ensures key in MACsOfMine(slots, id) <==>
            exists i :: 0 <= i < |slots| && slots[i].used && slots[i].mine == id && slots[i].keys.recvMAC == key
  {
    if slots != [] {
      MineMACs(slots[1..], id, key);
      assert slots == [slots[0]] + slots[1..];
    }
  }

  lemma {:induction false} TheirsMACs(slots: seq<Slot>, id: nat, key: seq<byte>)
    ensures key in MACsOfTheirs(slots, id) <==>
            exists i :: 0 <= i < |slots| && slots[i].used && slots[i].their == id && slots[i].keys.recvMAC == key
  {
    if slots != [] {
      TheirsMACs(slots[1..], id, key);
      assert slots == [slots[0]] + slots[1..];
    }
  }

  /** The receiving MAC key of a pair that was live and is not any more. */
  ghost predicate Retired(c: Crypto, st: State, t: State, key: seq<byte>)
    requires c.p > 1
  {
    exists mine, their :: Live(st, mine, their) && !Live(t, mine, their)
                          && key == PairKeys(c, st, mine, their).recvMAC
  }

  /** The keys put up for publication are those of the slots taken out of use, and no pair uses them again. */
  ghost predicate Publishes(c: Crypto, st: State, t: State)
    requires c.p > 1 && |st.slots| == |t.slots|
  {
    && st.oldMACs <= t.oldMACs
    && (forall key :: key in t.oldMACs[|st.oldMACs|..] ==> Retired(c, st, t, key))
    && (forall i :: 0 <= i < |st.slots| && st.slots[i].used && !t.slots[i].used ==>
          st.slots[i].keys.recvMAC in t.oldMACs[|st.oldMACs|..])
  }

  /** The slot goes out of use when a message turns the keys: its older key, ours or theirs, is retired. */
  predicate Dropped(st: State, b: Body, s: Slot) {
    s.used && ((b.recipient == st.my && s.mine == Prev(st.my)) || (b.sender == st.their && s.their == Prev(st.their)))
  }

  function TurnMACs(st: State, b: Body): seq<seq<byte>> {
    var mine, left := if b.recipient == st.my then MACsOfMine(st.slots, Prev(st.my)) else [],
                      if b.recipient == st.my then EvictMine(st.slots, Prev(st.my)) else st.slots;
    mine + if b.sender == st.their then MACsOfTheirs(left, Prev(st.their)) else []
  }

  lemma TurnMACsAre(st: State, b: Body, key: seq<byte>)
    ensures key in TurnMACs(st, b) <==>
            exists i :: 0 <= i < |st.slots| && Dropped(st, b, st.slots[i]) && st.slots[i].keys.recvMAC == key
  {
    hide Prev;
    var left := if b.recipient == st.my then EvictMine(st.slots, Prev(st.my)) else st.slots;
    MineMACs(st.slots, Prev(st.my), key);
    TheirsMACs(left, Prev(st.their), key);
  }

  lemma TurnDrops(c: Crypto, st: State, b: Body, draw: nat)
    requires c.p > 1
    ensures var t := Turn(c, st, b, draw);
            && t.oldMACs == st.oldMACs + TurnMACs(st, b) && |t.slots| == |st.slots|
            && (forall i :: 0 <= i < |st.slots| && st.slots[i].used ==>
                  t.slots[i].used == !Dropped(st, b, st.slots[i]))
  {
    hide Prev, Succ, Public;
  }

  lemma DroppedRetired(c: Crypto, st: State, b: Body, draw: nat, s: Slot)
    requires Valid(c, st) && SlotOk(c, st, s) && Dropped(st, b, s)
    ensures Retired(c, st, Turn(c, st, b, draw), s.keys.recvMAC)
  {
    hide Derive, Public, Distinct, Turn;
    TurnShape(c, st, b, draw);
    WrapIds(st.my);
    WrapIds(st.their);
    assert Live(st, s.mine, s.their) && !Live(Turn(c, st, b, draw), s.mine, s.their);
  }

  lemma TurnPublishes(c: Crypto, st: State, b: Body, draw: nat)
    requires Valid(c, st)
    ensures |Turn(c, st, b, draw).slots| == 4 && Publishes(c, st, Turn(c, st, b, draw))
  {
    hide Turn, TurnMACs, SlotOk, Distinct, Dropped, Retired;
    var t := Turn(c, st, b, draw);
    TurnDrops(c, st, b, draw);
    assert t.oldMACs[|st.oldMACs|..] == TurnMACs(st, b);
    forall key | key in TurnMACs(st, b) ensures Retired(c, st, t, key) {
      TurnMACsAre(st, b, key);
      var i :| 0 <= i < 4 && Dropped(st, b, st.slots[i]) && st.slots[i].keys.recvMAC == key;
      DroppedRetired(c, st, b, draw, st.slots[i]);
    }
    forall i | 0 <= i < 4 && st.slots[i].used && !t.slots[i].used ensures st.slots[i].keys.recvMAC in TurnMACs(st, b) {
      TurnMACsAre(st, b, st.slots[i].keys.recvMAC);
    }
  }

  /** Filling a free slot or setting a counter takes nothing out of use. */
  lemma PublishesFrom(c: Crypto, st: State, s: State, t: State)
    requires c.p > 1 && s == st.(slots := s.slots) && |st.slots| == |s.slots| == |t.slots| && Publishes(c, s, t)
    requires forall i :: 0 <= i < |st.slots| && st.slots[i].used ==>
               s.slots[i].used && s.slots[i].keys == st.slots[i].keys
    ensures Publishes(c, st, t)
  {
    hide Derive;
    forall key | key in t.oldMACs[|st.oldMACs|..] ensures Retired(c, st, t, key) {
      var mine, their :| Live(s, mine, their) && !Live(t, mine, their)
                         && key == PairKeys(c, s, mine, their).recvMAC;
      assert Live(st, mine, their) && PairKeys(c, st, mine, their) == PairKeys(c, s, mine, their);
    }
  }

  /** What a received message makes public: receiving keys of pairs that are live no more, and all of those in use. */
  lemma Published(c: Crypto, st: State, m: Message, draw: nat)
    requires Valid(c, st)
    ensures var t := ProcessData(c, st, m, draw).0;
            |t.slots| == 4 && Publishes(c, st, t)
  {
    var b := m.body;
    CalcKeeps(c, st, b.recipient, b.sender);
    hide Derive, CalcDataKeys, Turn, SlotOk, Distinct, Publishes, Crypt;
    var r := CalcDataKeys(c, st, b.recipient, b.sender);
    Unpublished(c, st);
    if r.At? {
      var s1 := st.(slots := r.slots);
      SetCounter(c, s1, r.i, b.ctr);
      var s2 := s1.(slots := s1.slots[r.i := s1.slots[r.i].(lastCtr := b.ctr)]);
      Unpublished(c, s1);
      PublishesFrom(c, st, s1, s1);
      TurnPublishes(c, s2, b, draw);
      PublishesFrom(c, st, s2, Turn(c, s2, b, draw));
    }
  }

  lemma Unpublished(c: Crypto, st: State)
    requires c.p > 1
    ensures Publishes(c, st, st)
  {
  }

  // --------------------------------------------------------------------------
  // "No more key slots" can be reached, by ids outside the window
  // --------------------------------------------------------------------------

  const MAC_SIZE: nat := 20

  /** Authenticators have the length that the wire format gives them. */
  ghost predicate MacSized(c: Crypto) {
    forall key, b :: |c.mac(key, b)| == MAC_SIZE
  }

  /** Another authenticator of the same length. */
  function Altered(mac: seq<byte>): (r: seq<byte>)
    ensures |r| == |mac| && (mac != [] ==> r != mac)
  {
    if mac == [] then [] else
    var b: byte := if mac[0] == 0 then 1 else 0;
    assert mac[0 := b][0] != mac[0];
    mac[0 := b]
  }

  /** A message that names a pair of ids and carries no valid MAC. */
  function Probe(c: Crypto, st: State, mine: nat, their: nat): Message
    requires Valid(c, st)
  {
    CalcKeeps(c, st, mine, their);
    var b := Body(false, their, mine, 0, 1, []);
    var r := CalcDataKeys(c, st, mine, their);
    Message(b, if r.At? then Altered(c.mac(r.slots[r.i].keys.recvMAC, b)) else c.mac([], b), [])
  }

  /** An unauthenticated message fills the slot of the pair it names and leaves the rest. */
  lemma ProbeCaches(c: Crypto, st: State, mine: nat, their: nat, draw: nat) returns (t: State)
    requires Valid(c, st) && Live(st, mine, their) && MacSized(c)
    ensures |Probe(c, st, mine, their).mac| == MAC_SIZE
    ensures t == ProcessData(c, st, Probe(c, st, mine, their), draw).0 && Valid(c, t)
    ensures t == st.(slots := t.slots)
    ensures Cached(t.slots, mine, their, 0) < 4
    ensures forall m, h :: Cached(st.slots, m, h, 0) < 4 ==> Cached(t.slots, m, h, 0) < 4
  {
    var p := Probe(c, st, mine, their);
    ProcessKeeps(c, st, p, draw);
    CalcKeeps(c, st, mine, their);
    var r := CalcDataKeys(c, st, mine, their);
    t := ProcessData(c, st, p, draw).0;
    var mac := c.mac(r.slots[r.i].keys.recvMAC, p.body);
    assert Altered(mac) != mac;
    assert t == st.(slots := r.slots);
    assert Matches(t.slots[r.i], mine, their);
    forall m, h | Cached(st.slots, m, h, 0) < 4 ensures Cached(t.slots, m, h, 0) < 4 {
      var k := Cached(st.slots, m, h, 0);
      assert Matches(t.slots[k], m, h);
    }
  }

  /** With the four live pairs cached no slot is free. */
  lemma AllCached(c: Crypto, st: State)
    requires Valid(c, st)
    requires Cached(st.slots, st.my, st.their, 0) < 4 && Cached(st.slots, st.my, Prev(st.their), 0) < 4
    requires Cached(st.slots, Prev(st.my), st.their, 0) < 4 && Cached(st.slots, Prev(st.my), Prev(st.their), 0) < 4
    ensures Free(st.slots, 0) == 4
  {
    hide SlotOk, Distinct;
    var a, b := st.my, st.their;
    var v := [Cached(st.slots, a, b, 0), Cached(st.slots, a, Prev(b), 0), Cached(st.slots, Prev(a), b, 0),
              Cached(st.slots, Prev(a), Prev(b), 0)];
    WrapIds(a);
    WrapIds(b);
    var k := Free(st.slots, 0);
    if k < 4 {
      var j := Hole(v, k);
      assert false;
    }
  }

  predicate Sized(ms: seq<Message>) {
    forall i :: 0 <= i < |ms| ==> |ms[i].mac| == MAC_SIZE
  }

  /** Messages received one after the other. */
  function Fed(c: Crypto, st: State, ms: seq<Message>, draw: nat): State
    requires c.p > 1
    decreases ms
  {
    if ms == [] then st else ProcessData(c, Fed(c, st, ms[..|ms| - 1], draw), ms[|ms| - 1], draw).0
  }

  lemma FedNone(c: Crypto, st: State, draw: nat)
    requires c.p > 1
    ensures Fed(c, st, [], draw) == st
  {
  }

  lemma FedNext(c: Crypto, st: State, ms: seq<Message>, m: Message, draw: nat)
    requires c.p > 1
    ensures Fed(c, st, ms + [m], draw) == ProcessData(c, Fed(c, st, ms, draw), m, draw).0
  {
    assert (ms + [m])[..|ms|] == ms;
  }

  /**
   Any session whose peer has rotated once can be brought, by four unauthenticated messages, to
   a state in which a message with ids outside the window gets "no more key slots".
   */
  lemma SlotsRunOut(c: Crypto, st: State, draw: nat, mine: nat, their: nat)
    requires Valid(c, st) && st.theirLast.Some? && !Live(st, mine, their) && MacSized(c)
    ensures exists ms: seq<Message> :: |ms| == 4 && Sized(ms) &&
              CalcDataKeys(c, Fed(c, st, ms, draw), mine, their) == CalcError(NoMoreSlots)
  {
    hide ProcessData, Cached, Fed, SlotOk, Distinct, Free, CalcDataKeys;
    var ms, t := [], st;
    assert t == Fed(c, st, ms, draw) by { FedNone(c, st, draw); }
    ms, t := ProbeNext(c, st, ms, t, draw, st.my, st.their);
    ms, t := ProbeNext(c, st, ms, t, draw, st.my, Prev(st.their));
    ms, t := ProbeNext(c, st, ms, t, draw, Prev(st.my), st.their);
    ms, t := ProbeNext(c, st, ms, t, draw, Prev(st.my), Prev(st.their));
    AllCached(c, t);
    CalcKeeps(c, t, mine, their);
    assert |ms| == 4 && Sized(ms) && CalcDataKeys(c, Fed(c, st, ms, draw), mine, their) == CalcError(NoMoreSlots);
  }

  lemma ProbeNext(c: Crypto, st: State, ms: seq<Message>, s: State, draw: nat, mine: nat, their: nat)
    returns (probes: seq<Message>, t: State)
    requires Valid(c, st) && s == Fed(c, st, ms, draw) && Valid(c, s) && s == st.(slots := s.slots)
             && Live(st, mine, their)
    requires MacSized(c) && Sized(ms)
    ensures Sized(probes)
    ensures t == Fed(c, st, probes, draw) && Valid(c, t) && t == st.(slots := t.slots) && |probes| == |ms| + 1
    ensures Cached(t.slots, mine, their, 0) < 4
    ensures forall m, h :: Cached(s.slots, m, h, 0) < 4 ==> Cached(t.slots, m, h, 0) < 4
  {
    assert Live(s, mine, their);
    hide ProcessData, Fed, Valid, Cached;
    t := ProbeCaches(c, s, mine, their, draw);
    probes := ms + [Probe(c, s, mine, their)];
    FedNext(c, st, ms, Probe(c, s, mine, their), draw);
  }

  // --------------------------------------------------------------------------
  // One end in a session, whatever arrives
  // --------------------------------------------------------------------------

  /** What happens at one end: it sends, or a message arrives, genuine, replayed, reordered or forged. */
  datatype Event = Send(text: seq<byte>) | Receive(m: Message, draw: nat)

  /** An accepted message, with key ids counted without wrap-around. */
  datatype Entry = Entry(mine: nat, their: nat, ctr: nat)

  /** my and their count the keys of the session without wrap-around; log lists the accepted messages. */
  datatype Side = Side(st: State, my: nat, their: nat, log: seq<Entry>)

  /** The session number of a live id. */
  function Number(id: nat, current: nat, number: nat): int {
    if id == current then number else number - 1
  }

  function Happens(c: Crypto, s: Side, e: Event): Side
    requires Valid(c, s.st) && s.my > 0 && s.their > 0
  {
    match e
    case Send(text) =>
      GenerateKeeps(c, s.st, text);
      s.(st := GenerateData(c, s.st, text).value.0)
    case Receive(m, draw) =>
      var r := ProcessData(c, s.st, m, draw);
      if !r.1.Accepted? then s.(st := r.0) else
      var b := m.body;
      Side(r.0, if b.recipient == s.st.my then s.my + 1 else s.my,
           if b.sender == s.st.their then s.their + 1 else s.their,
           s.log + [Entry(Number(b.recipient, s.st.my, s.my), Number(b.sender, s.st.their, s.their), b.ctr)])
  }

  /** A logged message is out of the window for good, or its slot remembers at least its counter. */
  ghost predicate Remembered(s: Side, e: Entry) {
    && e.mine <= s.my && e.their <= s.their
    && (e.mine + 1 < s.my || e.their + 1 < s.their || exists i :: Recalls(s.st.slots, i, e))
  }

  ghost predicate Recalls(slots: seq<Slot>, i: nat, e: Entry) {
    i < |slots| && Matches(slots[i], e.mine % ID_LIMIT, e.their % ID_LIMIT) && e.ctr <= slots[i].lastCtr
  }

  ghost predicate SideOk(c: Crypto, s: Side) {
    && Valid(c, s.st) && s.my > 0 && s.their > 0
    && s.st.my == s.my % ID_LIMIT && s.st.their == s.their % ID_LIMIT
    && (forall e :: e in s.log ==> Remembered(s, e))
    && (forall i, j :: 0 <= i < j < |s.log| ==> s.log[i] != s.log[j])
  }

  lemma NumberIds(n: nat)
    requires n > 0
    ensures Prev(n % ID_LIMIT) == (n - 1) % ID_LIMIT && Succ(n % ID_LIMIT) == (n + 1) % ID_LIMIT
  {
  }

  lemma TouchRecalls(was: seq<Slot>, now: seq<Slot>, i: nat, mine: nat, their: nat, k: nat, e: Entry)
    requires Touched(was, now, i, mine, their) && Recalls(was, k, e)
    ensures Recalls(now, k, e)
  {
  }

  /** Filling a slot forgets nothing. */
  lemma TouchRemembers(c: Crypto, s: Side, t: Side, i: nat, mine: nat, their: nat)
    requires SideOk(c, s) && t == s.(st := t.st) && Valid(c, t.st) && t.st.my == s.st.my && t.st.their == s.st.their
    requires Touched(s.st.slots, t.st.slots, i, mine, their)
    ensures SideOk(c, t)
  {
    hide Valid;
    forall e | e in t.log ensures Remembered(t, e) {
      assert Remembered(s, e);
      if k :| Recalls(s.st.slots, k, e) {
        TouchRecalls(s.st.slots, t.st.slots, i, mine, their, k, e);
      }
    }
  }

  /** The counter of a slot only grows. */
  lemma CounterRemembers(c: Crypto, s: Side, i: nat, ctr: nat)
    requires SideOk(c, s) && i < 4 && s.st.slots[i].lastCtr <= ctr
    ensures SideOk(c, s.(st := s.st.(slots := s.st.slots[i := s.st.slots[i].(lastCtr := ctr)])))
  {
    SetCounter(c, s.st, i, ctr);
    hide SlotOk, Distinct;
    var t := s.(st := s.st.(slots := s.st.slots[i := s.st.slots[i].(lastCtr := ctr)]));
    forall e | e in t.log ensures Remembered(t, e) {
      assert Remembered(s, e);
      if k :| Recalls(s.st.slots, k, e) {
        assert Recalls(t.st.slots, k, e);
      }
    }
  }

  lemma RotateRemembers(c: Crypto, s: Side, draw: nat)
    requires SideOk(c, s)
    ensures SideOk(c, s.(st := Rotate(c, s.st, draw), my := s.my + 1))
  {
    RotateKeeps(c, s.st, draw);
    NumberIds(s.my);
    WrapIds(s.st.my);
    hide SlotOk, Distinct, Prev, Succ;
    var t := s.(st := Rotate(c, s.st, draw), my := s.my + 1);
    forall e | e in t.log ensures Remembered(t, e) {
      assert Remembered(s, e);
      if e.mine == s.my && e.their + 1 >= s.their {
        var k :| Recalls(s.st.slots, k, e);
        assert Recalls(t.st.slots, k, e);
      }
    }
  }

  lemma AdvanceRemembers(c: Crypto, s: Side, y: nat)
    requires SideOk(c, s)
    ensures SideOk(c, s.(st := Advance(s.st, y), their := s.their + 1))
  {
    AdvanceKeeps(c, s.st, y);
    NumberIds(s.their);
    WrapIds(s.st.their);
    hide SlotOk, Distinct, Prev, Succ;
    var t := s.(st := Advance(s.st, y), their := s.their + 1);
    forall e | e in t.log ensures Remembered(t, e) {
      assert Remembered(s, e);
      if e.their == s.their && e.mine + 1 >= s.my {
        var k :| Recalls(s.st.slots, k, e);
        assert Recalls(t.st.slots, k, e);
      }
    }
  }

  /** A counter above the one of its slot was never accepted before. */
  lemma NotLogged(c: Crypto, s: Side, i: nat, e: Entry)
    requires SideOk(c, s) && i < 4 && Matches(s.st.slots[i], e.mine % ID_LIMIT, e.their % ID_LIMIT)
    requires s.st.slots[i].lastCtr < e.ctr && e.mine + 1 >= s.my && e.their + 1 >= s.their
    ensures e !in s.log
  {
    hide SlotOk;
    assert e in s.log ==> Remembered(s, e);
  }

  lemma Logged(c: Crypto, s: Side, i: nat, e: Entry)
    requires SideOk(c, s) && e !in s.log && Recalls(s.st.slots, i, e) && e.mine <= s.my && e.their <= s.their
    ensures SideOk(c, s.(log := s.log + [e]))
  {
    hide Valid;
    var t := s.(log := s.log + [e]);
    assert Recalls(t.st.slots, i, e);
    forall f | f in t.log ensures Remembered(t, f) {
      assert f != e ==> f in s.log && Remembered(s, f);
      if k :| Recalls(s.st.slots, k, f) {
        assert Recalls(t.st.slots, k, f);
      }
    }
  }

  lemma NumberMatches(st: nat, number: nat, id: nat)
    requires number > 0 && st == number % ID_LIMIT && (id == st || id == Prev(st))
    ensures Number(id, st, number) >= 0 && Number(id, st, number) % ID_LIMIT == id
    ensures number - 1 <= Number(id, st, number) <= number
  {
    NumberIds(number);
  }

  lemma TurnRemembers(c: Crypto, s: Side, b: Body, draw: nat)
    requires SideOk(c, s)
    ensures SideOk(c, Side(Turn(c, s.st, b, draw), if b.recipient == s.st.my then s.my + 1 else s.my,
                           if b.sender == s.st.their then s.their + 1 else s.their, s.log))
  {
    RotateRemembers(c, s, draw);
    var t := if b.recipient == s.st.my then s.(st := Rotate(c, s.st, draw), my := s.my + 1) else s;
    AdvanceRemembers(c, t, b.y);
    assert t.st.their == s.st.their && t.their == s.their;
    hide SideOk, Rotate, Advance;
  }

  /** The state after the slot took the counter, with the message in the log. */
  function Noted(s: Side, i: nat, slots: seq<Slot>, e: Entry): Side
    requires i < |slots|
  {
    s.(st := s.st.(slots := slots[i := slots[i].(lastCtr := e.ctr)]), log := s.log + [e])
  }

  lemma NoteRemembers(c: Crypto, s: Side, i: nat, slots: seq<Slot>, e: Entry)
    requires SideOk(c, s) && i < 4 && Valid(c, s.st.(slots := slots))
    requires Touched(s.st.slots, slots, i, e.mine % ID_LIMIT, e.their % ID_LIMIT)
    requires Matches(slots[i], e.mine % ID_LIMIT, e.their % ID_LIMIT) && slots[i].lastCtr < e.ctr
    requires s.my - 1 <= e.mine <= s.my && s.their - 1 <= e.their <= s.their
    ensures SideOk(c, Noted(s, i, slots, e))
  {
    var s1 := s.(st := s.st.(slots := slots));
    TouchRemembers(c, s, s1, i, e.mine % ID_LIMIT, e.their % ID_LIMIT);
    NotLogged(c, s1, i, e);
    CounterRemembers(c, s1, i, e.ctr);
    var s2 := s1.(st := s1.st.(slots := slots[i := slots[i].(lastCtr := e.ctr)]));
    hide SideOk, Valid, Touched;
    Logged(c, s2, i, e);
  }

  lemma AcceptRemembers(c: Crypto, s: Side, m: Message, draw: nat)
    requires SideOk(c, s) && ProcessData(c, s.st, m, draw).1.Accepted?
    ensures SideOk(c, Happens(c, s, Receive(m, draw)))
  {
    var b := m.body;
    CalcKeeps(c, s.st, b.recipient, b.sender);
    var r := CalcDataKeys(c, s.st, b.recipient, b.sender);
    NumberMatches(s.st.my, s.my, b.recipient);
    NumberMatches(s.st.their, s.their, b.sender);
    var e := Entry(Number(b.recipient, s.st.my, s.my), Number(b.sender, s.st.their, s.their), b.ctr);
    hide Valid, CalcDataKeys, Turn, Remembered, Number, Crypt, Live, Matches, Touched;
    NoteRemembers(c, s, r.i, r.slots, e);
    TurnRemembers(c, Noted(s, r.i, r.slots, e), b, draw);
  }

  lemma HappensKeeps(c: Crypto, s: Side, e: Event)
    requires SideOk(c, s)
    ensures SideOk(c, Happens(c, s, e))
  {
    match e
    case Send(text) =>
      GenerateKeeps(c, s.st, text);
      CalcKeeps(c, s.st, Prev(s.st.my), s.st.their);
      var r := CalcDataKeys(c, s.st, Prev(s.st.my), s.st.their);
      hide SlotOk, Distinct;
      TouchRemembers(c, s, Happens(c, s, e), r.i, Prev(s.st.my), s.st.their);
    case Receive(m, draw) =>
      if ProcessData(c, s.st, m, draw).1.Accepted? {
        AcceptRemembers(c, s, m, draw);
      } else {
        RefusedRemembers(c, s, m, draw);
      }
  }

  lemma RefusedRemembers(c: Crypto, s: Side, m: Message, draw: nat)
    requires SideOk(c, s) && !ProcessData(c, s.st, m, draw).1.Accepted?
    ensures SideOk(c, Happens(c, s, Receive(m, draw)))
  {
    var b := m.body;
    CalcKeeps(c, s.st, b.recipient, b.sender);
    hide SlotOk, Distinct, Turn, CalcDataKeys;
    var r := CalcDataKeys(c, s.st, b.recipient, b.sender);
    if r.At? {
      TouchRemembers(c, s, s.(st := s.st.(slots := r.slots)), r.i, b.recipient, b.sender);
    }
  }

  /** The session right after the key exchange: two keys of ours, one of theirs, nothing cached. */
  function Begin(c: Crypto, firstPriv: nat, secondPriv: nat, theirPub: nat, ctr: nat, macs: seq<seq<byte>>): State
    requires c.p > 1
  {
    State(2, secondPriv, Public(c, secondPriv), firstPriv, Public(c, firstPriv), 1, theirPub, None,
          seq(4, _ => Slot(false, 0, 0, Keys([], [], [], []), 0)), ctr, macs)
  }

  ghost function Run(c: Crypto, s: Side, events: seq<Event>): Side
    requires SideOk(c, s)
    ensures SideOk(c, Run(c, s, events))
    decreases events
  {
    if events == [] then s else
    var r := Run(c, s, events[..|events| - 1]);
    HappensKeeps(c, r, events[|events| - 1]);
    Happens(c, r, events[|events| - 1])
  }

  /** The logged message is the one that arrived as event k; it was authentic and new when it did. */
  ghost predicate Received(c: Crypto, s0: Side, events: seq<Event>, k: nat, e: Entry)
    requires SideOk(c, s0)
  {
    && k < |events| && events[k].Receive?
    && var s := Run(c, s0, events[..k]);
    && var b := events[k].m.body;
    && Verified(c, s.st, events[k].m) && Fresh(s.st, b)
    && e.mine % ID_LIMIT == b.recipient && e.their % ID_LIMIT == b.sender && e.ctr == b.ctr
    && s.my - 1 <= e.mine <= s.my && s.their - 1 <= e.their <= s.their
  }

  /** Every entry of the log is a message that arrived, authentic for the pair of keys it is logged under. */
  ghost predicate AllReceived(c: Crypto, s0: Side, events: seq<Event>, log: seq<Entry>)
    requires SideOk(c, s0)
  {
    forall e :: e in log ==> exists k: nat :: Received(c, s0, events, k, e)
  }

  lemma {:induction false} RunReceived(c: Crypto, s0: Side, events: seq<Event>)
    requires SideOk(c, s0) && s0.log == []
    ensures AllReceived(c, s0, events, Run(c, s0, events).log)
    decreases events
  {
    if events != [] {
      var n := |events| - 1;
      var s := Run(c, s0, events[..n]);
      RunReceived(c, s0, events[..n]);
      forall e | e in Run(c, s0, events).log ensures exists k: nat :: Received(c, s0, events, k, e) {
        if e in s.log {
          var k: nat :| Received(c, s0, events[..n], k, e);
          assert events[..n][..k] == events[..k];
          assert Received(c, s0, events, k, e);
        } else {
          EntryReceived(c, s, events[n], e);
          assert Received(c, s0, events, n, e);
        }
      }
    }
  }

  lemma EntryReceived(c: Crypto, s: Side, event: Event, e: Entry)
    requires SideOk(c, s) && e in Happens(c, s, event).log && e !in s.log
    ensures event.Receive? && Verified(c, s.st, event.m) && Fresh(s.st, event.m.body)
    ensures e.mine % ID_LIMIT == event.m.body.recipient && e.their % ID_LIMIT == event.m.body.sender
    ensures e.ctr == event.m.body.ctr
    ensures s.my - 1 <= e.mine <= s.my && s.their - 1 <= e.their <= s.their
  {
    hide ProcessData, GenerateData, SlotOk, Distinct, Remembered, Fresh;
    if event.Receive? {
      AcceptedExactly(c, s.st, event.m, event.draw);
      NumberMatches(s.st.my, s.my, event.m.body.recipient);
      NumberMatches(s.st.their, s.their, event.m.body.sender);
    }
  }

  /**
   Whatever arrives at one end of a session, in whatever order and however often: the used slots are
   for different pairs of live ids and hold what computing the keys again would give, the next send
   does not panic, every accepted message was authentic, and none is accepted twice.
   */
  lemma SessionSafe(c: Crypto, firstPriv: nat, secondPriv: nat, theirPub: nat, ctr: nat, macs: seq<seq<byte>>,
                    events: seq<Event>, text: seq<byte>)
    requires c.p > 1
    ensures var s0 := Side(Begin(c, firstPriv, secondPriv, theirPub, ctr, macs), 2, 1, []);
            && SideOk(c, s0)
            && var s := Run(c, s0, events);
            && Valid(c, s.st)
            && GenerateData(c, s.st, text).Some?
            && (forall i, j :: 0 <= i < j < |s.log| ==> s.log[i] != s.log[j])
            && AllReceived(c, s0, events, s.log)
  {
    var s0 := Side(Begin(c, firstPriv, secondPriv, theirPub, ctr, macs), 2, 1, []);
    assert SideOk(c, s0);
    var s := Run(c, s0, events);
    GenerateKeeps(c, s.st, text);
    RunReceived(c, s0, events);
  }
}
