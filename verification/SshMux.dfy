/**
 The channel table and the life of channels in the SSH connection protocol (ssh/mux.go, and close and
 writePacket of ssh/channel.go), in any interleaving of the packet loop with goroutines that open
 channels and write on them.
 */
module SshMux {
  import opened Wrappers

  const ID_LIMIT: nat := 0x1_0000_0000

  /** The channels by slot; a channel is known by a number of its own. */
  type Table = seq<Option<nat>>

  // --------------------------------------------------------------------------
  // The table
  // --------------------------------------------------------------------------

  /** The first free slot from i on, or the length of the table. */
  function FreeSlot(t: Table, i: nat): (r: nat)
    requires i <= |t|
    ensures i <= r <= |t| && (r < |t| ==> t[r].None?)
    ensures forall k :: i <= k < r ==> t[k].Some?
    decreases |t| - i
  {
    if i == |t| || t[i].None? then i else FreeSlot(t, i + 1)
  }

  function Put(t: Table, ch: nat): Table {
    var i := FreeSlot(t, 0);
    if i < |t| then t[i := Some(ch)] else t + [Some(ch)]
  }

  /** The id of a slot, and back, by arithmetic on 32 bits. */
  function IdOf(slot: nat, offset: nat): nat {
    (slot + offset) % ID_LIMIT
  }

  function SlotOf(id: nat, offset: nat): nat {
    (id + ID_LIMIT - offset % ID_LIMIT) % ID_LIMIT
  }

  lemma SlotInvertsId(slot: nat, offset: nat)
    requires slot < ID_LIMIT
    ensures SlotOf(IdOf(slot, offset), offset) == slot
  {
    var o, a := offset % ID_LIMIT, (slot + offset) % ID_LIMIT;
    assert a == if slot + o < ID_LIMIT then slot + o else slot + o - ID_LIMIT;
  }

  function Find(t: Table, offset: nat, id: nat): Option<nat> {
    var i := SlotOf(id, offset);
    if i < |t| % ID_LIMIT then (if i < |t| then t[i] else None) else None
  }

  function Removed(t: Table, offset: nat, id: nat): Table {
    var i := SlotOf(id, offset);
    if i < |t| % ID_LIMIT && i < |t| then t[i := None] else t
  }

  function Live(t: Table): seq<nat> {
    if t == [] then [] else (if t[0].Some? then [t[0].value] else []) + Live(t[1..])
  }

  /** getChan finds what add put in, exactly while the table has fewer than 2^32 slots. */
  lemma FindInvertsAdd(t: Table, offset: nat, ch: nat)
    requires |t| < ID_LIMIT && ch !in Live(t)
    ensures Find(Put(t, ch), offset, IdOf(FreeSlot(t, 0), offset)) == Some(ch) <==> |Put(t, ch)| < ID_LIMIT
  {
    SlotInvertsId(FreeSlot(t, 0), offset);
  }

  /** It does not disturb the others. */
  lemma FindKeepsOthers(t: Table, offset: nat, ch: nat, slot: nat)
    requires |Put(t, ch)| < ID_LIMIT && slot < |t| && t[slot].Some?
    ensures Find(t, offset, IdOf(slot, offset)) == t[slot] == Find(Put(t, ch), offset, IdOf(slot, offset))
  {
    SlotInvertsId(slot, offset);
  }

  /** The table as an object. */
  class ChanList {
    var chans: Table
    const offset: nat

    constructor (offset: nat)
      ensures chans == [] && this.offset == offset
    {
      chans, this.offset := [], offset;
    }

    method Add(ch: nat) returns (id: nat)
      modifies this
      ensures chans == Put(old(chans), ch) && id == IdOf(FreeSlot(old(chans), 0), offset)
    {
      var i := 0;
      while i < |chans|
        invariant 0 <= i <= |chans| && chans == old(chans) && FreeSlot(chans, 0) == FreeSlot(chans, i)
      {
        if chans[i].None? {
          chans := chans[i := Some(ch)];
          return IdOf(i, offset);
        }
        i := i + 1;
      }
      chans := chans + [Some(ch)];
      return IdOf(|chans| - 1, offset);
    }

    method GetChan(id: nat) returns (ch: Option<nat>)
      ensures ch == Find(chans, offset, id)
    {
      var i := SlotOf(id, offset);
      if i < |chans| % ID_LIMIT && i < |chans| {
        return chans[i];
      }
      return None;
    }

    method Remove(id: nat)
      modifies this
      ensures chans == Removed(old(chans), offset, id)
    {
      var i := SlotOf(id, offset);
      if i < |chans| % ID_LIMIT && i < |chans| {
        chans := chans[i := None];
      }
    }

    /** Forgets all channels and hands them out in the order of their slots. */
    method DropAll() returns (r: seq<nat>)
      modifies this
      ensures r == Live(old(chans)) && chans == []
    {
      r := [];
      assert chans[0..] == chans;
      for i := 0 to |chans|
        invariant r + Live(chans[i..]) == Live(chans) && chans == old(chans)
      {
        assert chans[i..][1..] == chans[i + 1..];
        if chans[i].Some? {
          r := r + [chans[i].value];
        }
      }
      chans := [];
    }
  }

  // --------------------------------------------------------------------------
  // The life of channels
  // --------------------------------------------------------------------------

  /**
   given is what add returned, and named says that it is already stored in the channel.  closes counts
   calls of close, late says that something went into the Go channels after it, wire is what writePacket
   let through: true stands for a CLOSE message.
   */
  datatype Chan = Chan(given: nat, named: bool, closes: nat, late: bool, sentClose: bool, wire: seq<bool>)

  /** The field localId: zero until it is assigned. */
  function LocalId(c: Chan): nat {
    if c.named then c.given else 0
  }

  /** What a packet for a channel does beyond the windows. */
  datatype Kind = Close | OpenFailure | Message | Silent

  /** Where the packet loop is, between one region under a lock and the next. */
  datatype Pc =
    | Reading
    | Naming(ch: nat)                      // an inbound channel is added, its id not yet stored
    | Handling(ch: nat, id: nat, kind: Kind)
    | Removing(ch: nat)                    // a CLOSE is answered
    | Closing(ch: nat, half: bool)         // and its slot emptied; half: the Go channels are closed
    | Telling(ch: nat)                     // an open failure is about to go into c.msg
    | Exiting
    | Dropping(live: seq<nat>, half: bool) // dropAll is done, the channels are closed one by one
    | Stopped

  datatype Mux = Mux(table: Table, offset: nat, chans: seq<Chan>, pc: Pc)

  datatype Event =
    | Add                                   // the call of add in newChannel, from any goroutine
    | SetId(ch: nat)                        // the assignment of its result to localId
    | WriteOn(ch: nat, close: bool)         // writePacket, from any goroutine
    | Inbound                               // the loop reads an open message and adds a channel
    | Packet(id: nat, kind: Kind, ok: bool) // the loop reads a channel packet; not ok: its handler fails
    | Fail                                  // reading fails
    | Loop                                  // the loop goes on

  function WritePacket(c: Chan, close: bool): Chan {
    if c.sentClose then c else c.(sentClose := close, wire := c.wire + [close])
  }

  /** The two halves of channel.close: closing the Go channels, and the flag under its own lock. */
  function CloseChan(c: Chan): Chan {
    c.(closes := c.closes + 1)
  }

  function Seal(c: Chan): Chan {
    c.(sentClose := true)
  }

  /** A send into c.msg or c.incomingRequests. */
  function SendInto(c: Chan): Chan {
    c.(late := c.late || c.closes > 0)
  }

  function Added(m: Mux): Mux {
    m.(table := Put(m.table, |m.chans|),
       chans := m.chans + [Chan(IdOf(FreeSlot(m.table, 0), m.offset), false, 0, false, false, [])])
  }

  function Update(m: Mux, ch: nat, c: Chan): Mux {
    if ch < |m.chans| then m.(chans := m.chans[ch := c]) else m
  }

  function Named(m: Mux, ch: nat): Mux {
    if ch < |m.chans| then Update(m, ch, m.chans[ch].(named := true)) else m
  }

  /** The loop goes on by one region. */
  function Advance(m: Mux): Mux {
    match m.pc
    case Reading => m
    case Naming(ch) => Named(m, ch).(pc := Reading)
    case Handling(ch, id, kind) =>
      if ch >= |m.chans| then m else
      (match kind
       case Close => Update(m, ch, WritePacket(m.chans[ch], true)).(pc := Removing(ch))
       case OpenFailure => m.(table := Removed(m.table, m.offset, id), pc := Telling(ch))
       case Message => Update(m, ch, SendInto(m.chans[ch])).(pc := Reading)
       case Silent => m.(pc := Reading))
    case Removing(ch) =>
      if ch >= |m.chans| then m else
      m.(table := Removed(m.table, m.offset, LocalId(m.chans[ch])), pc := Closing(ch, false))
    case Closing(ch, half) =>
      if ch >= |m.chans| then m
      else if half then Update(m, ch, Seal(m.chans[ch])).(pc := Reading)
      else Update(m, ch, CloseChan(m.chans[ch])).(pc := Closing(ch, true))
    case Telling(ch) =>
      if ch >= |m.chans| then m else Update(m, ch, SendInto(m.chans[ch])).(pc := Reading)
    case Exiting => m.(table := [], pc := Dropping(Live(m.table), false))
    case Dropping(live, half) =>
      if live == [] then m.(pc := Stopped)
      else if live[0] >= |m.chans| then m
      else if half then Update(m, live[0], Seal(m.chans[live[0]])).(pc := Dropping(live[1..], false))
      else Update(m, live[0], CloseChan(m.chans[live[0]])).(pc := Dropping(live, true))
    case Stopped => m
  }

  function Step(m: Mux, e: Event): Mux {
    match e
    case Add => Added(m)
    case SetId(ch) => Named(m, ch)
    case WriteOn(ch, close) => if ch < |m.chans| then Update(m, ch, WritePacket(m.chans[ch], close)) else m
    case Inbound => if m.pc.Reading? then Added(m).(pc := Naming(|m.chans|)) else m
    case Packet(id, kind, ok) =>
      if !m.pc.Reading? then m else
      var f := Find(m.table, m.offset, id);
      m.(pc := if f.None? || (!ok && !kind.Close?) then Exiting else Handling(f.value, id, kind))
    case Fail => if m.pc.Reading? then m.(pc := Exiting) else m
    case Loop => Advance(m)
  }

  function Run(m: Mux, es: seq<Event>): Mux
    decreases es
  {
    if es == [] then m else Step(Run(m, es[..|es| - 1]), es[|es| - 1])
  }

  function Started(offset: nat): Mux {
    Mux([], offset, [], Reading)
  }

  // --------------------------------------------------------------------------
  // The condition
  // --------------------------------------------------------------------------

  /**
   When a CLOSE empties the slot of its channel, the channel knows its id, or the id is the zero that
   the field starts with, and the table has not grown past 2^32 slots meanwhile.
   */
  predicate Aimed(m: Mux, e: Event) {
    e.Loop? && m.pc.Removing? && m.pc.ch < |m.chans| ==>
      var c := m.chans[m.pc.ch]; (c.named || c.given == 0) && SlotOf(c.given, m.offset) < |m.table| % ID_LIMIT
  }

  predicate AimedRun(m: Mux, es: seq<Event>)
    decreases es
  {
    es == [] || (AimedRun(m, es[..|es| - 1]) && Aimed(Run(m, es[..|es| - 1]), es[|es| - 1]))
  }

  // --------------------------------------------------------------------------
  // The invariant
  // --------------------------------------------------------------------------

  /** Nothing after a CLOSE. */
  predicate WireOk(wire: seq<bool>) {
    forall i :: 0 <= i < |wire| - 1 ==> !wire[i]
  }

  ghost predicate ChanOk(c: Chan) {
    && c.closes <= 1 && !c.late && WireOk(c.wire) && c.given < ID_LIMIT
    && (!c.sentClose ==> forall i :: 0 <= i < |c.wire| ==> !c.wire[i])
  }

  ghost predicate Open(m: Mux, ch: nat) {
    ch < |m.chans| && m.chans[ch].closes == 0
  }

  /** Slots hold different channels that are still open and were given the slot's id. */
  ghost predicate TableOk(m: Mux) {
    && (forall i :: 0 <= i < |m.table| && m.table[i].Some? ==>
          Open(m, m.table[i].value) && m.chans[m.table[i].value].given == IdOf(i, m.offset))
    && (forall i, j :: 0 <= i < j < |m.table| && m.table[i].Some? ==> m.table[i] != m.table[j])
  }

  /** The channel of the packet sits in the slot that its id names. */
  ghost predicate At(m: Mux, ch: nat, slot: nat) {
    slot < |m.table| && m.table[slot] == Some(ch)
  }

  ghost predicate PcOk(m: Mux) {
    match m.pc
    case Naming(ch) => ch < |m.chans|
    case Handling(ch, id, _) => At(m, ch, SlotOf(id, m.offset))
    case Removing(ch) => Open(m, ch) && At(m, ch, SlotOf(m.chans[ch].given, m.offset))
    case Closing(ch, half) => ch < |m.chans| && Some(ch) !in m.table && (!half ==> m.chans[ch].closes == 0)
    case Telling(ch) => Open(m, ch)
    case Dropping(live, half) =>
      && (forall i :: 0 <= i < |live| ==> live[i] < |m.chans| && Some(live[i]) !in m.table)
      && (forall i :: (if half then 1 else 0) <= i < |live| ==> m.chans[live[i]].closes == 0)
      && (forall i, j :: 0 <= i < j < |live| ==> live[i] != live[j]) && (half ==> live != [])
    case _ => true
  }

  ghost predicate Inv(m: Mux) {
    TableOk(m) && PcOk(m) && forall i :: 0 <= i < |m.chans| ==> ChanOk(m.chans[i])
  }

  /** What has to hold of every channel. */
  predicate Lives(m: Mux) {
    forall i :: 0 <= i < |m.chans| ==> m.chans[i].closes <= 1 && !m.chans[i].late && WireOk(m.chans[i].wire)
  }

  lemma AddKeeps(m: Mux)
    requires Inv(m)
    ensures Inv(Added(m))
  {
    assert |m.chans| < |Added(m).chans|;
  }

  lemma InboundKeeps(m: Mux)
    requires Inv(m) && m.pc.Reading?
    ensures Inv(Added(m).(pc := Naming(|m.chans|)))
  {
    AddKeeps(m);
  }

  lemma NamedKeeps(m: Mux, ch: nat)
    requires Inv(m)
    ensures Inv(Named(m, ch))
  {
  }

  lemma WriteKeeps(m: Mux, ch: nat, close: bool)
    requires Inv(m)
    ensures Inv(Step(m, WriteOn(ch, close)))
  {
  }

  /** The channel that a packet is for sits in the slot of its id. */
  lemma FoundAt(m: Mux, id: nat)
    requires Inv(m) && Find(m.table, m.offset, id).Some?
    ensures At(m, Find(m.table, m.offset, id).value, SlotOf(id, m.offset))
  {
  }

  lemma PacketKeeps(m: Mux, id: nat, kind: Kind, ok: bool)
    requires Inv(m)
    ensures Inv(Step(m, Packet(id, kind, ok)))
  {
    if m.pc.Reading? && Find(m.table, m.offset, id).Some? {
      FoundAt(m, id);
    }
  }

  lemma {:induction false} LiveOf(t: Table)
    requires forall i, j :: 0 <= i < j < |t| && t[i].Some? ==> t[i] != t[j]
    ensures forall x :: x in Live(t) ==> Some(x) in t
    ensures forall i, j :: 0 <= i < j < |Live(t)| ==> Live(t)[i] != Live(t)[j]
  {
    if t != [] {
      LiveOf(t[1..]);
      if t[0].Some? {
        assert t[0] !in t[1..];
      }
    }
  }

  lemma {:induction false} LiveHas(t: Table, ch: nat)
    requires Some(ch) in t
    ensures ch in Live(t)
  {
    if t[0] != Some(ch) {
      LiveHas(t[1..], ch);
    }
  }

  lemma ExitKeeps(m: Mux)
    requires Inv(m) && m.pc.Exiting?
    ensures Inv(Advance(m))
  {
    LiveOf(m.table);
    var live := Live(m.table);
    forall i | 0 <= i < |live|
      ensures Open(m, live[i])
    {
      assert live[i] in live;
      assert Some(live[i]) in m.table;
    }
  }

  lemma HandlingKeeps(m: Mux)
    requires Inv(m) && m.pc.Handling?
    ensures Inv(Advance(m))
  {
    SlotInvertsId(SlotOf(m.pc.id, m.offset), m.offset);
  }

  lemma RemovingKeeps(m: Mux)
    requires Inv(m) && m.pc.Removing? && Aimed(m, Loop)
    ensures Inv(Advance(m))
  {
  }

  lemma DroppingKeeps(m: Mux)
    requires Inv(m) && m.pc.Dropping?
    ensures Inv(Advance(m))
  {
  }

  lemma AdvanceKeeps(m: Mux)
    requires Inv(m) && Aimed(m, Loop)
    ensures Inv(Advance(m))
  {
    match m.pc
    case Naming(ch) => NamedKeeps(m, ch);
    case Handling(_, _, _) => HandlingKeeps(m);
    case Removing(_) => RemovingKeeps(m);
    case Exiting => ExitKeeps(m);
    case Dropping(_, _) => DroppingKeeps(m);
    case _ =>
  }

  lemma StepKeeps(m: Mux, e: Event)
    requires Inv(m) && Aimed(m, e)
    ensures Inv(Step(m, e))
  {
    hide Inv, Aimed, Advance, Find, Added, Named;
    match e
    case Add => AddKeeps(m);
    case SetId(ch) => NamedKeeps(m, ch);
    case WriteOn(ch, close) => WriteKeeps(m, ch, close);
    case Inbound => if m.pc.Reading? { InboundKeeps(m); }
    case Packet(id, kind, ok) => PacketKeeps(m, id, kind, ok);
    case Fail => FailKeeps(m);
    case Loop => AdvanceKeeps(m);
  }

  lemma FailKeeps(m: Mux)
    requires Inv(m)
    ensures Inv(Step(m, Fail))
  {
  }

  lemma {:induction false} RunInv(m: Mux, es: seq<Event>)
    requires Inv(m) && AimedRun(m, es)
    ensures Inv(Run(m, es))
    decreases es
  {
    if es != [] {
      RunInv(m, es[..|es| - 1]);
      StepKeeps(Run(m, es[..|es| - 1]), es[|es| - 1]);
    }
  }

  // --------------------------------------------------------------------------
  // What holds, and exactly when
  // --------------------------------------------------------------------------

  lemma InvLives(m: Mux)
    requires Inv(m)
    ensures Lives(m)
  {
  }

  lemma StartedInv(offset: nat)
    ensures Inv(Started(offset))
  {
  }

  /**
   In every run in which each CLOSE is aimed at its own slot: slots hold different channels, close runs
   at most once on each channel, nothing goes into its Go channels afterwards, at most one CLOSE of it
   reaches the wire with nothing after it, and while the table has fewer than 2^32 slots the id of a
   live channel finds that channel.
   */
  lemma ChannelLives(offset: nat, es: seq<Event>)
    requires AimedRun(Started(offset), es)
    ensures var m := Run(Started(offset), es);
            && Lives(m)
            && (forall i, j :: 0 <= i < j < |m.table| && m.table[i].Some? ==> m.table[i] != m.table[j])
            && (forall i :: 0 <= i < |m.table| && m.table[i].Some? ==> m.table[i].value < |m.chans|)
            && (|m.table| < ID_LIMIT ==> forall i :: 0 <= i < |m.table| && m.table[i].Some? ==>
                  Find(m.table, offset, m.chans[m.table[i].value].given) == m.table[i])
  {
    hide Inv, Run, AimedRun, Lives, Find;
    StartedInv(offset);
    RunInv(Started(offset), es);
    var m := Run(Started(offset), es);
    InvLives(m);
    OffsetStays(Started(offset), es);
    SlotsLive(m);
  }

  lemma SlotsLive(m: Mux)
    requires Inv(m)
    ensures forall i, j :: 0 <= i < j < |m.table| && m.table[i].Some? ==> m.table[i] != m.table[j]
    ensures forall i :: 0 <= i < |m.table| && m.table[i].Some? ==> m.table[i].value < |m.chans|
    ensures |m.table| < ID_LIMIT ==> forall i :: 0 <= i < |m.table| && m.table[i].Some? ==>
              Find(m.table, m.offset, m.chans[m.table[i].value].given) == m.table[i]
  {
    hide SlotOf, IdOf;
    forall i | 0 <= i < |m.table| && m.table[i].Some? && |m.table| < ID_LIMIT
      ensures Find(m.table, m.offset, m.chans[m.table[i].value].given) == m.table[i]
    {
      SlotInvertsId(i, m.offset);
    }
  }

  lemma {:induction false} OffsetStays(m: Mux, es: seq<Event>)
    ensures Run(m, es).offset == m.offset
    decreases es
  {
    if es != [] {
      OffsetStays(m, es[..|es| - 1]);
    }
  }

  lemma {:induction false} RunAppend(m: Mux, a: seq<Event>, b: seq<Event>)
    ensures Run(m, a + b) == Run(Run(m, a), b)
    ensures AimedRun(m, a) && AimedRun(Run(m, a), b) ==> AimedRun(m, a + b)
    decreases b
  {
    hide Step, Aimed;
    if b == [] {
      assert a + b == a;
    } else {
      var c := b[..|b| - 1];
      RunAppend(m, a, c);
      assert (a + b)[..|a + b| - 1] == a + c && (a + b)[|a + b| - 1] == b[|b| - 1];
    }
  }

  lemma RunOne(m: Mux, e: Event)
    ensures Run(m, [e]) == Step(m, e) && (AimedRun(m, [e]) <==> Aimed(m, e))
  {
    hide Step, Aimed;
    assert [e][..0] == [];
    assert Run(m, []) == m;
  }

  /** Dropping a channel that was closed before closes it again. */
  lemma {:induction false} DropsTwice(m: Mux, ch: nat) returns (more: seq<Event>)
    requires m.pc.Dropping? && !m.pc.half && ch in m.pc.live && ch < |m.chans| && m.chans[ch].closes > 0
    requires forall i :: 0 <= i < |m.pc.live| ==> m.pc.live[i] < |m.chans|
    ensures AimedRun(m, more) && !Lives(Run(m, more))
    decreases |m.pc.live|
  {
    hide Run, AimedRun;
    RunOne(m, Loop);
    var n := Advance(m);
    if m.pc.live[0] == ch {
      assert n.chans[ch].closes > 1;
      return [Loop];
    }
    RunOne(n, Loop);
    var l := Advance(n);
    assert forall i :: 0 <= i < |l.pc.live| ==> l.pc.live[i] == m.pc.live[i + 1];
    var rest := DropsTwice(l, ch);
    RunAppend(n, [Loop], rest);
    RunAppend(m, [Loop], [Loop] + rest);
    more := [Loop] + ([Loop] + rest);
  }

  /** A CLOSE that empties another slot, or none, leaves a closed channel in the table. */
  lemma Missed(m: Mux)
    requires Inv(m) && m.pc.Removing? && !Aimed(m, Loop)
    ensures m.pc.ch < |m.chans| && Some(m.pc.ch) in Advance(m).table && Advance(m).pc == Closing(m.pc.ch, false)
  {
    var c := m.chans[m.pc.ch];
    var slot := SlotOf(c.given, m.offset);
    var t := Advance(m).table;
    if c.named || c.given == 0 {
      assert t == m.table;
    } else {
      OtherSlot(c.given, m.offset);
      assert t[slot] == Some(m.pc.ch);
    }
  }

  lemma OtherSlot(id: nat, offset: nat)
    requires 0 < id < ID_LIMIT
    ensures SlotOf(id, offset) != SlotOf(0, offset)
  {
    var o := offset % ID_LIMIT;
    assert SlotOf(0, offset) == if o == 0 then 0 else ID_LIMIT - o;
    assert SlotOf(id, offset) == if id < o then id + ID_LIMIT - o else id - o;
  }

  /** From there the loop alone closes the channel a second time, when it ends. */
  lemma Misses(m: Mux) returns (more: seq<Event>)
    requires m.pc.Closing? && !m.pc.half && m.pc.ch < |m.chans| && Some(m.pc.ch) in m.table
    requires forall i :: 0 <= i < |m.table| && m.table[i].Some? ==> m.table[i].value < |m.chans|
    ensures AimedRun(m, more) && !Lives(Run(m, more))
  {
    hide Run, AimedRun, Live;
    var ch := m.pc.ch;
    var m1 := Advance(m);
    var m2 := Advance(m1);
    var m3 := Step(m2, Fail);
    var m4 := Advance(m3);
    LiveHas(m.table, ch);
    LiveIn(m.table);
    assert m4.pc == Dropping(Live(m.table), false) && m4.chans[ch].closes > 0 && |m4.chans| == |m.chans|;
    forall i | 0 <= i < |Live(m.table)|
      ensures Live(m.table)[i] < |m.chans|
    {
      assert Live(m.table)[i] in Live(m.table);
      assert Some(Live(m.table)[i]) in m.table;
    }
    var rest := DropsTwice(m4, ch);
    RunOne(m, Loop);
    RunOne(m1, Loop);
    RunOne(m2, Fail);
    RunOne(m3, Loop);
    RunAppend(m3, [Loop], rest);
    RunAppend(m2, [Fail], [Loop] + rest);
    RunAppend(m1, [Loop], [Fail] + ([Loop] + rest));
    RunAppend(m, [Loop], [Loop] + ([Fail] + ([Loop] + rest)));
    more := [Loop] + ([Loop] + ([Fail] + ([Loop] + rest)));
  }

  lemma {:induction false} LiveIn(t: Table)
    ensures forall x :: x in Live(t) ==> Some(x) in t
  {
    if t != [] {
      LiveIn(t[1..]);
    }
  }

  /**
   The condition is exact: a step is aimed if and only if nothing that the loop goes on to do can break
   a channel's life.
   */
  lemma ExactlyAimed(offset: nat, es: seq<Event>, e: Event)
    requires AimedRun(Started(offset), es)
    ensures var m := Run(Started(offset), es);
            Aimed(m, e) <==> forall more :: AimedRun(Step(m, e), more) ==> Lives(Run(Step(m, e), more))
  {
    hide Run, AimedRun, Step, Lives, Inv, Aimed;
    StartedInv(offset);
    RunInv(Started(offset), es);
    var m := Run(Started(offset), es);
    if Aimed(m, e) {
      StepKeeps(m, e);
      forall more | AimedRun(Step(m, e), more)
        ensures Lives(Run(Step(m, e), more))
      {
        RunInv(Step(m, e), more);
        InvLives(Run(Step(m, e), more));
      }
    } else {
      var more := Broken(m, e);
      assert AimedRun(Step(m, e), more) && !Lives(Run(Step(m, e), more));
    }
  }

  lemma Broken(m: Mux, e: Event) returns (more: seq<Event>)
    requires Inv(m) && !Aimed(m, e)
    ensures AimedRun(Step(m, e), more) && !Lives(Run(Step(m, e), more))
  {
    hide Run, AimedRun, Lives;
    Missed(m);
    more := Misses(Advance(m));
  }

  // --------------------------------------------------------------------------
  // Runs that meet the condition
  // --------------------------------------------------------------------------

  /** A packet names no channel between its add and the assignment of its id; the table stays below 2^32 slots. */
  predicate Polite(m: Mux, e: Event) {
    && |m.table| < ID_LIMIT
    && (e.Packet? && m.pc.Reading? ==>
          var f := Find(m.table, m.offset, e.id); f.Some? && f.value < |m.chans| ==> m.chans[f.value].named)
  }

  predicate PoliteRun(m: Mux, es: seq<Event>)
    decreases es
  {
    es == [] || (PoliteRun(m, es[..|es| - 1]) && Polite(Run(m, es[..|es| - 1]), es[|es| - 1]))
  }

  predicate Knows(m: Mux) {
    m.pc.Handling? || m.pc.Removing? ==> m.pc.ch < |m.chans| && m.chans[m.pc.ch].named
  }

  lemma PoliteStep(m: Mux, e: Event)
    requires Inv(m) && Knows(m) && Polite(m, e)
    ensures Aimed(m, e) && Knows(Step(m, e))
  {
  }

  /** Such runs are aimed. */
  lemma {:induction false} PoliteIsAimed(m: Mux, es: seq<Event>)
    requires Inv(m) && Knows(m) && PoliteRun(m, es)
    ensures AimedRun(m, es) && Knows(Run(m, es))
    decreases es
  {
    hide Inv, Knows, Polite, Aimed, Step;
    if es != [] {
      PoliteIsAimed(m, es[..|es| - 1]);
      RunInv(m, es[..|es| - 1]);
      PoliteStep(Run(m, es[..|es| - 1]), es[|es| - 1]);
    }
  }

  /** Every channel has its id, except the one that the loop is just naming. */
  predicate AllNamed(m: Mux) {
    forall i :: 0 <= i < |m.chans| ==> m.chans[i].named || m.pc == Naming(i)
  }

  predicate BelowLimit(m: Mux, es: seq<Event>)
    decreases es
  {
    |Run(m, es).table| < ID_LIMIT && (es == [] || BelowLimit(m, es[..|es| - 1]))
  }

  lemma NamedStep(m: Mux, e: Event)
    requires AllNamed(m) && !e.Add? && |m.table| < ID_LIMIT
    ensures Polite(m, e) && AllNamed(Step(m, e))
  {
  }

  /** Channels that the peer opens are named by the loop itself: without others, every run is polite. */
  lemma {:induction false} InboundIsPolite(offset: nat, es: seq<Event>)
    requires Add !in es && BelowLimit(Started(offset), es)
    ensures PoliteRun(Started(offset), es) && AllNamed(Run(Started(offset), es))
    decreases es
  {
    hide AllNamed, Polite, Step;
    if es != [] {
      var front := es[..|es| - 1];
      assert Add !in front by {
        assert forall x :: x in front ==> x in es;
      }
      InboundIsPolite(offset, front);
      NamedStep(Run(Started(offset), front), es[|es| - 1]);
    } else {
      StartedNamed(offset);
    }
  }

  lemma StartedNamed(offset: nat)
    ensures AllNamed(Started(offset))
  {
  }

  /** The first event first. */
  lemma RunNext(m: Mux, e: Event, es: seq<Event>)
    ensures Run(m, [e] + es) == Run(Step(m, e), es)
  {
    hide Run, Step;
    RunOne(m, e);
    RunAppend(m, [e], es);
  }

  /** A CLOSE for slot 1 while its channel does not know its id yet. */
  lemma OneClose(a: Chan, b: Chan, t: Option<nat>)
    requires a.named && a.given == 0 && !b.named && b.given == 1
    ensures Run(Mux([t, Some(1)], 0, [a, b], Reading), [Packet(1, Close, true), Loop, Loop, Loop, Loop]) ==
            Mux([None, Some(1)], 0, [a, Seal(CloseChan(WritePacket(b, true)))], Reading)
  {
    hide Run;
    var m := Mux([t, Some(1)], 0, [a, b], Reading);
    var m1 := Step(m, Packet(1, Close, true));
    var m2 := Advance(m1);
    var m3 := Advance(m2);
    var m4 := Advance(m3);
    assert m1 == m.(pc := Handling(1, 1, Close));
    assert m2 == m.(chans := [a, WritePacket(b, true)], pc := Removing(1));
    assert m3 == m2.(table := [None, Some(1)], pc := Closing(1, false));
    assert m4 == m3.(chans := [a, CloseChan(WritePacket(b, true))], pc := Closing(1, true));
    assert Advance(m4) == m4.(chans := [a, Seal(CloseChan(WritePacket(b, true)))], pc := Reading);
    RunOne(m4, Loop);
    RunNext(m3, Loop, [Loop]);
    RunNext(m2, Loop, [Loop, Loop]);
    RunNext(m1, Loop, [Loop, Loop, Loop]);
    RunNext(m, Packet(1, Close, true), [Loop, Loop, Loop, Loop]);
    assert [Packet(1, Close, true)] + [Loop, Loop, Loop, Loop] == [Packet(1, Close, true), Loop, Loop, Loop, Loop];
    assert [Loop] + [Loop, Loop, Loop] == [Loop, Loop, Loop, Loop];
    assert [Loop] + [Loop, Loop] == [Loop, Loop, Loop] && [Loop] + [Loop] == [Loop, Loop];
  }

  function TwoCloses(): seq<Event> {
    var close := [Packet(1, Close, true), Loop, Loop, Loop, Loop];
    [Add] + ([SetId(0)] + ([Add] + (close + close)))
  }

  /**
   The condition can fail: a CLOSE for slot 1 arrives twice while the channel there does not know its id
   yet.  It empties slot 0 instead, whose channel is never closed, and its own channel is closed twice.
   */
  lemma ClosedTwice()
    ensures exists a, b ::
              Run(Started(0), TwoCloses()) == Mux([None, Some(1)], 0, [a, b], Reading) && a.closes == 0 && b.closes == 2
  {
    hide Run;
    var close := [Packet(1, Close, true), Loop, Loop, Loop, Loop];
    var a, b := Chan(0, true, 0, false, false, []), Chan(1, false, 0, false, false, []);
    var m := Mux([Some(0), Some(1)], 0, [a, b], Reading);
    var m1 := Step(Started(0), Add);
    var m2 := Step(m1, SetId(0));
    assert m1 == Mux([Some(0)], 0, [a.(named := false)], Reading);
    assert m2 == Mux([Some(0)], 0, [a], Reading);
    assert Step(m2, Add) == m;
    RunNext(Started(0), Add, [SetId(0)] + ([Add] + (close + close)));
    RunNext(m1, SetId(0), [Add] + (close + close));
    RunNext(m2, Add, close + close);
    OneClose(a, b, Some(0));
    OneClose(a, Seal(CloseChan(WritePacket(b, true))), None);
    RunAppend(m, close, close);
  }
}
