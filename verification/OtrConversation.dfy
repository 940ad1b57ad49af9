/**
 The Conversation object of otr/otr.go, as far as it handles data messages: the methods update key
 ids, the four key slots, the counter and the list of old MAC keys in place, and do what the
 functions of OtrRatchet say.
 */
module OtrConversation {
  import opened Bits
  import opened ByteSeqs
  import opened Counter
  import opened OtrRatchet
  import opened Wrappers

  /** incCounter. */
  method IncCounter(counter: array<byte>)
    modifies counter
    ensures BigValue(counter[..]) == (old(BigValue(counter[..])) + 1) % Pow256(counter.Length)
  {
    assert counter[0..] == counter[..];
    Increment(counter, 0);
    assert counter[0..] == counter[..];
  }

  lemma CounterRange()
    ensures Pow256(8) == CTR_LIMIT
  {
    assert Pow256(4) == 0x1_0000_0000;
    assert Pow256(6) == 65536 * Pow256(4);
  }

  lemma {:induction false} MineNext(slots: seq<Slot>, id: nat, i: nat)
    requires i < |slots|
    ensures MACsOfMine(slots[..i + 1], id) ==
            MACsOfMine(slots[..i], id) + if slots[i].used && slots[i].mine == id then [slots[i].keys.recvMAC] else []
  {
    if i > 0 {
      MineNext(slots[1..], id, i - 1);
      assert slots[..i + 1][1..] == slots[1..][..i] && slots[..i][1..] == slots[1..][..i - 1];
    } else {
      assert slots[..1][1..] == [];
    }
  }

  lemma {:induction false} TheirsNext(slots: seq<Slot>, id: nat, i: nat)
    requires i < |slots|
    ensures MACsOfTheirs(slots[..i + 1], id) ==
            MACsOfTheirs(slots[..i], id) + if slots[i].used && slots[i].their == id then [slots[i].keys.recvMAC] else []
  {
    if i > 0 {
      TheirsNext(slots[1..], id, i - 1);
      assert slots[..i + 1][1..] == slots[1..][..i] && slots[..i][1..] == slots[1..][..i - 1];
    } else {
      assert slots[..1][1..] == [];
    }
  }

  class Conversation {
    const keySlots: array<Slot>
    const myCounter: array<byte>
    var myKeyId: nat
    var myCurrentDHPriv: nat
    var myCurrentDHPub: nat
    var myLastDHPriv: nat
    var myLastDHPub: nat
    var theirKeyId: nat
    var theirCurrentDHPub: nat
    var theirLastDHPub: Option<nat>
    var oldMACs: seq<seq<byte>>

    ghost predicate Shape()
      reads this
    {
      keySlots.Length == 4 && myCounter.Length == 8 && myKeyId < ID_LIMIT && theirKeyId < ID_LIMIT
    }

    ghost function View(): State
      reads this, keySlots, myCounter
    {
      State(myKeyId, myCurrentDHPriv, myCurrentDHPub, myLastDHPriv, myLastDHPub,
            theirKeyId, theirCurrentDHPub, theirLastDHPub, keySlots[..], BigValue(myCounter[..]), oldMACs)
    }

    /** Looks the pair up, or fills the first free slot. */
    method CalcDataKeys(c: Crypto, mine: nat, their: nat) returns (slot: nat, err: Option<Error>)
      requires Shape() && c.p > 1
      modifies keySlots
      ensures Shape()
      ensures match OtrRatchet.CalcDataKeys(c, old(View()), mine, their)
              case At(i, slots) => err == None && slot == i && i < 4 && View() == old(View()).(slots := slots)
              case CalcError(e) => err == Some(e) && View() == old(View())
    {
      slot := 0;
      while slot < 4
        invariant 0 <= slot <= 4
        invariant Cached(keySlots[..], mine, their, 0) == Cached(keySlots[..], mine, their, slot)
      {
        if keySlots[slot].used && keySlots[slot].their == their && keySlots[slot].mine == mine {
          return slot, None;
        }
        slot := slot + 1;
      }
      slot := 0;
      while slot < 4 && keySlots[slot].used
        invariant 0 <= slot <= 4
        invariant Free(keySlots[..], 0) == Free(keySlots[..], slot)
      {
        slot := slot + 1;
      }
      if slot == 4 {
        return 0, Some(NoMoreSlots);
      }
      var my, pub;
      if mine == myKeyId {
        my := (myCurrentDHPriv, myCurrentDHPub);
      } else if mine == Prev(myKeyId) {
        my := (myLastDHPriv, myLastDHPub);
      } else {
        return 0, Some(UnknownMyKey);
      }
      if their == theirKeyId {
        pub := theirCurrentDHPub;
      } else if their == Prev(theirKeyId) && theirLastDHPub.Some? {
        pub := theirLastDHPub.value;
      } else {
        return 0, Some(UnknownTheirKey);
      }
      keySlots[slot] := Slot(true, their, mine, Derive(c, my.0, my.1, pub), 0);
      return slot, None;
    }

    /** Takes the slots of a retired key of ours out of use and keeps their receiving MAC keys for publication. */
    method DropMine(id: nat)
      requires keySlots.Length == 4
      modifies this`oldMACs, keySlots
      ensures keySlots[..] == EvictMine(old(keySlots[..]), id)
      ensures oldMACs == old(oldMACs) + MACsOfMine(old(keySlots[..]), id)
    {
      ghost var was := keySlots[..];
      assert was[..0] == [];
      for i := 0 to 4
        invariant forall k :: 0 <= k < 4 ==> keySlots[k] == if k < i then EvictMine(was, id)[k] else was[k]
        invariant oldMACs == old(oldMACs) + MACsOfMine(was[..i], id)
      {
        MineNext(was, id, i);
        if keySlots[i].used && keySlots[i].mine == id {
          oldMACs := oldMACs + [keySlots[i].keys.recvMAC];
          keySlots[i] := keySlots[i].(used := false);
        }
      }
      assert was[..4] == was;
    }

    /** Retires our older key, evicts its slots and draws a new one. */
    method RotateDHKeys(c: Crypto, draw: nat)
      requires Shape() && c.p > 1
      modifies this, keySlots
      ensures Shape() && View() == Rotate(c, old(View()), draw)
    {
      hide BigValue, Public;
      DropMine(Prev(myKeyId));
      myLastDHPriv, myLastDHPub := myCurrentDHPriv, myCurrentDHPub;
      myCurrentDHPriv, myCurrentDHPub := draw, Public(c, draw);
      myKeyId := Succ(myKeyId);
    }

    /** Takes the slots of a retired key of theirs out of use and keeps their receiving MAC keys for publication. */
    method DropTheirs(id: nat)
      requires keySlots.Length == 4
      modifies this`oldMACs, keySlots
      ensures keySlots[..] == EvictTheirs(old(keySlots[..]), id)
      ensures oldMACs == old(oldMACs) + MACsOfTheirs(old(keySlots[..]), id)
    {
      ghost var was := keySlots[..];
      assert was[..0] == [];
      for i := 0 to 4
        invariant forall k :: 0 <= k < 4 ==> keySlots[k] == if k < i then EvictTheirs(was, id)[k] else was[k]
        invariant oldMACs == old(oldMACs) + MACsOfTheirs(was[..i], id)
      {
        TheirsNext(was, id, i);
        if keySlots[i].used && keySlots[i].their == id {
          oldMACs := oldMACs + [keySlots[i].keys.recvMAC];
          keySlots[i] := keySlots[i].(used := false);
        }
      }
      assert was[..4] == was;
    }

    /** The peer's next key replaces its older one, whose slots are evicted. */
    method AdvanceTheirKey(y: nat)
      requires Shape()
      modifies this, keySlots
      ensures Shape() && View() == Advance(old(View()), y)
    {
      hide BigValue;
      DropTheirs(Prev(theirKeyId));
      theirLastDHPub, theirCurrentDHPub := Some(theirCurrentDHPub), y;
      theirKeyId := Succ(theirKeyId);
    }

    method ProcessData(c: Crypto, m: Message, draw: nat) returns (outcome: Outcome)
      requires Shape() && c.p > 1
      modifies this, keySlots
      ensures Shape() && (View(), outcome) == OtrRatchet.ProcessData(c, old(View()), m, draw)
      ensures old(Valid(c, View())) ==>
                Valid(c, View()) && (outcome.Accepted? <==> old(Verified(c, View(), m) && Fresh(View(), m.body)))
    {
      hide Valid, Verified, Fresh, BigValue;
      if Valid(c, View()) {
        AcceptedExactly(c, View(), m, draw);
        ProcessKeeps(c, View(), m, draw);
      }
      var b := m.body;
      var i, err := CalcDataKeys(c, b.recipient, b.sender);
      if err.Some? {
        return if b.ignore then Ignored else Rejected(err.value);
      }
      var slot := keySlots[i];
      if c.mac(slot.keys.recvMAC, b) != m.mac {
        return if b.ignore then Ignored else Rejected(BadMAC);
      }
      if b.ctr <= slot.lastCtr {
        return Rejected(CounterRegressed);
      }
      keySlots[i] := slot.(lastCtr := b.ctr);
      outcome := Accepted(Crypt(c, slot.keys.recvAES, b.ctr, b.text));
      if b.recipient == myKeyId {
        RotateDHKeys(c, draw);
      }
      if b.sender == theirKeyId {
        AdvanceTheirKey(b.y);
      }
    }

    /** None stands for the panic of the original; in a valid conversation it is out of reach. */
    method GenerateData(c: Crypto, text: seq<byte>) returns (m: Option<Message>)
      requires Shape() && c.p > 1
      modifies this, keySlots, myCounter
      ensures Shape() && m.Some? == OtrRatchet.GenerateData(c, old(View()), text).Some?
      ensures m.None? ==> View() == old(View())
      ensures m.Some? ==> OtrRatchet.GenerateData(c, old(View()), text) == Some((View(), m.value))
      ensures old(Valid(c, View())) ==> m.Some? && Valid(c, View())
    {
      hide BigValue, Valid, Derive, Crypt, OtrRatchet.CalcDataKeys;
      if Valid(c, View()) {
        GenerateKeeps(c, View(), text);
      }
      var i, err := CalcDataKeys(c, Prev(myKeyId), theirKeyId);
      if err.Some? {
        return None;
      }
      var keys := keySlots[i].keys;
      var ctr := BigValue(myCounter[..]);
      var b := Body(false, Prev(myKeyId), theirKeyId, myCurrentDHPub, ctr, Crypt(c, keys.sendAES, ctr, text));
      m := Some(Message(b, c.mac(keys.sendMAC, b), oldMACs));
      oldMACs := [];
      CounterRange();
      IncCounter(myCounter);
    }
  }
}
