/**
 Which channel a packet is for: the numbers that open messages, confirmations and all later packets carry
 (ssh/mux.go, ssh/channel.go, section 5 of RFC 4254), and the tables that they are looked up in.
 */
module SshRouting {
  import opened Bits
  import opened ByteSeqs
  import opened BigEndian
  import opened SshChannel
  import opened SshWire
  import opened Wrappers
  import SshMux

  const MSG_OPEN: byte := 90

  // --------------------------------------------------------------------------
  // What the packets say
  // --------------------------------------------------------------------------

  /** The channel that the loop looks up for a packet. */
  function Addressed(p: seq<byte>): Option<nat> {
    if |p| < 5 then None else Some(FromU32(p[1..5]))
  }

  lemma NumberField(n: nat, ks: seq<Kind>, rest: seq<byte>)
    requires n < U32_LIMIT
    ensures ParseFields([KUint32] + ks, U32(n) + rest) ==
            (var r := ParseFields(ks, rest); if r.None? then None else Some([Num(n)] + r.value))
  {
    hide U32, FromU32;
    U32RoundTrip(n);
    var s := U32(n) + rest;
    assert s[..4] == U32(n) && s[4..] == rest && ([KUint32] + ks)[1..] == ks;
  }

  lemma OneField(k: Kind, s: seq<byte>, v: Value)
    requires ParseField(k, s) == Some((v, []))
    ensures ParseFields([k], s) == Some([v])
  {
    hide ParseField;
    assert [k][1..] == [] && [v] + [] == [v];
  }

  lemma LastString(payload: seq<byte>)
    requires |payload| < U32_LIMIT
    ensures ParseFields([KString], U32(|payload|) + payload) == Some([Data(payload)])
  {
    hide PutString, ParseString, U32, ParseFields;
    StringRoundTrip(payload, []);
    PutStringIs(payload);
    assert PutString(payload) + [] == PutString(payload);
    OneField(KString, U32(|payload|) + payload, Data(payload));
  }

  lemma PutStringIs(s: seq<byte>)
    requires |s| < U32_LIMIT
    ensures PutString(s) == U32(|s|) + s
  {
  }

  /** A message reads as its channel and what follows. */
  lemma Names(tag: byte, id: nat, ks: seq<Kind>, rest: seq<byte>)
    requires tag > 0 && id < U32_LIMIT
    ensures var p := [tag] + U32(id) + rest;
            && Addressed(p) == Some(id)
            && Unmarshal(tag, [KUint32] + ks, p) ==
               (var r := ParseFields(ks, rest); if r.None? then None else Some([Num(id)] + r.value))
  {
    hide U32, FromU32, ParseFields;
    var p := [tag] + U32(id) + rest;
    assert p[1..] == U32(id) + rest && p[1..5] == U32(id);
    U32RoundTrip(id);
    NumberField(id, ks, rest);
  }

  lemma DataFields(id: nat, payload: seq<byte>)
    requires id < U32_LIMIT && |payload| < U32_LIMIT
    ensures var p := [MSG_DATA] + U32(id) + (U32(|payload|) + payload);
            Addressed(p) == Some(id) && Unmarshal(94, [KUint32, KString], p) == Some([Num(id), Data(payload)])
  {
    hide U32, FromU32, ParseFields, Unmarshal;
    LastString(payload);
    Names(MSG_DATA, id, [KString], U32(|payload|) + payload);
    assert [Num(id)] + [Data(payload)] == [Num(id), Data(payload)] && [KUint32] + [KString] == [KUint32, KString];
  }

  lemma ExtendedFields(id: nat, code: nat, payload: seq<byte>)
    requires id < U32_LIMIT && code < U32_LIMIT && |payload| < U32_LIMIT
    ensures var p := [MSG_EXTENDED_DATA] + U32(id) + (U32(code) + (U32(|payload|) + payload));
            && Addressed(p) == Some(id)
            && Unmarshal(95, [KUint32, KUint32, KString], p) == Some([Num(id), Num(code), Data(payload)])
  {
    hide U32, FromU32, ParseFields, Unmarshal;
    LastString(payload);
    NumberField(code, [KString], U32(|payload|) + payload);
    Names(MSG_EXTENDED_DATA, id, [KUint32, KString], U32(code) + (U32(|payload|) + payload));
    assert [Num(code)] + [Data(payload)] == [Num(code), Data(payload)];
    assert [Num(id)] + [Num(code), Data(payload)] == [Num(id), Num(code), Data(payload)];
    assert [KUint32] + [KString] == [KUint32, KString] && [KUint32] + [KUint32, KString] == [KUint32, KUint32, KString];
  }

  /** SSH_MSG_CHANNEL_DATA and SSH_MSG_CHANNEL_EXTENDED_DATA of section 5.2. */
  lemma DataDecodes(id: nat, code: nat, payload: seq<byte>)
    requires id < U32_LIMIT && code < U32_LIMIT && |payload| < U32_LIMIT
    ensures var p := DataPacket(id, code, payload);
            && Addressed(p) == Some(id)
            && (code == 0 ==> Unmarshal(94, [KUint32, KString], p) == Some([Num(id), Data(payload)]))
            && (code > 0
                ==> Unmarshal(95, [KUint32, KUint32, KString], p) == Some([Num(id), Num(code), Data(payload)]))
  {
    hide U32, Addressed, Unmarshal;
    if code == 0 {
      DataFields(id, payload);
      assert DataPacket(id, code, payload) == [MSG_DATA] + U32(id) + (U32(|payload|) + payload);
    } else {
      ExtendedFields(id, code, payload);
      assert DataPacket(id, code, payload) == [MSG_EXTENDED_DATA] + U32(id) + (U32(code) + (U32(|payload|) + payload));
    }
  }

  /** Only a packet that decodes is taken: what changes the state is a data message with this payload. */
  lemma TakenDecodes(s: State, p: seq<byte>)
    requires Fits(s) && |p| > 0 && (p[0] == MSG_DATA || p[0] == MSG_EXTENDED_DATA) && HandlePacket(s, p).0 != s
    requires |p| < U32_LIMIT
    ensures var kinds := if p[0] == 94 then [KUint32, KString] else [KUint32, KUint32, KString];
            var m := Unmarshal(p[0], kinds, p);
            && m.Some? && |m.value| == |kinds| && m.value[|kinds| - 1].Data? && m.value[|kinds| - 2].Num?
            && var payload, code := m.value[|kinds| - 1].s, if p[0] == 94 then 0 else m.value[1].n;
            && 0 < |payload| <= s.myWindow && |payload| <= s.maxIncoming
            && HandlePacket(s, p) ==
               (s.(myWindow := s.myWindow - |payload|,
                   pending := if code == 0 then s.pending + payload else s.pending,
                   ext := if code == 1 then s.ext + payload else s.ext), None)
  {
    hide U32, FromU32, Unmarshal;
    var header := if p[0] == MSG_EXTENDED_DATA then 13 else 9;
    var payload, id := p[header..], FromU32(p[1..5]);
    FromU32Inverse(p[header - 4..header]);
    FromU32Inverse(p[1..5]);
    if p[0] == MSG_DATA {
      DataFields(id, payload);
      assert p == [MSG_DATA] + U32(id) + (U32(|payload|) + payload);
    } else {
      FromU32Inverse(p[5..9]);
      var code := FromU32(p[5..9]);
      ExtendedFields(id, code, payload);
      assert p == [MSG_EXTENDED_DATA] + U32(id) + (U32(code) + (U32(|payload|) + payload));
    }
  }

  lemma StringField(s: seq<byte>, ks: seq<Kind>, rest: seq<byte>)
    requires |s| + |rest| < U32_LIMIT
    ensures ParseFields([KString] + ks, U32(|s|) + s + rest) ==
            (var r := ParseFields(ks, rest); if r.None? then None else Some([Data(s)] + r.value))
  {
    hide U32, ParseString, PutString;
    StringRoundTrip(s, rest);
    PutStringIs(s);
    assert ([KString] + ks)[1..] == ks;
  }

  lemma FlagRest(b: bool, payload: seq<byte>)
    ensures ParseFields([KBool, KRest], [if b then 1 else 0] + payload) == Some([Bool(b), Data(payload)])
  {
    var s := [if b then 1 else 0] + payload;
    assert s[1..] == payload && [KBool, KRest][1..] == [KRest];
    OneField(KRest, payload, Data(payload));
    assert [Bool(b)] + [Data(payload)] == [Bool(b), Data(payload)];
  }

  /** SSH_MSG_CHANNEL_REQUEST of section 5.4: recipient, type, want reply, and data of its own. */
  lemma RequestDecodes(id: nat, name: seq<byte>, want: bool, payload: seq<byte>)
    requires id < U32_LIMIT && |name| + |payload| + 1 < U32_LIMIT
    ensures var p := [98] + U32(id) + (U32(|name|) + name + ([if want then 1 else 0] + payload));
            && Addressed(p) == Some(id) && Decodes(p)
            && Unmarshal(98, Fields(98), p) == Some([Num(id), Data(name), Bool(want), Data(payload)])
  {
    hide U32, FromU32, ParseFields;
    var rest := [if want then 1 else 0] + payload;
    FlagRest(want, payload);
    StringField(name, [KBool, KRest], rest);
    Names(98, id, [KString, KBool, KRest], U32(|name|) + name + rest);
    assert [KUint32] + [KString, KBool, KRest] == [KUint32, KString, KBool, KRest];
    assert [KString] + [KBool, KRest] == [KString, KBool, KRest];
    assert [Data(name)] + [Bool(want), Data(payload)] == [Data(name), Bool(want), Data(payload)];
    assert [Num(id)] + [Data(name), Bool(want), Data(payload)] == [Num(id), Data(name), Bool(want), Data(payload)];
  }

  /** SSH_MSG_CHANNEL_OPEN_FAILURE of section 5.1: recipient, reason, description, language. */
  lemma FailureDecodes(id: nat, reason: nat, text: seq<byte>, language: seq<byte>)
    requires id < U32_LIMIT && reason < U32_LIMIT && |text| + |language| + 4 < U32_LIMIT
    ensures var p := [92] + U32(id) + (U32(reason) + (U32(|text|) + text + (U32(|language|) + language)));
            && Addressed(p) == Some(id) && Decodes(p)
            && Unmarshal(92, Fields(92), p) == Some([Num(id), Num(reason), Data(text), Data(language)])
  {
    hide U32, FromU32, ParseFields;
    var last := U32(|language|) + language;
    LastString(language);
    StringField(text, [KString], last);
    NumberField(reason, [KString, KString], U32(|text|) + text + last);
    Names(92, id, [KUint32, KString, KString], U32(reason) + (U32(|text|) + text + last));
    assert [KUint32] + [KUint32, KString, KString] == [KUint32, KUint32, KString, KString];
    assert [KUint32] + [KString, KString] == [KUint32, KString, KString] && [KString] + [KString] == [KString, KString];
    assert [Data(text)] + [Data(language)] == [Data(text), Data(language)];
    assert [Num(reason)] + [Data(text), Data(language)] == [Num(reason), Data(text), Data(language)];
    assert [Num(id)] + [Num(reason), Data(text), Data(language)] == [Num(id), Num(reason), Data(text), Data(language)];
  }

  /** SSH_MSG_CHANNEL_WINDOW_ADJUST of section 5.2 and SSH_MSG_CHANNEL_CLOSE of section 5.3. */
  lemma AdjustDecodes(id: nat, n: nat)
    requires id < U32_LIMIT && n < U32_LIMIT
    ensures Addressed(AdjustPacket(id, n)) == Addressed(ClosePacket(id)) == Some(id)
    ensures Unmarshal(93, [KUint32, KUint32], AdjustPacket(id, n)) == Some([Num(id), Num(n)])
    ensures Unmarshal(97, [KUint32], ClosePacket(id)) == Some([Num(id)])
  {
    hide U32, FromU32;
    NumberField(n, [], []);
    Names(MSG_WINDOW_ADJUST, id, [KUint32], U32(n));
    Names(MSG_CLOSE, id, [], []);
    assert U32(n) + [] == U32(n) && [KUint32] + [] == [KUint32] && [KUint32] + [KUint32] == [KUint32, KUint32];
    assert ClosePacket(id) == [MSG_CLOSE] + U32(id) + [];
    assert [Num(n)] + [] == [Num(n)] && [Num(id)] + [Num(n)] == [Num(id), Num(n)] && [Num(id)] + [] == [Num(id)];
  }

  /** SSH_MSG_CHANNEL_OPEN_CONFIRMATION of section 5.1. */
  lemma ConfirmDecodes(peersId: nat, myId: nat, window: nat, max: nat)
    requires peersId < U32_LIMIT && myId < U32_LIMIT && window < U32_LIMIT && max < U32_LIMIT
    ensures var p := ConfirmPacket(peersId, myId, window, max);
            && Addressed(p) == Some(peersId) && |p| >= 9 && FromU32(p[5..9]) == myId
            && Unmarshal(91, [KUint32, KUint32, KUint32, KUint32, KRest], p)
               == Some([Num(peersId), Num(myId), Num(window), Num(max), Data([])])
  {
    hide U32, FromU32, ParseFields;
    assert ParseFields([KRest], []) == Some([Data([])]) by { NoRest(); }
    NumberField(max, [KRest], []);
    NumberField(window, [KUint32, KRest], U32(max) + []);
    NumberField(myId, [KUint32, KUint32, KRest], U32(window) + (U32(max) + []));
    var rest := U32(myId) + (U32(window) + (U32(max) + []));
    Names(MSG_OPEN_CONFIRM, peersId, [KUint32, KUint32, KUint32, KRest], rest);
    var p := ConfirmPacket(peersId, myId, window, max);
    assert p == [MSG_OPEN_CONFIRM] + U32(peersId) + rest && p[5..9] == U32(myId);
    U32RoundTrip(myId);
    assert [KUint32] + [KRest] == [KUint32, KRest] && [KUint32] + [KUint32, KRest] == [KUint32, KUint32, KRest];
    assert [KUint32] + [KUint32, KUint32, KRest] == [KUint32, KUint32, KUint32, KRest];
    assert [KUint32] + [KUint32, KUint32, KUint32, KRest] == [KUint32, KUint32, KUint32, KUint32, KRest];
    var a, b, c, d := Num(peersId), Num(myId), Num(window), Num(max);
    assert [d] + [Data([])] == [d, Data([])] && [c] + [d, Data([])] == [c, d, Data([])];
    assert [b] + [c, d, Data([])] == [b, c, d, Data([])] && [a] + [b, c, d, Data([])] == [a, b, c, d, Data([])];
  }

  lemma NoRest()
    ensures ParseFields([KRest], []) == Some([Data([])])
  {
    assert [KRest][1..] == [] && [Data([])] + [] == [Data([])];
  }

  // --------------------------------------------------------------------------
  // Opening
  // --------------------------------------------------------------------------

  const OPEN_FIELDS: seq<Kind> := [KString, KUint32, KUint32, KUint32, KRest]

  /** What openChannel sends: SSH_MSG_CHANNEL_OPEN of section 5.1. */
  function OpenPacket(kind: seq<byte>, id: nat, window: nat, max: nat, extra: seq<byte>): seq<byte>
    requires id < U32_LIMIT && window < U32_LIMIT && max < U32_LIMIT
  {
    Marshal(MSG_OPEN, OPEN_FIELDS, [Data(kind), Num(id), Num(window), Num(max), Data(extra)])
  }

  datatype Opening = Malformed | Refused(peersId: nat) | Opened(ch: Channel)

  /** handleChannelOpen: the new channel takes over the number, the window and the limit of its peer. */
  method OnOpen(p: seq<byte>, localId: nat) returns (r: Opening)
    requires localId < U32_LIMIT
    ensures var m := Unmarshal(MSG_OPEN, OPEN_FIELDS, p);
            && (m.None? <==> r.Malformed?)
            && (m.Some? ==> |m.value| == 5 && m.value[1].Num? && m.value[2].Num? && m.value[3].Num?)
            && (r.Refused? <==> m.Some? && !(MIN_PACKET_LENGTH <= m.value[3].n <= 0x8000_0000))
            && (r.Refused? ==> r.peersId == m.value[1].n)
            && (r.Opened? ==>
                  && fresh(r.ch) && r.ch.Valid() && r.ch.localId == localId && r.ch.remoteId == m.value[1].n
                  && r.ch.View() == State(false, false, 0, m.value[3].n, m.value[2].n, CHANNEL_WINDOW_SIZE, [], []))
  {
    hide ParseField, ParseString;
    var m := UnmarshalStruct(MSG_OPEN, OPEN_FIELDS, p);
    if m.None? {
      return Malformed;
    }
    OpenShape(p);
    var id, window, max := m.value[1].n, m.value[2].n, m.value[3].n;
    if max < MIN_PACKET_LENGTH || max > 0x8000_0000 {
      return Refused(id);
    }
    var ch := new Channel(false, localId);
    ch.remoteId := id;
    ch.maxRemote := max;
    var _ := ch.remoteWin.Add(window);
    r := Opened(ch);
  }

  /** What can be decoded has the types of the fields. */
  lemma {:induction false} DecodedTypes(ks: seq<Kind>, s: seq<byte>)
    ensures var r := ParseFields(ks, s); r.Some? ==> AllTyped(ks, r.value)
  {
    hide ParseString, IntBytes, FromTwos, Join, ParseNames, FromU32;
    if ks != [] {
      var f := ParseField(ks[0], s);
      if f.Some? {
        DecodedTypes(ks[1..], f.value.1);
      }
    }
  }

  lemma OpenShape(p: seq<byte>)
    ensures var m := Unmarshal(MSG_OPEN, OPEN_FIELDS, p); m.Some? ==> AllTyped(OPEN_FIELDS, m.value)
  {
    hide ParseFields;
    if p != [] && p[0] == MSG_OPEN {
      DecodedTypes(OPEN_FIELDS, p[1..]);
    }
  }

  /** The open message reads back as it was meant. */
  lemma OpenDecodes(kind: seq<byte>, id: nat, window: nat, max: nat, extra: seq<byte>)
    requires id < U32_LIMIT && window < U32_LIMIT && max < U32_LIMIT && |kind| + |extra| + 16 < U32_LIMIT
    ensures Unmarshal(MSG_OPEN, OPEN_FIELDS, OpenPacket(kind, id, window, max, extra))
            == Some([Data(kind), Num(id), Num(window), Num(max), Data(extra)])
  {
    hide U32, FromU32, PutString, ParseString;
    var vs := [Data(kind), Num(id), Num(window), Num(max), Data(extra)];
    OpenFaithful(kind, id, window, max, extra);
    MessageRoundTrip(MSG_OPEN, OPEN_FIELDS, vs);
  }

  lemma FaithfulField(k: Kind, v: Value, ks: seq<Kind>, vs: seq<Value>)
    requires Typed(k, v) && AllTyped(ks, vs) && AllFaithful(ks, vs) && Faithful(k, v, MarshalFields(ks, vs))
    ensures AllTyped([k] + ks, [v] + vs) && AllFaithful([k] + ks, [v] + vs)
    ensures MarshalFields([k] + ks, [v] + vs) == MarshalField(k, v) + MarshalFields(ks, vs)
  {
    hide Typed, Faithful, MarshalField;
    assert ([k] + ks)[1..] == ks && ([v] + vs)[1..] == vs;
  }

  lemma OpenFaithful(kind: seq<byte>, id: nat, window: nat, max: nat, extra: seq<byte>)
    requires id < U32_LIMIT && window < U32_LIMIT && max < U32_LIMIT && |kind| + |extra| + 16 < U32_LIMIT
    ensures AllFaithful(OPEN_FIELDS, [Data(kind), Num(id), Num(window), Num(max), Data(extra)])
  {
    hide U32, PutString, AllFaithful, MarshalFields;
    assert AllFaithful([], []) && MarshalFields([], []) == [] by { NoFields(); }
    FaithfulField(KRest, Data(extra), [], []);
    FaithfulField(KUint32, Num(max), [KRest] + [], [Data(extra)] + []);
    FaithfulField(KUint32, Num(window), [KUint32] + ([KRest] + []), [Num(max)] + ([Data(extra)] + []));
    var ks, vs := [KUint32] + ([KUint32] + ([KRest] + [])), [Num(window)] + ([Num(max)] + ([Data(extra)] + []));
    FaithfulField(KUint32, Num(id), ks, vs);
    PutLength(kind);
    FaithfulField(KString, Data(kind), [KUint32] + ks, [Num(id)] + vs);
    assert OPEN_FIELDS == [KString] + ([KUint32] + ks);
    assert [Data(kind), Num(id), Num(window), Num(max), Data(extra)] == [Data(kind)] + ([Num(id)] + vs);
  }

  lemma NoFields()
    ensures AllFaithful([], []) && MarshalFields([], []) == []
  {
  }

  // --------------------------------------------------------------------------
  // Two tables
  // --------------------------------------------------------------------------

  /** A packet is one for the channel with this number. */
  ghost predicate For(p: seq<byte>, id: nat)
    requires id < U32_LIMIT
  {
    || (exists code: nat, payload ::
          code < U32_LIMIT && |payload| < U32_LIMIT && p == DataPacket(id, code, payload))
    || (exists n: nat :: n < U32_LIMIT && p == AdjustPacket(id, n))
    || p == ClosePacket(id)
  }

  lemma ForNames(p: seq<byte>, id: nat)
    requires id < U32_LIMIT && For(p, id)
    ensures Addressed(p) == Some(id)
  {
    hide DataPacket, AdjustPacket, ClosePacket, Addressed, Unmarshal;
    if p == ClosePacket(id) {
      AdjustDecodes(id, 0);
    } else if n: nat :| n < U32_LIMIT && p == AdjustPacket(id, n) {
      AdjustDecodes(id, n);
    } else {
      var code: nat, payload :| code < U32_LIMIT && |payload| < U32_LIMIT && p == DataPacket(id, code, payload);
      DataDecodes(id, code, payload);
    }
  }

  /** A packet for the number of a slot is handled by the channel in that slot. */
  lemma Handled(t: SshMux.Table, offset: nat, slot: nat, p: seq<byte>)
    requires |t| < U32_LIMIT && slot < |t| && For(p, SshMux.IdOf(slot, offset))
    ensures Addressed(p).Some? && SshMux.Find(t, offset, Addressed(p).value) == t[slot]
  {
    hide For, Addressed;
    ForNames(p, SshMux.IdOf(slot, offset));
    SshMux.SlotInvertsId(slot, offset);
  }

  /**
   The open message of a channel in slot i of one table, and the confirmation by a channel in slot j of
   another, tie the two together: the confirmation goes to the first, and with the numbers that the two
   take over, every later packet of either is handled by the other.
   */
  lemma Paired(t: SshMux.Table, offset: nat, i: nat, u: SshMux.Table, other: nat, j: nat,
               kind: seq<byte>, window: nat, max: nat, extra: seq<byte>, back: nat, limit: nat, p: seq<byte>)
    requires |t| < U32_LIMIT && |u| < U32_LIMIT && i < |t| && j < |u|
    requires window < U32_LIMIT && max < U32_LIMIT && back < U32_LIMIT && limit < U32_LIMIT
    requires |kind| + |extra| + 16 < U32_LIMIT
    ensures var open := OpenPacket(kind, SshMux.IdOf(i, offset), window, max, extra);
            var m := Unmarshal(MSG_OPEN, OPEN_FIELDS, open);
            && m.Some? && |m.value| == 5 && m.value[1].Num? && m.value[1].n < U32_LIMIT
            && var confirm := ConfirmPacket(m.value[1].n, SshMux.IdOf(j, other), back, limit);
            && Addressed(confirm).Some? && SshMux.Find(t, offset, Addressed(confirm).value) == t[i]
            && |confirm| >= 9
            && (For(p, m.value[1].n)
                ==> Addressed(p).Some? && SshMux.Find(t, offset, Addressed(p).value) == t[i])
            && (For(p, FromU32(confirm[5..9]))
                ==> Addressed(p).Some? && SshMux.Find(u, other, Addressed(p).value) == u[j])
  {
    hide For, Addressed, Unmarshal, OpenPacket, ConfirmPacket, FromU32;
    var id, back' := SshMux.IdOf(i, offset), SshMux.IdOf(j, other);
    OpenDecodes(kind, id, window, max, extra);
    ConfirmDecodes(id, back', back, limit);
    SshMux.SlotInvertsId(i, offset);
    if For(p, id) {
      Handled(t, offset, i, p);
    }
    if For(p, back') {
      Handled(u, other, j, p);
    }
  }
}
