# Verified model of sesh's protocol core

sesh executes commands on many hosts over an SSH stack that it carries with it, together with the
sibling packages of that stack, and has a log viewer of its own. This project models the parts of
them in which something can go subtly wrong and proves what they promise.

- **SSH connection layer**: two ends of a channel as steps over FIFO links (`SshFlow`), the channel
  and its window as objects (`SshChannel`), the linked-list receive buffer (`SshBuffer`), the channel
  table and the packet loop (`SshMux`), and the messages of the two ends as bytes, from the channel
  that sends one to the channel that handles it (`SshRouting`).
- **SSH transport**: the rekeying state machine of one end (`SshHandshake`) and of two ends
  (`SshRekey`), connection state and key material (`SshTransport`), the stream, GCM and CBC packet
  framings (`SshFraming`), the wire encoding (`SshWire`).
- **OTR**: the key ratchet of one end (`OtrRatchet`), two ends (`OtrSession`), the object that
  implements it (`OtrConversation`), and the socialist millionaires' protocol (`OtrSmp`).
- **curve25519**: the ten-limb field arithmetic with its carry chains and bounds (`Field25519`,
  `FieldElement`), the scalar multiplication (`Curve25519`), and the points that it multiplies
  (`MontgomeryCurve`, `CurveLadder`).
- **OpenPGP and SHA-3 streaming**: `OpenPgpCfb`, `OpenPgpPartial`, `OpenPgpMdc`, `OpenPgpClearsign`,
  `Sha3Sponge`.
- **dircat**: the last lines of a file (`DircatTail`).

`Wrappers`, `Modular`, `Primes`, `Bits`, `ByteSeqs`, `BigEndian`, `Counter` and `Readers` hold what several of
them use: optional values, modular arithmetic, Euclid's lemma and Fermat's little theorem, bit
operations on integers, byte strings, 32-bit encodings, big-endian counters, and readers that deliver
their bytes in pieces of any size.

`dafny verify dfyconfig.toml` checks the whole project.

## How things are modelled

- Objects whose methods update fields are classes; loops over buffers are loops over arrays. Each
  method is proved against a function on values, and the theorems are about those functions.
- Goroutines are steps: a region under a lock is one step, and theorems quantify over every
  interleaving of steps.
- Block ciphers, AEAD, HMAC, hashes, Keccak-f, key exchange and modular exponentiation are function
  parameters with only the law that is needed (the AEAD opens what it sealed; a block cipher inverts;
  a hash has a fixed length; the generator has order q). Random bytes, cookies and private exponents
  are parameters. A reader is a byte sequence with an arbitrary schedule of how much each call
  delivers.
- Go's `int`, `uint32`, `int32` and `int64` are modelled with their widths wherever the width can
  matter: window arithmetic, key ids and counters, length fields, limbs and carries.

## Where the code and what it promises differ

Each of these is stated and proved where the table below says.

- Discarded extended data (codes above 1) are charged to the receive window and never credited. After
  2 MiB of them a channel is starved for good (`SshFlow.StarvedForever`); `SshFlow.Delivery` has that as
  its only exception.
- `WriteExtended` converts the remaining length to uint32: a pass makes no progress exactly on a
  multiple of 2^32, and from 2^32 bytes on a write never completes (`SshChannel.WriteProgress`,
  `SshChannel.Channel.WriteExtended`).
- `newChannel` puts a channel into the table before it assigns the channel's id. A CLOSE that names the
  channel in between empties the slot of another channel, and a second one closes the channel twice
  (`SshMux.ClosedTwice`). The channels' lives are as intended exactly in the runs without such a CLOSE
  (`SshMux.ChannelLives`, `SshMux.ExactlyAimed`, `SshMux.PoliteIsAimed`).
- `prepareKeyChange` uses the write and read algorithms regardless of role. It is right because
  `sendKexInitLocked` offers the same lists in both directions (`SshHandshake.SymmetricAgreement`).
- The framings refuse an empty payload and one whose padded length exceeds maxPacket, although the
  stream writer accepts both (`SshFraming.FrameRoundTrip`). An authentic GCM packet with an empty
  plaintext makes the reader index out of range, and nothing else does (`SshFraming.GcmPanics`,
  `SshFraming.GcmPanicReached`).
- `Unmarshal` refuses exactly the wholly empty message among those `Marshal` writes
  (`SshWire.MessageRoundTrip`), and a name list reads back exactly when it is comma-free and not
  `[""]` (`SshWire.NamesRoundTrip`).
- OTR's "no more key slots", called an internal error, can be brought about from outside, because the
  slot is looked for before the ids and the authenticator are checked; it never hits a live pair of
  ids (`OtrRatchet.SlotsRunOut`, `OtrRatchet.CalcKeeps`). Equal public values on both ends make both
  take the low end (`OtrRatchet.KeysSwap`). The counter wraps after 2^64 messages, and the message that
  then carries counter zero is refused (`OtrSession.CounterWraps`, `OtrSession.WrapReached`).
- The comment on line 476 of curve25519.go bounds h8 by 1.52*2^33, which operands within bounds exceed
  by far (`FieldElement.EightStaysWide`); the code is right (`FieldElement.FeMul`).
- `feFromBytes` does not mask bit 255, unlike section 5 of RFC 7748: it decodes what the RFC decodes
  exactly when that bit is clear (`Curve25519.MaskMatters`, `Curve25519.TopBitCounts`).
- The partial length writer keeps to the 512 bytes that section 4.2.2.4 of RFC 4880 asks of a first
  partial length exactly when its first write does (`OpenPgpPartial.FirstPartialLength`). The version
  byte of an encrypted packet is a write of its own, so no such packet does
  (`OpenPgpMdc.SealedIsPartial`). The reader accepts it.
- `partialLengthReader.Read` reports a clean end of a packet that is cut off exactly when the source
  gave all it was asked for together with its own end, or when an earlier call has failed for want of a
  length and left a zero: the number that comes with the error overwrites the state, and it is zero
  unless the first of two bytes, 193 to 223, was there (`OpenPgpPartial.BodyReader.ReadPartial`, `OpenPgpPartial.CutOffEndsCleanly`). `seMDCReader`
  inherits that: closed before Read has come to an end, it accepts a packet that is cut off exactly then,
  if the code before the cut is valid (`OpenPgpMdc.MdcReader.Close`, `OpenPgpMdc.CloseAfterFailure`). A
  small buffer goes further: any error behind a short refill counts as the end of the data
  (`OpenPgpMdc.UnsealCutOff`).
- The body loop of clearsign's `Decode` ends exactly on texts in which some line is the end marker
  (`OpenPgpClearsign.EndsWithMarker`, `OpenPgpClearsign.NeverEnds`).
- The SHA-3 state's `clone` computes its read position from the capacity of the buffer. While
  squeezing that is right exactly for the rate 168; for others it panics or repeats output
  (`Sha3Sponge.State.Clone`, `Sha3Sponge.CloneBreaks`).
- `TailFile` gives the last lines exactly when none of them is longer than 65535 bytes or ends in a
  carriage return (`DircatTail.TailIsLast`, `DircatTail.ReturnBreaks`, `DircatTail.LongBreaks`).

## Model

| member | source | states |
|---|---|---|
| `SshFlow.WindowConserved` | golang.org/x/crypto/ssh/channel.go:230-366 | In every state that two channel ends can reach over FIFO links, in any interleaving: usable + reserved + in-flight + returning window equals the receive window, and that plus buffered, uncredited and discarded bytes equals the window size, in both directions |
| `SshFlow.NeverRefused` | golang.org/x/crypto/ssh/channel.go:284-342 | In every reachable state the next packet of either link is accepted (no "remote side wrote too much", no oversized or mis-sized payload, no window-add overflow), and the receive window never exceeds its initial setting |
| `SshFlow.ReadInOrder` | golang.org/x/crypto/ssh/channel.go:230-366 | What was read on streams 0 and 1 is at every moment a prefix of what was written on them |
| `SshFlow.Delivery` | golang.org/x/crypto/ssh/channel.go:230-366 | From any reachable state every run without new writes is finite, and where it stops every byte written was read, in order, unless a full window of other extended data was discarded |
| `SshFlow.QuietMeansDelivered` | golang.org/x/crypto/ssh/channel.go:230-366 | A state in which no goroutine can move has delivered everything, under the same condition |
| `SshFlow.WriterMoves` | golang.org/x/crypto/ssh/channel.go:230-282 | A writer with bytes left is never stuck while less than a window was discarded |
| `SshFlow.RunsEnd` | golang.org/x/crypto/ssh/channel.go:230-366 | The length of any run without new writes is bounded by a measure of the state |
| `SshFlow.Starved` | golang.org/x/crypto/ssh/channel.go:323-329 | Discarded bytes are not credited: once they fill the window, the next step is no reservation and reads nothing |
| `SshFlow.StarvedForever` | golang.org/x/crypto/ssh/channel.go:323-329 | The converse half of Delivery: in every state that any run reaches from there, no write gets a reservation, the bytes read are the same as before, and a stream that was not delivered stays undelivered |
| `SshFlow.NothingFlows` | golang.org/x/crypto/ssh/channel.go:323-329 | What the links and buffers then hold: no window, no buffered bytes, no data at the head of the link |
| `SshFlow.StarvationReachable` | golang.org/x/crypto/ssh/channel.go:323-329 | Such a state is reachable from a freshly opened channel, so the condition in Delivery is needed |
| `SshFlow.DeliverAccepted` | golang.org/x/crypto/ssh/channel.go:284-331 | Under the invariant the head of the link fits the receiver's window and is handled without error |
| `SshFlow.ActKeeps` | golang.org/x/crypto/ssh/channel.go:230-366 | Every step of one end keeps conservation, order, limits and handshake of both directions, and none fails |
| `SshFlow.StepKeeps` | golang.org/x/crypto/ssh/channel.go:230-366 | The same for steps of either end |
| `SshFlow.ReachableInv` | golang.org/x/crypto/ssh/channel.go:230-366 | The invariant holds in every reachable state |
| `BigEndian.FromU32IsBig` | golang.org/x/crypto/ssh/messages.go:543-548 | A 32-bit number is read most significant byte first |
| `BigEndian.U32IsBig` | golang.org/x/crypto/ssh/messages.go:582-585 | And written so |
| `SshChannel.HandleDataPacket` | golang.org/x/crypto/ssh/channel.go:284-331 | A data packet built by the writer is accepted exactly when it fits both limits, is charged to the window, and lands in its stream or is discarded; an empty one is ignored |
| `SshChannel.HandleAdjustPacket` | golang.org/x/crypto/ssh/channel.go:436-439 | A window adjustment is added, or refused exactly when the sum would wrap |
| `SshChannel.HandleConfirmPacket` | golang.org/x/crypto/ssh/channel.go:425-435 | An open confirmation, with every refusal: on an inbound channel, a second time, or with a packet limit out of range; otherwise it sets the limit and adds the window |
| `SshChannel.AnsweredOnce` | golang.org/x/crypto/ssh/channel.go:385-394 | A confirmation or failure is taken exactly on a channel that was opened from here and has no answer yet; otherwise it changes nothing and is an error |
| `SshChannel.AtMostOneAnswer` | golang.org/x/crypto/ssh/channel.go:385-435 | In any sequence of packets at most one counts as the answer to the open request |
| `SshChannel.HandedOnExactly` | golang.org/x/crypto/ssh/channel.go:396-453 | Among the messages for a channel, those that are neither window, data, end nor close go on to its owner; a request leaves windows and buffers alone and is refused exactly if it does not decode |
| `SshChannel.WriteProgress` | golang.org/x/crypto/ssh/channel.go:132-137 | Each pass of the write loop makes progress exactly when the peer's limit is not zero and the length is not a multiple of 2^32; from 2^32 bytes on the remainder never gets below 2^32 |
| `SshChannel.Window.Add` | golang.org/x/crypto/ssh/common.go:295-312 | Adds, or reports overflow without changing the window |
| `SshChannel.Window.Close` | golang.org/x/crypto/ssh/common.go:316-321 | Marks the window closed and keeps its size |
| `SshChannel.Window.Reserve` | golang.org/x/crypto/ssh/common.go:326-344 | Takes at most what is asked for, never zero when it succeeds; waits exactly while the window is empty and open; window and grants are conserved |
| `SshChannel.Channel.constructor` | golang.org/x/crypto/ssh/channel.go:455-471 | A new channel has the full receive window, empty open buffers, no remote window, and the id that it was given |
| `SshChannel.Channel.WritePacket` | golang.org/x/crypto/ssh/channel.go:206-216 | Nothing goes out after a close message |
| `SshChannel.Channel.WriteExtended` | golang.org/x/crypto/ssh/channel.go:230-282 | For every length: the packets sent are one per chunk, the chunks join to a prefix of the data and respect the peer's limit, and the window pays for exactly the bytes sent; below 2^32 bytes and with a limit above zero the loop ends within as many passes as bytes, from 2^32 bytes on it never completes |
| `SshChannel.Channel.WriteChunk` | golang.org/x/crypto/ssh/channel.go:249-275 | One pass sends the largest chunk that the window allows, in a packet that decodes to the id of the other end (SshRouting.DataDecodes) |
| `SshChannel.Channel.OnData` | golang.org/x/crypto/ssh/channel.go:284-331 | The buffers and the window change as the packet handler specifies, error cases included |
| `SshChannel.Channel.AdjustWindow` | golang.org/x/crypto/ssh/channel.go:333-342 | Adds to the receive window modulo 2^32 and sends the message unless closed |
| `SshChannel.Channel.ReadExtended` | golang.org/x/crypto/ssh/channel.go:344-366 | Delivers the longest available prefix of the stream, credits exactly that many bytes, and reports unknown codes; EOF exactly on an empty ended stream, waiting exactly on an empty open one |
| `SshChannel.Channel.Accept` | golang.org/x/crypto/ssh/channel.go:489-506 | Answers the open request once and announces window and packet limit |
| `SshChannel.Channel.OnConfirm` | golang.org/x/crypto/ssh/channel.go:425-435 | Takes over the peer's limits as the packet handler specifies |
| `SshChannel.Channel.OnAdjust` | golang.org/x/crypto/ssh/channel.go:436-439 | Takes over a window adjustment as the packet handler specifies |
| `SshChannel.Channel.OnClose` | golang.org/x/crypto/ssh/channel.go:368-404 | Answers a close once; afterwards writers, readers and the wire are shut |
| `SshChannel.Channel.OnPacket` | golang.org/x/crypto/ssh/channel.go:396-453 | Dispatch agrees with the packet handler for every channel message, errors included, with the flags of both buffers, the window and the wire, the one CLOSE that is answered, and the messages handed on to the owner of the channel |
| `SshChannel.Channel.OnFailure` | golang.org/x/crypto/ssh/channel.go:385-394 | A refused open is taken once and only on a channel opened from here |
| `SshRouting.DataDecodes` | golang.org/x/crypto/ssh/channel.go:230-282 | The packets of WriteExtended name the channel that they are for: bytes 1 to 5, which the packet loop looks up, are the id, and Unmarshal gives id, code and payload back |
| `SshRouting.TakenDecodes` | golang.org/x/crypto/ssh/channel.go:284-331 | The converse at the receiver: a packet that changes the state decodes as a data message, and the state changes by its code and payload |
| `SshRouting.AdjustDecodes` | golang.org/x/crypto/ssh/channel.go:333-342 | The same for window adjustments and close messages |
| `SshRouting.ConfirmDecodes` | golang.org/x/crypto/ssh/channel.go:489-506 | The same for the confirmation of an open request: both ids, window and packet limit |
| `SshRouting.RequestDecodes` | golang.org/x/crypto/ssh/messages.go:184-189 | The same for a request with its name, its flag and its own data |
| `SshRouting.FailureDecodes` | golang.org/x/crypto/ssh/messages.go:175-180 | The same for the refusal of an open request |
| `SshRouting.OpenDecodes` | golang.org/x/crypto/ssh/mux.go:332-342 | The same for an open request: type, id, window, packet limit and data of its own |
| `SshRouting.OnOpen` | golang.org/x/crypto/ssh/mux.go:299-321 | An open request that decodes gives a channel with the peer's id, window and limit, refused exactly for a limit out of range; one that does not decode is an error |
| `SshRouting.Handled` | golang.org/x/crypto/ssh/mux.go:223-261 | A packet that names a channel in the table is handled by that channel: the id of its slot leads back to the slot |
| `SshRouting.Paired` | golang.org/x/crypto/ssh/mux.go:223-261 | Open request and confirmation tie the channels of the two ends together: every data, adjust and close packet that one of them sends afterwards is handled by the other |
| `SshBuffer.Buffer.constructor` | golang.org/x/crypto/ssh/buffer.go:32-40 | An empty queue |
| `SshBuffer.Buffer.Write` | golang.org/x/crypto/ssh/buffer.go:44-51 | The linked list refines a byte queue: write appends |
| `SshBuffer.Buffer.Eof` | golang.org/x/crypto/ssh/buffer.go:55-61 | Closing keeps the contents |
| `SshBuffer.Buffer.Read` | golang.org/x/crypto/ssh/buffer.go:65-98 | Removes the longest available prefix that fits, across elements; EOF exactly when closed and drained, waiting exactly when open and empty; the loop terminates |
| `SshMux.ChannelLives` | golang.org/x/crypto/ssh/mux.go:196-261 | In every interleaving of opens (entering the table and learning the id being two steps), packets, writes and failures in which each CLOSE is aimed at its own slot: slots hold different channels, close runs at most once per channel, nothing is sent into its Go channels later, at most one CLOSE reaches the wire with nothing after it, and while the table has fewer than 2^32 slots an id finds its channel |
| `SshMux.ExactlyAimed` | golang.org/x/crypto/ssh/mux.go:196-261 | The condition is exact: a step is aimed if and only if no continuation breaks the life of a channel |
| `SshMux.PoliteIsAimed` | golang.org/x/crypto/ssh/channel.go:455-471 | Runs in which no CLOSE names a channel between its entry in the table and the assignment of its id, and the table stays below 2^32 slots, are such runs |
| `SshMux.InboundIsPolite` | golang.org/x/crypto/ssh/mux.go:299-327 | Without channels opened from this side every run whose table stays below 2^32 slots is one, because the loop itself assigns the ids of the others |
| `SshMux.ClosedTwice` | golang.org/x/crypto/ssh/channel.go:396-404 | The condition can fail: two CLOSEs for a channel that does not know its id yet close it twice and empty the slot of another channel, which is never closed |
| `SshMux.RunInv` | golang.org/x/crypto/ssh/mux.go:196-261 | The invariant behind it over every such run, of any length and table size |
| `SshMux.StepKeeps` | golang.org/x/crypto/ssh/mux.go:223-261 | Every step of the loop and of the other goroutines keeps it |
| `SshMux.FindInvertsAdd` | golang.org/x/crypto/ssh/mux.go:36-59 | getChan inverts add under offset arithmetic modulo 2^32 exactly while the table has fewer than 2^32 slots |
| `SshMux.FindKeepsOthers` | golang.org/x/crypto/ssh/mux.go:36-59 | Adding a channel does not change what the other ids find |
| `SshMux.SlotInvertsId` | golang.org/x/crypto/ssh/mux.go:50-59 | The id arithmetic inverts for every slot and offset |
| `SshMux.ChanList.Add` | golang.org/x/crypto/ssh/mux.go:36-47 | Uses the first free slot and returns its id |
| `SshMux.ChanList.GetChan` | golang.org/x/crypto/ssh/mux.go:50-59 | Finds the slot of an id, or nothing |
| `SshMux.ChanList.Remove` | golang.org/x/crypto/ssh/mux.go:61-68 | Frees the slot of an id and nothing else |
| `SshMux.ChanList.DropAll` | golang.org/x/crypto/ssh/mux.go:71-84 | Returns the live channels in slot order and empties the table |
| `SshHandshake.TraceOrder` | golang.org/x/crypto/ssh/handshake.go:166-375 | In every sequence of events of one end, after failed exchanges and wrongly guessed packets too: the "no key material" panic and a blocking pending slot do not occur, and between a KEXINIT and a later KEXINIT or upper-layer packet there is a NEWKEYS |
| `SshHandshake.RunCalm` | golang.org/x/crypto/ssh/handshake.go:166-375 | The scanned phase of the outgoing trace agrees with the state after every event sequence |
| `SshHandshake.StepCalm` | golang.org/x/crypto/ssh/handshake.go:166-375 | Every step keeps that and writes at most one packet |
| `SshHandshake.Orderly` | golang.org/x/crypto/ssh/handshake.go:232-297 | A trace accepted by the scanner has a NEWKEYS between any KEXINIT and a later KEXINIT or upper-layer packet |
| `SshHandshake.NewKeysBetween` | golang.org/x/crypto/ssh/handshake.go:232-297 | It gives the position of that NEWKEYS |
| `SshHandshake.FindCommonLoop` | golang.org/x/crypto/ssh/common.go:88-97 | The first client entry the server also offers, and none exactly when there is none |
| `SshHandshake.CommonExactly` | golang.org/x/crypto/ssh/common.go:88-97 | The search gives the first of the client's names that the server has too, and nothing exactly if the lists are disjoint |
| `SshHandshake.AgreedExactly` | golang.org/x/crypto/ssh/common.go:112-156 | For any two KEXINITs each of the eight algorithms is the first entry of the client's list for that purpose and direction that the server's list has too; there is no agreement exactly if one of the eight pairs of lists is disjoint |
| `SshHandshake.ConfigAgreement` | golang.org/x/crypto/ssh/handshake.go:232-338 | From the configurations of the two ends, whichever of them computes it: the client's first choice among the server's names for every purpose, no agreement exactly if some lists are disjoint |
| `SshHandshake.GuessSkipped` | golang.org/x/crypto/ssh/handshake.go:340-347 | A packet that the peer sent on a guess is ignored exactly if the guess was wrong, and the exchange goes on as without it; the list that is indexed is never empty |
| `SshHandshake.Tallied` | golang.org/x/crypto/ssh/handshake.go:166-297 | In every run of events the counter behind the rekeying threshold is the number of bytes handed over since the last exchange ended |
| `SshHandshake.StepCounts` | golang.org/x/crypto/ssh/handshake.go:166-297 | What each step does to the counters of bytes written and read |
| `SshHandshake.SymmetricAgreement` | golang.org/x/crypto/ssh/handshake.go:232-272 | With the KEXINITs of sendKexInitLocked both directions get the same algorithms, which prepareKeyChange relies on |
| `SshRekey.RekeyInLockstep` | golang.org/x/crypto/ssh/transport.go:83-158 | Two ends, any number of key exchanges, any interleaving: the packet at the head of a link has the cipher, keys and sequence number its reader uses; no panic, no blocked slot, no unexpected NEWKEYS, no failed read |
| `SshRekey.RunInv` | golang.org/x/crypto/ssh/transport.go:83-158 | The two-end invariant after every sequence of turns |
| `SshRekey.SysKeeps` | golang.org/x/crypto/ssh/transport.go:83-158 | Every turn keeps it |
| `SshRekey.HeadMatches` | golang.org/x/crypto/ssh/transport.go:110-158 | The next packet matches the reader's cipher and number and is one the read loop expects |
| `SshRekey.CipherMeet` | golang.org/x/crypto/ssh/transport.go:83-103 | After n key changes both ends derive the same cipher for a direction |
| `SshRekey.SenderKeeps` | golang.org/x/crypto/ssh/transport.go:138-158 | Appending a written packet keeps the link in step with its reader |
| `SshRekey.QuietStep` | golang.org/x/crypto/ssh/handshake.go:232-375 | Steps that take no packet keep the end's invariant and emit under the current cipher and number |
| `SshRekey.TakingStep` | golang.org/x/crypto/ssh/handshake.go:166-212 | Steps that take an expected packet keep it and do not fail |
| `SshTransport.ConnectionState.WritePacket` | golang.org/x/crypto/ssh/transport.go:138-158 | Cipher of the moment, sequence number up by one modulo 2^32, switch after NEWKEYS; panics exactly on a NEWKEYS without key material, and what has changed then |
| `SshTransport.ConnectionState.ReadPacket` | golang.org/x/crypto/ssh/transport.go:110-132 | The reading side; refuses exactly a NEWKEYS nobody prepared |
| `SshTransport.Transport.PrepareKeyChange` | golang.org/x/crypto/ssh/transport.go:83-103 | Both pending slots are filled for their directions; blocks exactly on a full slot, the reader's first; the first exchange hash names the session for good |
| `SshTransport.HandshakeWriter.SendKexInitLocked` | golang.org/x/crypto/ssh/handshake.go:232-272 | At most one KEXINIT is outstanding; none goes out once the connection is closed |
| `SshTransport.HandshakeWriter.TryWrite` | golang.org/x/crypto/ssh/handshake.go:274-297 | A packet goes out exactly when no exchange is under way and none has failed; passing the threshold starts one; the object follows the request and write steps that SshHandshake.TraceOrder is about, after a failed exchange too |
| `SshTransport.AttemptBounded` | golang.org/x/crypto/ssh/handshake.go:274-297 | Bytes are written only while the count is within the threshold, so that it is passed by one packet at most; past it the next attempt starts a key exchange |
| `SshTransport.GenerateKeyMaterial` | golang.org/x/crypto/ssh/transport.go:242-265 | The buffer is a prefix of the digest stream of section 7.2 of RFC 4253, for every length |
| `SshTransport.MaterialUnique` | golang.org/x/crypto/ssh/transport.go:242-265 | The material does not depend on how many digests were computed |
| `SshTransport.DigestsPrefix` | golang.org/x/crypto/ssh/transport.go:242-265 | Fewer digests are a prefix of more |
| `SshFraming.PacketsRoundTrip` | golang.org/x/crypto/ssh/cipher.go:144-552 | For the stream, GCM and CBC framings any readable sequence of packets is read back identically, exactly the bytes written are consumed, and cipher states stay in step |
| `SshFraming.FrameRoundTrip` | golang.org/x/crypto/ssh/cipher.go:144-552 | One packet reads back if and only if it is not empty and its padded length is within maxPacket |
| `SshFraming.StreamRoundTrip` | golang.org/x/crypto/ssh/cipher.go:144-246 | The same for the stream framing, with the exact error otherwise |
| `SshFraming.GcmRoundTrip` | golang.org/x/crypto/ssh/cipher.go:274-352 | The same for GCM, with the next nonce |
| `SshFraming.CbcRoundTrip` | golang.org/x/crypto/ssh/cipher.go:408-552 | The same for CBC, with the chained block |
| `SshFraming.PacketsExactly` | golang.org/x/crypto/ssh/cipher.go:144-552 | In every framing the reader gives out a sequence of packets if and only if the input is those packets, framed in this order under consecutive sequence numbers with the right authenticators, and what follows |
| `SshFraming.ParseExactly` | golang.org/x/crypto/ssh/cipher.go:144-552 | The same for one packet and any framing |
| `SshFraming.StreamExactly` | golang.org/x/crypto/ssh/cipher.go:144-194 | Whatever arrives: a packet is read if and only if the input starts with its frame under some padding, MAC included; the key stream then stands behind the frame |
| `SshFraming.GcmExactly` | golang.org/x/crypto/ssh/cipher.go:317-352 | The same for GCM: if and only if the input is a length and a ciphertext that opens under it to the padded packet |
| `SshFraming.GcmFrames` | golang.org/x/crypto/ssh/cipher.go:317-352 | With an AEAD that opens nothing but what it seals, only frames of the writer are read |
| `SshFraming.CbcExactly` | golang.org/x/crypto/ssh/cipher.go:422-496 | The same for CBC: if and only if the input starts with the frame of the packet, of whole blocks |
| `SshFraming.StreamNumbered` | golang.org/x/crypto/ssh/cipher.go:177-187 | A frame for one sequence number is refused at another, as far as the MAC tells them apart |
| `SshFraming.CbcNumbered` | golang.org/x/crypto/ssh/cipher.go:482-492 | The same for CBC |
| `SshFraming.CbcPaddingSame` | golang.org/x/crypto/ssh/cipher.go:498-508 | The CBC padding formula equals the one of the other framings, so padding is 4 to 19 and aligned |
| `SshFraming.CbcCheckExact` | golang.org/x/crypto/ssh/cipher.go:437-455 | What the CBC reader rejects by length is exactly the empty and the oversized payloads |
| `SshFraming.Padding` | golang.org/x/crypto/ssh/cipher.go:202-205 | Padding is between 4 and 19 and aligns the frame |
| `SshFraming.ReadableRange` | golang.org/x/crypto/ssh/cipher.go:144-194 | Payloads of 1 to maxPacket - 20 bytes always fit |
| `SshFraming.NextIVCounts` | golang.org/x/crypto/ssh/cipher.go:308-315 | The nonce keeps its fixed part and its counter adds one modulo 2^64 |
| `SshFraming.StreamPacketCipher.XorKeyStream` | golang.org/x/crypto/ssh/cipher.go:39-41 | In-place key stream over part of a buffer |
| `SshFraming.StreamPacketCipher.WritePacket` | golang.org/x/crypto/ssh/cipher.go:197-246 | Writes the specified frame and advances the key stream by its length; refuses exactly oversized packets |
| `SshFraming.StreamPacketCipher.ReadPacket` | golang.org/x/crypto/ssh/cipher.go:144-194 | Parses whatever bytes arrive, in whatever pieces, to what SshFraming.StreamExactly says of them |
| `SshFraming.GcmCipher.IncIV` | golang.org/x/crypto/ssh/cipher.go:308-315 | In-place increment |
| `SshFraming.GcmCipher.WritePacket` | golang.org/x/crypto/ssh/cipher.go:274-306 | Writes the specified frame and moves to the next nonce |
| `SshFraming.GcmCipher.ReadPacket` | golang.org/x/crypto/ssh/cipher.go:317-352 | Parses to what SshFraming.GcmExactly says; an authentic empty plaintext is the panic of the original |
| `SshFraming.GcmPanics` | golang.org/x/crypto/ssh/cipher.go:317-352 | The reader indexes out of range if and only if the announced length is zero and the tag is the valid one of an empty plaintext |
| `SshFraming.GcmPanicReached` | golang.org/x/crypto/ssh/cipher.go:317-352 | The seal of nothing under the length zero is such a packet, for every key and nonce and whatever follows |
| `SshFraming.CbcCipher.WritePacket` | golang.org/x/crypto/ssh/cipher.go:498-552 | Writes the specified frame and chains the last block |
| `SshFraming.CbcCipher.ReadPacket` | golang.org/x/crypto/ssh/cipher.go:422-496 | Parses to what SshFraming.CbcExactly says |
| `SshWire.IntRoundTrip` | golang.org/x/crypto/ssh/messages.go:519-541 | parseInt inverts marshalInt for every integer |
| `SshWire.IntBytesLength` | golang.org/x/crypto/ssh/messages.go:557-580 | intLength announces exactly the bytes marshalInt writes |
| `SshWire.IntShortest` | golang.org/x/crypto/ssh/messages.go:592-637 | No two's complement encoding of the number is shorter |
| `SshWire.MarshalInt` | golang.org/x/crypto/ssh/messages.go:592-637 | The in-place writer produces length and contents |
| `SshWire.StringRoundTrip` | golang.org/x/crypto/ssh/messages.go:482-495 | parseString inverts the string encoding in front of any rest |
| `SshWire.StringExactly` | golang.org/x/crypto/ssh/messages.go:482-495 | It does if and only if the length fits 32 bits and the truncated length of what is left is not below it |
| `SshWire.NamesRoundTrip` | golang.org/x/crypto/ssh/messages.go:502-517 | A name list reads back if and only if no name has a comma and it is not the list of one empty name |
| `SshWire.FieldRoundTrip` | golang.org/x/crypto/ssh/messages.go:285-478 | Every field type reads back in front of any rest, for strings and rests below 2^32 bytes and name lists that read back |
| `SshWire.FieldsRoundTrip` | golang.org/x/crypto/ssh/messages.go:285-478 | Every list of field types reads back, for strings and rests below 2^32 bytes and name lists that read back |
| `SshWire.MessageRoundTrip` | golang.org/x/crypto/ssh/messages.go:285-478 | For every tag and field list Unmarshal inverts Marshal, if and only if the message is not wholly empty, for strings and rests below 2^32 bytes and name lists that read back |
| `SshWire.MessageParsed` | golang.org/x/crypto/ssh/messages.go:285-388 | The converse, for every field list without flags and big integers and whatever the bytes are: what Unmarshal accepts is what Marshal writes for the values it gives |
| `SshWire.FieldParsed` | golang.org/x/crypto/ssh/messages.go:285-388 | The same for one field and what follows it |
| `SshWire.MarshalStruct` | golang.org/x/crypto/ssh/messages.go:399-478 | The loop of marshalStruct computes that encoding |
| `SshWire.UnmarshalStruct` | golang.org/x/crypto/ssh/messages.go:285-387 | The loop of Unmarshal computes that decoding, errors included |
| `SshWire.TuplesRoundTrip` | golang.org/x/crypto/ssh/certs.go:100-157 | parseTuples inverts marshalTuples for every map of options |
| `SshWire.TuplesParsed` | golang.org/x/crypto/ssh/certs.go:120-157 | The converse: what parseTuples accepts is the tuples of the map in strictly ascending order of their names, none twice, and nothing else |
| `SshWire.SerializeTuples` | golang.org/x/crypto/ssh/certs.go:100-116 | Whatever order the map gives its names in, the output is the sorted encoding and reads back as the map |
| `SshWire.SortedNames` | golang.org/x/crypto/ssh/certs.go:100-105 | The names of every map in strictly ascending order |
| `SshWire.ParseTuplesLoop` | golang.org/x/crypto/ssh/certs.go:120-157 | The loop of parseTuples computes the decoding, with every error case |
| `OtrSession.SessionDelivers` | golang.org/x/crypto/otr/otr.go:844-1101 | Two ends after a key exchange, FIFO links, any interleaving with fewer than 2^64 sends per end in which no message names two equal public values: sending never panics, every arriving message is accepted, each end's view of the other's key id is at most one behind, and the texts received are the texts sent, in order |
| `OtrSession.ReachableInv` | golang.org/x/crypto/otr/otr.go:844-1101 | The invariant behind it in every reachable state |
| `OtrSession.StepKeeps` | golang.org/x/crypto/otr/otr.go:844-1101 | Every send and delivery keeps it |
| `OtrSession.SendKeeps` | golang.org/x/crypto/otr/otr.go:956-1008 | Sending keeps it: the message names ids its receiver still holds |
| `OtrSession.SendAuthentic` | golang.org/x/crypto/otr/otr.go:956-1008 | Without any bound: the message sent carries a correct authenticator under keys its receiver still has, and the next counter modulo 2^64 |
| `OtrSession.DeliverAccepted` | golang.org/x/crypto/otr/otr.go:863-954 | The next message is accepted and decrypts to the text that was sent |
| `OtrSession.DeliverKeeps` | golang.org/x/crypto/otr/otr.go:863-954 | Delivering keeps the invariant |
| `OtrSession.CounterWraps` | golang.org/x/crypto/otr/otr.go:956-1017 | After the last counter the honest sender emits counter zero, and a peer who has taken everything before refuses exactly that message as a replay |
| `OtrSession.WrapReached` | golang.org/x/crypto/otr/otr.go:956-1017 | Every session whose ends draw no public value in common has a run to that state, so the bound on sends in SessionDelivers is needed |
| `OtrRatchet.SessionSafe` | golang.org/x/crypto/otr/otr.go:863-1101 | One end fed any events: used slots are for different live id pairs and equal recomputation, sending does not panic, every accepted message arrived and was authentic and new for the pair of keys it is recorded under, and none is accepted twice |
| `OtrRatchet.HappensKeeps` | golang.org/x/crypto/otr/otr.go:863-1101 | Every event keeps the record of accepted counters ahead of the cache |
| `OtrRatchet.AcceptRemembers` | golang.org/x/crypto/otr/otr.go:863-954 | Accepting a message makes it and all older counters of its ids refused from then on |
| `OtrRatchet.RefusedRemembers` | golang.org/x/crypto/otr/otr.go:863-954 | Refusing one forgets nothing |
| `OtrRatchet.CalcKeeps` | golang.org/x/crypto/otr/otr.go:1021-1101 | For live ids the slot of the pair is reused or freshly computed and nothing else changes; for others an error, "no more key slots" exactly when all slots are taken |
| `OtrRatchet.LiveFound` | golang.org/x/crypto/otr/otr.go:1021-1040 | A live pair is cached or finds a free slot |
| `OtrRatchet.SlotsRunOut` | golang.org/x/crypto/otr/otr.go:1021-1062 | "no more key slots" is reachable: four messages with a wrong authenticator of the right length, and then ids outside the window |
| `OtrRatchet.RotateKeeps` | golang.org/x/crypto/otr/otr.go:844-861 | Rotation keeps the cache valid |
| `OtrRatchet.AdvanceKeeps` | golang.org/x/crypto/otr/otr.go:919-932 | Advancing the peer's key keeps it valid |
| `OtrRatchet.ProcessKeeps` | golang.org/x/crypto/otr/otr.go:863-954 | Every message, genuine or not, keeps it valid |
| `OtrRatchet.GenerateKeeps` | golang.org/x/crypto/otr/otr.go:956-1008 | Sending keeps it valid and never panics |
| `OtrRatchet.TurnShape` | golang.org/x/crypto/otr/otr.go:916-932 | What accepting a message does to key ids and keys, and that surviving slots are unchanged |
| `OtrRatchet.GenerateShape` | golang.org/x/crypto/otr/otr.go:956-1008 | What a message carries: ids, announced key, counter, text and authenticator under the derived keys |
| `OtrRatchet.ProcessGenuine` | golang.org/x/crypto/otr/otr.go:863-954 | A genuine message for live ids with a new counter is accepted and decrypted |
| `OtrRatchet.ProcessStale` | golang.org/x/crypto/otr/otr.go:900-904 | An authentic one for live ids with counter zero is refused as a replay |
| `OtrRatchet.AcceptedExactly` | golang.org/x/crypto/otr/otr.go:863-954 | In every valid state a message is accepted if and only if its authenticator is right under the receiving key of the live pair that it names and its counter is new; the text is then its decryption. When it is ignored, refused as a replay or for its authenticator, and that ids, keys and counters stay without acceptance |
| `OtrRatchet.RunReceived` | golang.org/x/crypto/otr/otr.go:863-954 | Along any run every recorded message is an event of that run, authentic and new when it arrived |
| `OtrRatchet.Published` | golang.org/x/crypto/otr/otr.go:844-932 | The MAC keys that a message puts up for publication are receiving keys of pairs that were live and are not any more, and all of those that were in use |
| `OtrRatchet.SecretIs` | golang.org/x/crypto/otr/otr.go:1074-1075 | The secret is the generator to the product of the two private values |
| `OtrRatchet.KeysSwap` | golang.org/x/crypto/otr/otr.go:1064-1093 | The two ends derive the same keys with sending and receiving exchanged if their public values differ, the one with the higher value sending under the prefix 1; if they are equal, the keys of the two ends coincide |
| `OtrRatchet.SharedSecret` | golang.org/x/crypto/otr/otr.go:1074-1075 | Both ends compute the same secret |
| `OtrRatchet.CryptInverse` | golang.org/x/crypto/otr/otr.go:906-914 | Decryption with the same key and counter undoes encryption |
| `OtrConversation.IncCounter` | golang.org/x/crypto/otr/otr.go:1010-1017 | Adds one modulo 2^64 in place |
| `OtrConversation.Conversation.CalcDataKeys` | golang.org/x/crypto/otr/otr.go:1021-1101 | The loops compute the specified slot or error |
| `OtrConversation.Conversation.RotateDHKeys` | golang.org/x/crypto/otr/otr.go:844-861 | Rotation with eviction and publication of old MAC keys |
| `OtrConversation.Conversation.AdvanceTheirKey` | golang.org/x/crypto/otr/otr.go:919-932 | The peer's rotation |
| `OtrConversation.Conversation.DropMine` | golang.org/x/crypto/otr/otr.go:845-852 | Eviction of a retired key of ours, its MAC keys kept in slot order |
| `OtrConversation.Conversation.DropTheirs` | golang.org/x/crypto/otr/otr.go:921-927 | The same for a key of theirs |
| `OtrConversation.Conversation.ProcessData` | golang.org/x/crypto/otr/otr.go:863-954 | The object's state and result are the specified ones for every message; in a valid conversation a message is accepted if and only if it is authentic and new, and the conversation stays valid |
| `OtrConversation.Conversation.GenerateData` | golang.org/x/crypto/otr/otr.go:956-1008 | The object's state and message are the specified ones; the panic of the original exactly where the specification has none, and never in a valid conversation |
| `Counter.Increment` | golang.org/x/crypto/otr/otr.go:1010-1017 | Big-endian increment of part of an array, wrapping |
| `Counter.LessIsValue` | golang.org/x/crypto/otr/otr.go:900-904 | Comparing counters as byte strings compares their values |
| `OtrSmp.HonestRun` | golang.org/x/crypto/otr/smp.go:176-554 | Every proof check of an honest run passes, and both ends complete or both fail: exactly by whether q divides the blinding exponents times the difference of the secrets |
| `OtrSmp.AgreeExactly` | golang.org/x/crypto/otr/smp.go:176-554 | With q prime and blinding exponents not divisible by it, that is equality of the secrets modulo q |
| `OtrSmp.Verdict` | golang.org/x/crypto/otr/smp.go:514-554 | The final comparison in the exponent |
| `OtrSmp.SecretsMatch` | golang.org/x/crypto/otr/smp.go:161-174 | The two ends hash the same bytes if and only if the words are the same |
| `OtrSmp.KnowledgePasses` | golang.org/x/crypto/otr/smp.go:176-249 | A proof of knowledge passes its check |
| `OtrSmp.SameExponentPasses` | golang.org/x/crypto/otr/smp.go:414-493 | A proof of equal exponents passes its check |
| `OtrSmp.CommitmentPasses` | golang.org/x/crypto/otr/smp.go:251-400 | A commitment proof passes its check, and what it commits to |
| `OtrSmp.KnowledgeSound` | golang.org/x/crypto/otr/smp.go:217-249 | A proof of knowledge passes exactly if its challenge is the hash of what it opens to, and two openings of one value under different challenges determine the exponent |
| `OtrSmp.SameExponentSound` | golang.org/x/crypto/otr/smp.go:476-493 | The same for a proof of equal exponents, which gives one exponent to both bases |
| `OtrSmp.CommitmentSound` | golang.org/x/crypto/otr/smp.go:361-378 | The same for a commitment, which gives the blinding exponent of both parts and the secret |
| `OtrSmp.BadProofRefused` | golang.org/x/crypto/otr/smp.go:217-554 | Each of the four messages, when it is due and has the right length, is refused exactly if one of its proofs fails; state and secret then stay |
| `OtrSmp.QuestionParsed` | golang.org/x/crypto/otr/smp.go:65-82 | A question ends at its first zero byte and is stored without it, and the numbers follow; without one the message is refused and nothing is stored |
| `OtrSmp.AbortEnds` | golang.org/x/crypto/otr/smp.go:65-159 | An abort ends a run in any state, with an error exactly if one was under way, and forgets secret and question |
| `OtrSmp.First` | golang.org/x/crypto/otr/smp.go:176-320 | Messages 1 and 2 of an honest run |
| `OtrSmp.Second` | golang.org/x/crypto/otr/smp.go:322-442 | Message 3 |
| `OtrSmp.Third` | golang.org/x/crypto/otr/smp.go:444-523 | Message 4 and the responder's verdict |
| `OtrSmp.Fourth` | golang.org/x/crypto/otr/smp.go:525-554 | The initiator's verdict |
| `OtrSmp.Session.ResetSMP` | golang.org/x/crypto/otr/smp.go:59-63 | Back to the expectation of a first message |
| `OtrSmp.Session.StartSMP` | golang.org/x/crypto/otr/smp.go:49-57 | State and message of a start; an abort goes first exactly when a run was under way |
| `OtrSmp.Session.ProcessSMP1` | golang.org/x/crypto/otr/smp.go:217-249 | Both proofs are checked before anything is stored |
| `OtrSmp.Session.GenerateSMP2` | golang.org/x/crypto/otr/smp.go:251-320 | Keys, commitments and proofs of the second message |
| `OtrSmp.Session.ProcessSMP2` | golang.org/x/crypto/otr/smp.go:322-442 | As specified, error cases included |
| `OtrSmp.Session.ReplySMP2` | golang.org/x/crypto/otr/smp.go:380-442 | The third message and the quotients kept for the end |
| `OtrSmp.Session.ProcessSMP3` | golang.org/x/crypto/otr/smp.go:444-523 | As specified, error cases included |
| `OtrSmp.Session.ProcessSMP4` | golang.org/x/crypto/otr/smp.go:525-554 | As specified, error cases included |
| `OtrSmp.Session.ProcessSMP` | golang.org/x/crypto/otr/smp.go:65-159 | Dispatch by message kind and state on the numbers of a message |
| `OtrSmp.Session.ProcessTlv` | golang.org/x/crypto/otr/smp.go:65-159 | Dispatch of whole TLVs: aborts, questions with their terminator, corrupt numbers, and the four messages; what the stored question is afterwards |
| `FieldElement.FeMul` | golang.org/x/crypto/curve25519/curve25519.go:255-511 | For operands within the commented bounds 1.1*2^26 and 1.1*2^25 the product modulo 2^255-19, limbs within 1.1*2^25 and 1.1*2^24, no 32- or 64-bit intermediate overflowing, also when arrays coincide |
| `FieldElement.FeSquare` | golang.org/x/crypto/curve25519/curve25519.go:513-664 | The same for squaring |
| `FieldElement.FeMul121666` | golang.org/x/crypto/curve25519/curve25519.go:666-728 | The same for the curve constant |
| `FieldElement.MulColumns` | golang.org/x/crypto/curve25519/curve25519.go:282-426 | The ten column sums are bounded and congruent to the product |
| `FieldElement.CarryTwelve` | golang.org/x/crypto/curve25519/curve25519.go:427-511 | The twelve carries keep the residue and establish the output bounds |
| `FieldElement.EightStaysWide` | golang.org/x/crypto/curve25519/curve25519.go:427-476 | Two operands within the commented bounds whose limb 8 is, after the first eight carries, more than 300000 times the 1.52*2^33 of the comment on line 476 |
| `FieldElement.FeAdd` | golang.org/x/crypto/curve25519/curve25519.go:31-35 | Sum without carrying; reduced operands give multiplication operands |
| `FieldElement.FeSub` | golang.org/x/crypto/curve25519/curve25519.go:37-41 | The same for differences |
| `FieldElement.FeZero` | golang.org/x/crypto/curve25519/curve25519.go:20-24 | All limbs zero |
| `FieldElement.FeOne` | golang.org/x/crypto/curve25519/curve25519.go:26-29 | The unit |
| `FieldElement.FeCopy` | golang.org/x/crypto/curve25519/curve25519.go:43-47 | A copy, also onto itself |
| `FieldElement.FeCSwap` | golang.org/x/crypto/curve25519/curve25519.go:49-65 | Exchanges or keeps by the bit, computed with masks on 32-bit words, also when both are the same array |
| `Curve25519.FeFromBytes` | golang.org/x/crypto/curve25519/curve25519.go:86-141 | The full 256-bit little-endian value modulo p, within the reduced bounds |
| `Curve25519.MaskMatters` | golang.org/x/crypto/curve25519/curve25519.go:86-141 | That is the coordinate which section 5 of RFC 7748 decodes, if and only if bit 255 is clear |
| `Curve25519.MaskedValue` | golang.org/x/crypto/curve25519/curve25519.go:86-141 | What the masking of the RFC takes away |
| `Curve25519.TopBitCounts` | golang.org/x/crypto/curve25519/curve25519.go:86-141 | The base 2^255 is read as 19 where the RFC reads 0 |
| `Curve25519.LoadsValue` | golang.org/x/crypto/curve25519/curve25519.go:86-97 | The overlapping loads tile the 32 bytes |
| `Curve25519.FeToBytes` | golang.org/x/crypto/curve25519/curve25519.go:143-253 | The unique representative below p, little-endian, for every input in bounds |
| `Curve25519.QuotientExact` | golang.org/x/crypto/curve25519/curve25519.go:143-183 | The estimate in the comment: rounding gives exactly floor(h/p) |
| `Curve25519.Canonical` | golang.org/x/crypto/curve25519/curve25519.go:166-219 | The rippled digits are the residue below p |
| `Curve25519.FeInvert` | golang.org/x/crypto/curve25519/curve25519.go:731-790 | The addition chain computes z^(p-2), which is the inverse of every z that is not zero modulo p, given that p is prime |
| `Primes.FermatInverse` | golang.org/x/crypto/curve25519/curve25519.go:731-790 | Fermat's little theorem by the binomial theorem: modulo a prime p, a^(p-2) is the inverse of every a that p does not divide |
| `Curve25519.ClampScalar` | golang.org/x/crypto/curve25519/curve25519.go:792-798 | Clamping in place, to the number that CurveLadder.ClampedScalar describes |
| `Curve25519.Step` | golang.org/x/crypto/curve25519/curve25519.go:815-832 | One ladder step of section 5 of RFC 7748 on residues; all bounds hold again after it |
| `Curve25519.Storage.Iterate` | golang.org/x/crypto/curve25519/curve25519.go:810-832 | Delayed swap and step |
| `Curve25519.LadderLoop` | golang.org/x/crypto/curve25519/curve25519.go:806-833 | The invariant of all 255 passes: with the delayed swap undone the points are the ladder's |
| `Curve25519.ScalarMult` | golang.org/x/crypto/curve25519/curve25519.go:792-841 | The output is the ladder of section 5 of RFC 7748 for the clamped scalar and the residue of the base, fully reduced; with bit 255 clear, for the coordinate that the RFC decodes |
| `CurveLadder.StepForms` | golang.org/x/crypto/curve25519/curve25519.go:815-832 | A ladder step, in any modulus, computes Montgomery's projective formulas for doubling and differential addition with the coefficient 486662 |
| `MontgomeryCurve.DoubleRepresents` | golang.org/x/crypto/curve25519/curve25519.go:815-832 | On every Montgomery curve over a prime field the doubling formula gives the coordinates of the double by the tangent law, for every point, infinity and points of order two included |
| `MontgomeryCurve.SumRepresents` | golang.org/x/crypto/curve25519/curve25519.go:815-832 | The differential addition formula gives the coordinates of the sum by the chord law, for all points whose difference has the given coordinate, infinity and opposite points included |
| `MontgomeryCurve.SumAndDifference` | golang.org/x/crypto/curve25519/curve25519.go:815-832 | The identity behind it: the coordinates of the sum and of the difference of two points determine each other |
| `CurveLadder.StepMultiplies` | golang.org/x/crypto/curve25519/curve25519.go:815-832 | A ladder step takes the coordinates of neighbouring multiples m and n of a point to those of 2m and m + n |
| `CurveLadder.LadderHolds` | golang.org/x/crypto/curve25519/curve25519.go:806-833 | After the bits of k down to t the ladder holds the multiple that they spell, and the next one |
| `CurveLadder.LadderMultiplies` | golang.org/x/crypto/curve25519/curve25519.go:806-841 | Over every prime field, for every point of the curve with this coefficient or its twist and every k of 255 bits, the ladder gives the coordinate of the k-th multiple, and zero for infinity |
| `CurveLadder.ClampedScalar` | golang.org/x/crypto/curve25519/curve25519.go:792-798 | For every 32 bytes: a clamped scalar is a multiple of eight, at least 2^254 and below 2^255, and agrees with the scalar on the bits 3 to 253 |
| `CurveLadder.SmallOrder` | golang.org/x/crypto/curve25519/curve25519.go:792-841 | So every scalar takes a point whose eighth multiple is infinity to infinity |
| `CurveLadder.X25519IsModulo` | golang.org/x/crypto/curve25519/curve25519.go:806-841 | The function that Curve25519.ScalarMult computes is this ladder modulo 2^255 - 19 |
| `CurveLadder.OrderTwo` | golang.org/x/crypto/curve25519/curve25519.go:792-841 | Its hypothesis on the multiples of a point can be met: by the point with coordinate zero, on every curve |
| `CurveLadder.Agreement` | golang.org/x/crypto/curve25519/curve25519.go:806-841 | Two parties who multiply each other's multiple of a point get the same coordinate |
| `CurveLadder.MultiplyPoint` | golang.org/x/crypto/curve25519/curve25519.go:792-841 | So scalarMult takes the coordinate of a point to that of its multiple by the clamped scalar, and that of a point whose eighth multiple is infinity to zero, whatever the scalar |
| `CurveLadder.EveryCoordinate` | golang.org/x/crypto/curve25519/curve25519.go:792-841 | Every coordinate belongs to a point of the curve or of its twist |
| `OpenPgpMdc.Unseal` | golang.org/x/crypto/openpgp/packet/symmetrically_encrypted.go:109-290 | Sealing and opening gives back exactly the bytes written and Close succeeds, for every block function, hash, division into writes, behaviour of the underlying reader and choice of buffers |
| `OpenPgpMdc.SealedOpens` | golang.org/x/crypto/openpgp/packet/symmetrically_encrypted.go:256-290 | The sealed packet parses to a version, an accepted prefix and a ciphertext of the data followed by their valid code |
| `OpenPgpMdc.SealedIsPartial` | golang.org/x/crypto/openpgp/packet/symmetrically_encrypted.go:256-290 | Every sealed packet begins with a partial length of 1, less than the 512 of section 4.2.2.4 of RFC 4880 |
| `OpenPgpMdc.Seal` | golang.org/x/crypto/openpgp/packet/symmetrically_encrypted.go:213-290 | The writer objects put out that packet for every division into writes |
| `OpenPgpMdc.EncryptWritesConcat` | golang.org/x/crypto/openpgp/packet/symmetrically_encrypted.go:218-221 | Encrypting write by write is encrypting at once |
| `OpenPgpMdc.MdcWriter.constructor` | golang.org/x/crypto/openpgp/packet/symmetrically_encrypted.go:256-290 | Header, version and prefix go out first; the hash starts with the marked random block |
| `OpenPgpMdc.MdcWriter.Write` | golang.org/x/crypto/openpgp/packet/symmetrically_encrypted.go:218-221 | Data are hashed in plain and written encrypted |
| `OpenPgpMdc.MdcWriter.Close` | golang.org/x/crypto/openpgp/packet/symmetrically_encrypted.go:223-237 | Tag, length and digest follow the data, then the packet ends |
| `OpenPgpMdc.StreamReader.Read` | golang.org/x/crypto/openpgp/packet/symmetrically_encrypted.go:77-77 | Decrypts what the packet reader delivers, in order; of a packet that is cut off it reports a clean end exactly as the packet reader does, or an earlier call has failed for want of a length and left a zero |
| `OpenPgpMdc.MdcReader.Read` | golang.org/x/crypto/openpgp/packet/symmetrically_encrypted.go:119-176 | For every packet, damaged or not: bytes returned, the held trailer and what is to come are always the plaintext, and every call makes progress; a packet that is cut off ends cleanly through a buffer of more than 22 bytes if and only if the source made it look complete, or an earlier call has failed for want of a length and left a zero; through a smaller one if and only if too few bytes come back |
| `OpenPgpMdc.MdcReader.FillTrailer` | golang.org/x/crypto/openpgp/packet/symmetrically_encrypted.go:129-150 | The first 22 bytes, with the short-input error and the exact end of a packet that is cut off |
| `OpenPgpMdc.MdcReader.ReadShort` | golang.org/x/crypto/openpgp/packet/symmetrically_encrypted.go:152-165 | Small buffers are served from the trailer; a short refill counts as the end, whatever its error was |
| `OpenPgpMdc.MdcReader.ReadLong` | golang.org/x/crypto/openpgp/packet/symmetrically_encrypted.go:167-175 | Large buffers shift through it; a packet that is cut off ends cleanly if and only if the source made it look complete, or an earlier call has failed for want of a length and left a zero |
| `OpenPgpMdc.MdcReader.Drain` | golang.org/x/crypto/openpgp/packet/symmetrically_encrypted.go:186-196 | Reads to the end; without a trailer it fails, and on a packet that is cut off it succeeds if and only if the source made it look complete, or an earlier call has failed for want of a length and left a zero |
| `OpenPgpMdc.MdcReader.Close` | golang.org/x/crypto/openpgp/packet/symmetrically_encrypted.go:181-208 | Of an intact packet it accepts exactly a plaintext that ends in the valid code for what precedes it; of one that is cut off, closed before Read came to an end, exactly those of them behind a partial length whose source gave the last bytes asked for together with its own end, or on which an earlier Read has failed for want of a length and left a zero; so none of known length |
| `OpenPgpMdc.HeldIsTrailer` | golang.org/x/crypto/openpgp/packet/symmetrically_encrypted.go:198-207 | The three comparisons are the validity of the code |
| `OpenPgpMdc.Open` | golang.org/x/crypto/openpgp/packet/symmetrically_encrypted.go:28-88 | For every packet: refused if and only if the header, tag, version or prefix objects, with that reason; otherwise a reader positioned at the protected data |
| `OpenPgpMdc.OpenedExactly` | golang.org/x/crypto/openpgp/packet/symmetrically_encrypted.go:28-88 | A packet is opened if and only if it is of the right kind, has version 1 and starts with a prefix that the encrypter makes under this key from some random block |
| `OpenPgpMdc.ReadToEnd` | golang.org/x/crypto/openpgp/packet/symmetrically_encrypted.go:119-176 | Reading through buffers of any sizes gives everything but the trailer whenever it ends cleanly, which it does on every intact packet with a trailer |
| `OpenPgpMdc.UnsealCutOff` | golang.org/x/crypto/openpgp/packet/symmetrically_encrypted.go:152-165 | A sealed packet without its final length is damaged, and is nevertheless accepted when it is read through one-byte buffers |
| `OpenPgpMdc.CloseAfterFailure` | golang.org/x/crypto/openpgp/packet/symmetrically_encrypted.go:181-208 | The same packet read through larger buffers, over any source that reports its end by a call of its own: Read fails with an unexpected end, and Close accepts all the same |
| `OpenPgpMdc.CutOffOpens` | golang.org/x/crypto/openpgp/packet/packet.go:72-94 | That packet does not parse, yet all its bytes can be read |
| `OpenPgpCfb.OcfbRoundTrip` | golang.org/x/crypto/openpgp/packet/ocfb.go:34-143 | In both modes the decrypter accepts the prefix, starts where the encrypter started and undoes it |
| `OpenPgpCfb.PrefixExactly` | golang.org/x/crypto/openpgp/packet/ocfb.go:92-129 | The bytes that the decrypter accepts as a prefix are exactly those that the encrypter makes under the same key |
| `OpenPgpCfb.CfbBack` | golang.org/x/crypto/openpgp/packet/ocfb.go:66-143 | Encryption undoes decryption from the same register |
| `OpenPgpCfb.CfbRoundTrip` | golang.org/x/crypto/openpgp/packet/ocfb.go:66-143 | Decryption undoes encryption from every register state |
| `OpenPgpCfb.EncryptAppend` | golang.org/x/crypto/openpgp/packet/ocfb.go:66-77 | The ciphertext does not depend on how the plaintext is cut |
| `OpenPgpCfb.DecryptAppend` | golang.org/x/crypto/openpgp/packet/ocfb.go:131-143 | Nor the plaintext on how the ciphertext is cut |
| `OpenPgpCfb.EncryptIsCfb` | golang.org/x/crypto/openpgp/packet/ocfb.go:66-77 | The byte-wise register computes block-wise CFB |
| `OpenPgpCfb.NoResyncIsCfb` | golang.org/x/crypto/openpgp/packet/ocfb.go:34-64 | Without resynchronisation prefix and data are one CFB stream from a zero block |
| `OpenPgpCfb.ResyncIsCfb` | golang.org/x/crypto/openpgp/packet/ocfb.go:34-64 | With it the data stream feeds on the last ciphertext of the prefix |
| `OpenPgpCfb.PrefixShape` | golang.org/x/crypto/openpgp/packet/ocfb.go:34-64 | The prefix, block by block |
| `OpenPgpCfb.DecryptPrefixShape` | golang.org/x/crypto/openpgp/packet/ocfb.go:92-129 | The decrypted prefix, block by block |
| `OpenPgpCfb.MakePrefix` | golang.org/x/crypto/openpgp/packet/ocfb.go:34-64 | The code computes it |
| `OpenPgpCfb.Ocfb.Encrypter` | golang.org/x/crypto/openpgp/packet/ocfb.go:34-64 | The encrypter starts in the specified register |
| `OpenPgpCfb.NewEncrypter` | golang.org/x/crypto/openpgp/packet/ocfb.go:34-64 | An encrypter and its prefix are returned if and only if the random data have the length of a block |
| `OpenPgpCfb.Ocfb.Decrypter` | golang.org/x/crypto/openpgp/packet/ocfb.go:92-129 | So does the decrypter |
| `OpenPgpCfb.NewDecrypter` | golang.org/x/crypto/openpgp/packet/ocfb.go:92-129 | A decrypter is returned if and only if the prefix has the right length and repeats its last two bytes, together with the decrypted prefix |
| `OpenPgpCfb.Ocfb.EncryptStream` | golang.org/x/crypto/openpgp/packet/ocfb.go:66-77 | The loop computes the specified ciphertext and register |
| `OpenPgpCfb.Ocfb.DecryptInPlace` | golang.org/x/crypto/openpgp/packet/ocfb.go:131-143 | The loop decrypts part of a buffer in place and leaves the rest |
| `OpenPgpPartial.LengthRoundTrip` | golang.org/x/crypto/openpgp/packet/packet.go:31-61 | readLength inverts serializeHeader's length if and only if it is below 2^32 |
| `OpenPgpPartial.PartialRoundTrip` | golang.org/x/crypto/openpgp/packet/packet.go:63-134 | Any writes and Close read back as their concatenation |
| `OpenPgpPartial.FirstPartialLength` | golang.org/x/crypto/openpgp/packet/packet.go:103-125 | The first length is at least the 512 of section 4.2.2.4 of RFC 4880 if and only if the first write that is not empty has 512 bytes |
| `OpenPgpPartial.ChunkBody` | golang.org/x/crypto/openpgp/packet/packet.go:103-125 | One write in front of a well-formed body adds its bytes in front |
| `OpenPgpPartial.PacketRoundTrip` | golang.org/x/crypto/openpgp/packet/packet.go:160-237 | A packet of known length reads back with its tag |
| `OpenPgpPartial.OldFormat` | golang.org/x/crypto/openpgp/packet/packet.go:160-183 | A header of the old format, section 4.2.1 of RFC 4880: tag and length for lengths of one, two and four bytes, and the one without |
| `OpenPgpPartial.StreamedPacketRoundTrip` | golang.org/x/crypto/openpgp/packet/packet.go:160-251 | So does a streamed packet |
| `OpenPgpPartial.ConsumeAll` | golang.org/x/crypto/openpgp/packet/packet.go:72-94 | Of every packet, damaged ones included, reading through any buffer and any underlying reader gives all bytes there are; an intact one ends cleanly behind its contents |
| `OpenPgpPartial.BodyReader.SkipLengths` | golang.org/x/crypto/openpgp/packet/packet.go:73-81 | The loop over lengths keeps the contents and terminates; a length that is not there leaves the number that came with the error, mostly zero, and no partial length behind |
| `OpenPgpPartial.BodyReader.ReadPartial` | golang.org/x/crypto/openpgp/packet/packet.go:72-94 | Delivers the contents across lengths; on an intact packet the end is reported only when nothing is left; on one that is cut off it is reported if and only if the source gave all it was asked for and its own end with it, or an earlier call has failed for want of a length and left a zero |
| `OpenPgpPartial.CutOffEndsCleanly` | golang.org/x/crypto/openpgp/packet/packet.go:82-94 | Four bytes announced and two there: a two-byte buffer gets a clean end |
| `OpenPgpPartial.BodyReader.ReadSpan` | golang.org/x/crypto/openpgp/packet/packet.go:143-156 | At most the announced bytes; a premature end is always an error |
| `OpenPgpPartial.BodyReader.Read` | golang.org/x/crypto/openpgp/packet/packet.go:160-209 | The same for whichever reader the header calls for |
| `OpenPgpPartial.StreamWithoutEnd` | golang.org/x/crypto/openpgp/packet/packet.go:103-134 | A stream that was not closed is damaged, and all that was written can be read |
| `OpenPgpPartial.ChunksLackEnd` | golang.org/x/crypto/openpgp/packet/packet.go:103-134 | All that it lacks is a length at its very end |
| `OpenPgpPartial.TakeLength` | golang.org/x/crypto/openpgp/packet/packet.go:31-61 | The same on a reader, with the error of short input and the number that is returned beside it |
| `OpenPgpPartial.TakeHeader` | golang.org/x/crypto/openpgp/packet/packet.go:160-209 | Old and new headers, with every error case |
| `OpenPgpPartial.PartialWriter.Write` | golang.org/x/crypto/openpgp/packet/packet.go:103-125 | Powers of two, the largest first |
| `OpenPgpPartial.PartialWriter.Close` | golang.org/x/crypto/openpgp/packet/packet.go:127-134 | A final zero length |
| `Readers.ReadFull` | golang.org/x/crypto/openpgp/packet/packet.go:22-28 | Fills the buffer or comes back short at the end of the data, for every reader that obeys its contract |
| `OpenPgpClearsign.SignedIsDecoded` | golang.org/x/crypto/openpgp/clearsign/clearsign.go:73-266 | For every message the bytes Decode recovers are the ones hashed, the plaintext is each line without trailing white space, and the signature is found |
| `OpenPgpClearsign.EncodedBody` | golang.org/x/crypto/openpgp/clearsign/clearsign.go:189-266 | The hash covers the stripped lines joined by CRLF; the body is those lines, escaped and ended |
| `OpenPgpClearsign.Written` | golang.org/x/crypto/openpgp/clearsign/clearsign.go:189-260 | The state after any message, line by line |
| `OpenPgpClearsign.FeedAppend` | golang.org/x/crypto/openpgp/clearsign/clearsign.go:189-260 | It does not depend on how the message is cut into writes |
| `OpenPgpClearsign.TidyLine` | golang.org/x/crypto/openpgp/clearsign/clearsign.go:56-69 | An escaped line reads back as one line, is not the end marker, and unescapes |
| `OpenPgpClearsign.TrimRightIs` | golang.org/x/crypto/openpgp/clearsign/clearsign.go:139-139 | What the decoder cuts off a line is blank, and all that is blank at its end |
| `OpenPgpClearsign.DecodeTidy` | golang.org/x/crypto/openpgp/clearsign/clearsign.go:116-144 | The decoder recovers all lines in front of the signature |
| `OpenPgpClearsign.EndsWithMarker` | golang.org/x/crypto/openpgp/clearsign/clearsign.go:116-144 | The body loop ends if and only if some line of the text is the end marker |
| `OpenPgpClearsign.EndsInSomePass` | golang.org/x/crypto/openpgp/clearsign/clearsign.go:116-144 | The specification has a result if and only if some pass of the loop meets the marker |
| `OpenPgpClearsign.NeverEnds` | golang.org/x/crypto/openpgp/clearsign/clearsign.go:116-144 | On the text of one letter no pass ever ends it; after the first it stays at the empty rest |
| `OpenPgpClearsign.DecodeBody` | golang.org/x/crypto/openpgp/clearsign/clearsign.go:116-144 | On every text with an end marker the loop computes bytes, plaintext and rest |
| `OpenPgpClearsign.DashEscaper.Write` | golang.org/x/crypto/openpgp/clearsign/clearsign.go:189-260 | The loop over bytes computes the specified state |
| `OpenPgpClearsign.DashEscaper.Close` | golang.org/x/crypto/openpgp/clearsign/clearsign.go:262-267 | An unfinished last line is ended; the hash stays |
| `Sha3Sponge.StreamingIsOneShot` | golang.org/x/crypto/sha3/sha3.go:80-182 | Any division of the message into writes and of the output into reads equals absorbing the padded message at once and squeezing at once (sections 4 and 5.1 of FIPS 202) |
| `Sha3Sponge.AbsorbAppend` | golang.org/x/crypto/sha3/sha3.go:126-158 | Absorbing in two pieces |
| `Sha3Sponge.WritesAbsorb` | golang.org/x/crypto/sha3/sha3.go:126-158 | All writes are one absorption of their concatenation |
| `Sha3Sponge.FinishIsAbsorb` | golang.org/x/crypto/sha3/sha3.go:99-122 | Padding the buffered rest is absorbing the padded message |
| `Sha3Sponge.PaddingIs` | golang.org/x/crypto/sha3/sha3.go:99-116 | The padded message: a multiple of the rate, the message, the domain byte, zeros, and the top bit of the last byte |
| `Sha3Sponge.PaddingInjective` | golang.org/x/crypto/sha3/sha3.go:99-116 | Different messages or domain bytes are never padded to the same bytes |
| `Sha3Sponge.PullAppend` | golang.org/x/crypto/sha3/sha3.go:161-182 | Reading in two pieces |
| `Sha3Sponge.ReadsPull` | golang.org/x/crypto/sha3/sha3.go:161-182 | All reads are one read of their total |
| `Sha3Sponge.PullIsSqueeze` | golang.org/x/crypto/sha3/sha3.go:161-182 | Reading from a full block on is squeezing |
| `Sha3Sponge.LittleXor` | golang.org/x/crypto/sha3/xor_generic.go:12-20 | Exclusive or of 64-bit lanes is exclusive or of their bytes |
| `Sha3Sponge.State.XorIn` | golang.org/x/crypto/sha3/xor_generic.go:12-20 | The lane loop mixes the bytes into the state |
| `Sha3Sponge.State.Refill` | golang.org/x/crypto/sha3/xor_generic.go:23-28 | The lane loop copies the first rate bytes out |
| `Sha3Sponge.State.Permute` | golang.org/x/crypto/sha3/sha3.go:80-95 | Both directions of the buffering |
| `Sha3Sponge.State.PadAndPermute` | golang.org/x/crypto/sha3/sha3.go:99-122 | The padded block is absorbed and the first output block is ready |
| `Sha3Sponge.State.Write` | golang.org/x/crypto/sha3/sha3.go:126-158 | Fast and slow path together absorb the bytes; after a read it panics and changes nothing |
| `Sha3Sponge.State.Read` | golang.org/x/crypto/sha3/sha3.go:161-182 | Delivers the next bytes of output and keeps the state for the following ones |
| `Sha3Sponge.State.Clone` | golang.org/x/crypto/sha3/sha3.go:67-76 | Shares nothing; has the same bytes left to read if and only if the original is absorbing or its rate is the whole storage, and panics exactly on a negative start |
| `Sha3Sponge.CloneBreaks` | golang.org/x/crypto/sha3/sha3.go:67-76 | The failing side is reached for every rate below 168: after n bytes are read the clone panics if and only if n is below 168 less the rate, and otherwise it has that many bytes too many left |
| `Sha3Sponge.State.Sum` | golang.org/x/crypto/sha3/sha3.go:186-193 | While absorbing, the digest behind the prefix, with the hash itself unchanged; while squeezing, what the clone gives |
| `Sha3Sponge.ShakeSum` | golang.org/x/crypto/sha3/shake.go:49-60 | The output for the whole message |
| `DircatTail.TailIsLast` | dircat/file_tail.go:9-37 | For every file and every count: TailFile gives the last cnt lines, ten for a count below one, or all if there are fewer, if and only if each of these lines has at most 65535 bytes and does not end in a carriage return |
| `DircatTail.GetLineByPosition` | dircat/file_tail.go:38-79 | Stepping back 50 bytes at a time finds, for every file and cursor, what scanning from the start of the file finds; both loops terminate |
| `DircatTail.WalksMeet` | dircat/file_tail.go:45-75 | Scans from any two starts meet once one of them does not reach the cursor |
| `DircatTail.LineFound` | dircat/file_tail.go:38-79 | In every file a line that is short and without a final carriage return is found from every position in it, with its start, whatever the rest of the file holds |
| `DircatTail.WholeIsPlain` | dircat/file_tail.go:38-79 | Conversely a line whose whole text is found from its end is such a line |
| `DircatTail.WalkThrough` | dircat/file_tail.go:45-75 | No scan skips the start of a line |
| `DircatTail.TailFile` | dircat/file_tail.go:9-37 | The loop collects one text per step and joins them |
| `DircatTail.CollectedExactly` | dircat/file_tail.go:25-35 | From every line end down, the texts are the last lines if and only if these are such lines |
| `DircatTail.ReturnBreaks` | dircat/file_tail.go:38-79 | A file with one CR LF line: its last line is reported as empty |
| `DircatTail.LongBreaks` | dircat/file_tail.go:38-79 | One line of 65536 bytes is not reported whole |

## Left out

- SshChannel.Channel.OnPacket: messages of other layers that name a channel in their first four bytes are not part of it; what an open failure does to the channel table is in SshMux.
- SshFlow.Delivery: before close; what closing does is in SshMux and in the channel object.
- SshFlow.ReadInOrder: one writer per extended-data code at a time, as the comment on packetPool demands.
- SshMux.PoliteIsAimed: for tables below 2^32 slots, because beyond them two slots share an id.
- SshMux.InboundIsPolite: for tables below 2^32 slots, for the same reason.
- SshMux.ChannelLives: for runs in which each CLOSE meets its own slot, which SshMux.ExactlyAimed shows to be all in which it holds.
- SshRouting.Handled: for tables below 2^32 slots, for the same reason.
- SshRouting.Paired: the same; EOF and the answers to requests carry nothing but the id and are not listed.
- SshRouting.RequestDecodes: for names and data below 2^32 bytes together, the limit of the length field.
- SshHandshake.StepCounts: a packet of the exchange itself counts as one byte in the counter of bytes read, because its length is not modelled.
- SshHandshake.TraceOrder: key derivation always succeeds; handshake.go line 365 discards the error that prepareKeyChange returns when it does not.
- SshWire.FieldRoundTrip: for strings and rests below 2^32 bytes, the limit of the length field; see SshWire.StringExactly.
- SshWire.FieldsRoundTrip: the same for every field.
- SshWire.MessageRoundTrip: the same for every field.
- SshWire.TuplesRoundTrip: for encodings below 2^32 bytes; from there on the length fields wrap, see SshWire.StringExactly.
- SshFraming.CbcExactly: that the block function is a permutation of the blocks is a hypothesis.
- SshWire.MessageParsed: not for flags and big integers, which have several encodings that Unmarshal accepts.
- OtrSmp.KnowledgeSound: for numbers in the group of order q, which the checks of the code do not establish.
- OtrSession.SessionDelivers: no message names two equal public values and each end sends fewer than 2^64 messages; both matter, see OtrRatchet.KeysSwap and OtrSession.WrapReached.
- OtrSmp.HonestRun: the generator has order q and inverses exist; that q of the group is prime is a hypothesis of OtrSmp.AgreeExactly.
- CurveLadder.LadderMultiplies: that 2^255 - 19 is prime, and that the multiples of a point add up by chord and tangent as their numbers do (the group law), are hypotheses.
- Curve25519.FeInvert: that p = 2^255 - 19 is prime is a hypothesis of the inverse.
- OpenPgpMdc.Open: packets with the tag of an unprotected body and the key sizes that Decrypt rejects are not modelled.
- OpenPgpClearsign.DecodeBody: for texts with an end marker, which OpenPgpClearsign.EndsWithMarker shows to be all on which the loop ends.
- Sha3Sponge.ShakeSum: for any lane permutation; the rounds of Keccak-f are not modelled.
- DircatTail.TailFile: errors of Stat and Open; a bufio.Scanner is modelled by its documented behaviour.
- Wire formats of OTR messages, TLVs, fragments and the authenticated key exchange: byte plumbing, and signatures.
- Armor, signatures, key packets and compression of OpenPGP: unrelated to the streaming properties.
- Condition-variable wake-ups and fairness: lock regions are atomic steps.
- Dialing, user authentication, sessions, port forwarding, known hosts and agents: I/O.
- AES, RC4, HMAC, SHA, DSA, RSA, Blowfish, CAST5, Twofish and the other primitives: fixed rounds and tables.
- poly1305, bn256, scrypt, pkcs12, ocsp: off sesh's path.
- main.go, batch, util, templ, cowsay, gocui and the viewer of dircat: process launching, files and terminal output.
