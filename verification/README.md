# Verified models of toxcore's protocols and buffers

Six components of the toxcore tree with behaviour that is hard to see from any one function, each modelled
in the form of its source (classes and arrays changed in place where the C code does that, functions where
it computes) and proved against an independent specification:

* **Video transfer** (`toxav/rtp.c`): the sender's split into packets, the 80-byte header, the receiver's
  work buffer of three slots with eviction, and what arrives end to end. `RtpHeader`, `Reassembly` (the
  receiver on values), `RtpSession` (the receiver on the heap), `RtpTransfer` (any loss and reordering),
  `RtpCompletion` (which frames are handed over, and when), `RtpSender` (the splitting loop), `RtpEndToEnd`
  (from the bytes sent to the frames handed over).
* **Closest nodes of the DHT** (`toxcore/DHT.c`): the XOR metric, the in-place list of closest nodes, the
  search over all lists, the bounded client lists, the packed node format. `XorMetric`, `DhtTypes`,
  `NodeList`, `ClosestNodes`, `ClientList`, `NodeCodec`.
* **Call signalling** (`toxav/msi.c`): the message format, the two-peer protocol, and the container of
  calls that is an array and a sorted doubly linked list at once. `MsiCodec`, `MsiProtocol`, `MsiMeaning`
  (what each message does), `MsiHangup` (runs with hangups), `CallTable`, `MsiSession`.
* **Timestamp buffer** (`toxav/ts_buffer.c`): a ring of parallel arrays with selection by time window,
  holes closed in place across the wrap point, exact payload ownership. `TimestampQueue`,
  `TimestampBuffer`.
* **Token ring** (`super_donators/grencez_tok5.c`): the pipe ring for any number of processes, its safety,
  and its convergence to one token under every schedule. `TokenRing`, `TokenTable`, `TokenConvergence`,
  `TokenProcesses`.
* **Clock** (`toxav/dummy_ntp.c`, `toxav/rtp.c`): offset, delay, drift and round-trip smoothing. `Clock`.

`Words` holds the fixed-width integers of C and their network byte order, `Wrappers` an option type.
`dafny verify dfyconfig.toml` checks everything.

Sizes stay symbolic where the argument allows it: key length, number of slots in a result, ring capacity,
number of processes, frame length.

## Main results

* `RtpEndToEnd.LossyWire`: of the bytes that successive calls of rtp_send_data hand to the transport, from a
  sender in any state, whatever packets arrive, once each and in whatever order, the receiver never fails, and
  each delivered buffer has the sent byte at every received position, zero elsewhere, and is the sent frame
  when its count is full. `RtpEndToEnd.LosslessWire`: all packets in order give back exactly the frames sent.
* `RtpCompletion.CompletionExact`: a frame is handed over by the packet that completes it and is in no slot
  afterwards; an incomplete one stays, unless it is the oldest slot and all slots are taken by other frames or
  it lags more than two sequence numbers behind a completed one.
* `ClosestNodes.GetCloseNodes`: one scan with an in-place list computes exactly the closest distinct
  eligible keys, if and only if an all-zero key does not get in the way.
* `ClientList.RunKeepsClosest`: deciding by two slots keeps a list at the closest keys ever offered.
* `MsiProtocol.CallsAgree`, `MsiProtocol.Settles`: two peers with simultaneous invites never produce an
  error and agree whenever nothing is on its way; from anywhere, deliveries alone lead there.
* `MsiHangup.PoliteRunsAgree`: the same over any number of calls, hung up by either peer or by both at once,
  as long as nobody hangs up while an INIT is on its way to them or starts a call while anything but an INIT
  is on its way. `MsiHangup.HangupExact` shows that the first condition is the right one: after a hangup the
  peers end in agreement if and only if it held, whatever the order of deliveries. `MsiHangup.RedialExact`
  is the same for a hangup with an immediate new invite, with its own exact condition.
* `CallTable` and `MsiSession`: array, head, tail and links agree after every operation, and every entry
  point does to one call exactly what the protocol says and nothing to any other.
* `TimestampBuffer`: every operation is an operation on a queue, and every payload is buffered, handed
  back or freed, once.
* `TokenConvergence.Stabilizes`: from any initial values, every run of a ring of `n` processes with at
  least `n + (n - 1) * n * (9 * n + 10)` steps ends with exactly one token, whoever takes the steps. The
  proof lines the values of a ring that loses no message up in a table and shows that the blocks 0 2 and
  0 1 2 sent by process 0 would have to repeat too soon.

## Where the code falls short of the natural property

Each item names the lemma with the exact condition and a failing input, the latter as a lemma of its own
where the condition does not show one at a glance.

* An all-zero key is taken for present while the result of a search has unfilled slots. Input:
  `ClosestNodes.ZeroKeyCanBeEligible`; condition: `ClosestNodes.ZeroKeyHarmless`, exact by
  `ClosestNodes.SearchIsExact`.
* A byte counter that has reached the frame length does not mean a complete frame: one byte received twice
  makes a two-byte frame complete. Input: `RtpTransfer.RepeatFoolsCounter`; condition: no byte of the slot
  came twice, exact by `RtpTransfer.FullCountIsFullFrame` and, over whole runs,
  `RtpTransfer.DeliveredWithRepeats`.
* A packet is compared with the frame length it announces itself, never with the buffer its slot already
  has, so a later packet of a frame can be copied outside the buffer. Input: `RtpTransfer.CopyCanLeaveBuffer`;
  condition: `Reassembly.Acceptable`, exact by `RtpTransfer.AcceptableExact`. Pieces of frames that were
  really sent never do that, however often they are repeated (`RtpTransfer.TrafficStaysInside`).
* With a window that starts below zero, `tsb_read` computes a huge threshold and throws every other entry
  away; any such window and any two entries are an input, and `TimestampQueue.ReadKeepsNewer` is exact.
  Entries stamped UINT32_MAX are never found, so `tsb_drain` leaves exactly those behind
  (`TimestampBuffer.TSBuffer.Drain`).
* A hangup can leave the peers in disagreement. Inputs: `MsiHangup.CrossedHangupBreaksAgreement` (invites
  cross and one peer hangs up) and `MsiHangup.HangupBreaksAgreement` (the caller redials while an answer is
  on its way); conditions: `MsiHangup.HangupExact` and `MsiHangup.RedialExact`.
* A clock that wraps between two readings spoils the offset. Input: `Clock.WrapSpoilsOffset`; condition:
  `Clock.OffsetErrorBound`.
* Close to 2^32 the round-trip smoothing can jump away from its sample. Input: `Clock.SmoothCanOvershoot`;
  condition: `Clock.SmoothExact` for one update, `Clock.SmoothRunExact` for any number of them.
* Repacking an unpacked header gives its bytes back exactly when the padding was zero; any other padding is
  an input (`RtpHeader.HeaderInverse`).

The comment above `get_slot` promises a result for packets that are too old (toxav/rtp.c:115); the code
never returns it, and neither does the model.

## Model

| member | source | states |
|---|---|---|
| `RtpHeader.Pack` | toxav/rtp.c:919-960 | a packed header has exactly 80 bytes |
| `RtpHeader.HeaderRoundTrip` | toxav/rtp.c:962-1002 | unpacking undoes packing on every field, whatever bytes follow |
| `RtpHeader.FixedHeaderLayout` | toxav/rtp.c:921-933 | the first 12 bytes are the fixed header of section 5.1 of RFC 3550, for every header |
| `RtpHeader.HeaderBytes` | toxav/rtp.c:919-960 | all 80 bytes: the place and width of every field, and each byte as a digit of the field in network byte order |
| `RtpHeader.HeaderInverse` | toxav/rtp.c:919-1002 | packing what was unpacked reproduces the bytes if and only if the padding words are zero |
| `RtpHeader.FieldsRoundTrip` | toxav/rtp.c:962-1002 | any list of integer fields is read back from its big-endian bytes |
| `RtpHeader.PackInjective` | toxav/rtp.c:919-960 | different field values of one layout have different bytes |
| `Reassembly.FindSlot` | toxav/rtp.c:132-149 | the first slot with the sequence number and timestamp of the packet, or none |
| `Reassembly.HandleOk` | toxav/rtp.c:350-464 | every packet that is ignored, or is non-empty and can be copied into its slot without leaving the buffer or wrapping the counter, leaves well-formed slots, at most three, and hands over well-formed groups of packets; the packets of a slot may announce different frame lengths |
| `RtpSession.RTPSession.GetSlot` | toxav/rtp.c:121-198 | the slot already holding the frame, else the next free one, else the request to drop the oldest |
| `RtpSession.RTPSession.CloseGap` | toxav/rtp.c:226-243 | later slots move up by one in order, the last used slot is cleared, slots behind it are unchanged |
| `RtpSession.RTPSession.ProcessFrame` | toxav/rtp.c:208-247 | the message of the slot leaves it and belongs to the caller; the other slots keep their messages and order |
| `RtpSession.RTPSession.StorePiece` | toxav/rtp.c:297-309 | the payload is copied to its offset, both counters grow by its length, nothing else changes |
| `RtpSession.RTPSession.FillDataIntoSlot` | toxav/rtp.c:258-315 | the slot holds one packet more, in a fresh message if it was free; true exactly when its count is the frame length |
| `RtpSession.RTPSession.Deliver` | toxav/rtp.c:395-405 | exactly one message passes from the slots to the callback, with the bytes assembled so far |
| `RtpSession.RTPSession.FlushSlot` | toxav/rtp.c:433-461 | the completed slot is handed over first, and after it a slot 0 more than two sequence numbers behind; what stays are other slots |
| `RtpSession.RTPSession.FindRoom` | toxav/rtp.c:384-415 | after at most one eviction there is a slot for the packet |
| `RtpSession.RTPSession.HandleVideoPacket` | toxav/rtp.c:350-464 | refines the value-level receiver: slots, deliveries and result; a packet that fails the checks changes nothing; slots below `next_free_entry` own distinct messages, those above are empty, every allocated message is in one slot or was handed over once |
| `RtpTransfer.AssembledBytes` | toxav/rtp.c:297-303 | the assembled buffer is the frame at every received position and zero elsewhere |
| `RtpTransfer.CountCovered` | toxav/rtp.c:305-309 | for disjoint pieces the byte counter is the number of received positions |
| `RtpTransfer.CompleteGroup` | toxav/rtp.c:297-314 | disjoint pieces never count more than the frame, and a full count means the whole frame |
| `RtpTransfer.FullCountIsFullFrame` | toxav/rtp.c:314-314 | a full count covers the frame if and only if no byte came twice |
| `RtpTransfer.OverlapOvercounts` | toxav/rtp.c:305-309 | the counter is at least the number of received positions, with equality only without overlap |
| `RtpTransfer.RunGroups` | toxav/rtp.c:350-464 | in every run each slot and each delivery is made of arrived pieces of one frame |
| `RtpTransfer.RunSucceeds` | toxav/rtp.c:258-315 | without duplicated bytes no copy leaves its buffer and the counter does not wrap, in any order of arrival |
| `RtpTransfer.DeliveredFaithfully` | toxav/rtp.c:350-464 | for any loss, reordering and interleaving of distinct frames every delivery is faithful to one of them |
| `RtpTransfer.DeliveredWithRepeats` | toxav/rtp.c:350-464 | with packets repeated any number of times every delivery has the right bytes at received positions and zero elsewhere, counts at least the received positions, and a full count means the whole frame if and only if no byte of it came twice |
| `RtpTransfer.RepeatFoolsCounter` | toxav/rtp.c:305-314 | the first byte of a two-byte frame received twice is delivered as a complete frame with a zero second byte |
| `RtpTransfer.TrafficStaysInside` | toxav/rtp.c:297-309 | pieces of sent frames, repeated or not, can be stored if and only if the counter does not wrap |
| `RtpTransfer.RepeatsSucceed` | toxav/rtp.c:350-464 | with fewer than 2^32 bytes arriving in all, repeated pieces never make the receiver fail |
| `RtpTransfer.AcceptableExact` | toxav/rtp.c:297-309 | a packet that passes the checks can be stored if and only if it lies inside the buffer of its slot and the counter does not wrap |
| `RtpTransfer.LaterLengthIsTrusted` | toxav/rtp.c:366-382 | every later packet of a frame that announces a longer frame and reaches past the first one's length passes the checks and goes to that slot |
| `RtpTransfer.CopyCanLeaveBuffer` | toxav/rtp.c:297-303 | such packets exist, reaching any distance beyond the buffer |
| `RtpTransfer.HandleConserves` | toxav/rtp.c:350-464 | a packet adds one copy of itself; none is lost or duplicated by eviction, flushing and slot moves |
| `RtpTransfer.RunConserves` | toxav/rtp.c:350-464 | over any run each arrived piece is in exactly one slot or one delivery |
| `RtpCompletion.HandleFollowsRule` | toxav/rtp.c:384-461 | for every packet that can be stored: which groups are handed over, in order, and which stay in which slots |
| `RtpCompletion.SlotsStayTidy` | toxav/rtp.c:350-464 | without repeated bytes every frame has at most one slot and no slot ever has its full count |
| `RtpCompletion.CompletionExact` | toxav/rtp.c:384-461 | the packet that completes a frame hands over exactly that frame and leaves it in no slot; an incomplete frame stays; any other group handed over was the oldest slot, to make room for a new frame or because it lags behind the completed one |
| `RtpSender.Sender.SendPacket` | toxav/rtp.c:1198-1205 | one packet goes out: id, numbered header, payload |
| `RtpSender.Sender.SendPieces` | toxav/rtp.c:1206-1245 | the loop and its remainder send exactly the fragments of the frame, in order |
| `RtpSender.Sender.SendData` | toxav/rtp.c:1114-1250 | a frame of any length goes out as its fragments; every packet, read back, carries the frame length, the sequence number, the time stamp, its own packet number, its offset and the bytes at that offset; sequence and packet numbers advance modulo 2^16 and 2^32 |
| `RtpSender.FragmentStamped` | toxav/rtp.c:1126-1188 | the same for every piece of every frame and sender state |
| `RtpSender.PiecesTile` | toxav/rtp.c:1211-1244 | the fragments are non-empty, lie end to end from 0 to the length and carry the bytes at their offset |
| `RtpSender.PacketSize` | toxav/rtp.c:1212-1222 | no packet exceeds MAX_CRYPTO_DATA_SIZE |
| `RtpSender.WireRoundTrip` | toxav/rtp.c:684-689 | the receiver recovers header and payload of every packet sent |
| `RtpSender.ArrivalsAreTraffic` | toxav/rtp.c:1193-1245 | any selection of sent packets, none twice, is traffic without overlap |
| `RtpSender.LossyTransfer` | toxav/rtp.c:350-464 | end to end: any subset in any order never fails and every delivery is faithful to a sent frame |
| `RtpSender.LosslessTransfer` | toxav/rtp.c:350-464 | end to end: all packets in order are delivered as exactly the sent frames, in order, with nothing left over |
| `RtpEndToEnd.SendFrames` | toxav/rtp.c:1114-1250 | successive calls append the packets of their frames, one after the other |
| `RtpEndToEnd.FewAreToldApart` | toxav/rtp.c:1247-1247 | up to 2^16 frames have different sequence numbers whatever their time stamps |
| `RtpEndToEnd.LossyWire` | toxav/rtp.c:350-464 | any selection of the packets of successive calls, in any order: the receiver never fails and hands over only messages faithful to one of the frames; nothing is assumed of the headers |
| `RtpEndToEnd.LosslessWire` | toxav/rtp.c:350-464 | all packets of successive calls in order: exactly the frames, in order, with bytes, lengths, sequence number, time stamps and encoder fields as given |
| `XorMetric.IdClosest` | toxcore/DHT.c:220-236 | 1, 2 or 0 exactly as the XOR distances, read as big-endian numbers, compare; 0 exactly for equal keys |
| `XorMetric.DistanceInjective` | toxcore/DHT.c:220-236 | keys at equal distance from a key are equal |
| `XorMetric.FirstDifference` | toxcore/DHT.c:222-235 | the first differing byte decides the order of equally long big-endian numbers |
| `XorMetric.BitByBitCmp` | toxcore/DHT.c:239-261 | the number of leading bits the keys have in common |
| `XorMetric.MoreCommonBitsIsCloser` | toxcore/DHT.c:239-261 | more leading bits in common with the target means strictly closer under `id_closest` |
| `NodeList.AddToList` | toxcore/DHT.c:815-835 | one pass that keeps the closer node at each place; true exactly when some listed key is strictly farther than the new one |
| `NodeList.NextIsFurtherRight` | toxcore/DHT.c:815-835 | the replaced index strictly increases, so the recursion ends |
| `NodeList.PassConserves` | toxcore/DHT.c:815-835 | with multiplicity, the list keeps every old and new pair but the dropped one |
| `NodeList.PassDropsFarthest` | toxcore/DHT.c:815-835 | nothing is farther than the dropped pair |
| `NodeList.KeepsClosest` | toxcore/DHT.c:815-835 | on any list, sorted or not: old pairs plus the new one minus one farthest pair |
| `NodeList.PassAscending` | toxcore/DHT.c:815-835 | an ascending list stays ascending |
| `ClosestNodes.IndexOfNodePk` | toxcore/DHT.c:693-704 | UINT32_MAX exactly when the key is absent, else an index of it |
| `ClosestNodes.GetCloseNodesInner` | toxcore/DHT.c:841-902 | scanning one list turns the best of the offers so far into the best including its eligible entries |
| `ClosestNodes.GetSomewhatCloseNodes` | toxcore/DHT.c:911-925 | the same over the close list and every friend list |
| `ClosestNodes.GetCloseNodes` | toxcore/DHT.c:927-933 | distinct keys, each with the address of the right association of an entry of the close list or a friend list that is recent, not LAN for an outsider, and announcing if asked; exactly the k closest keys of such entries if and only if the all-zero key is harmless; min(k, m) of them when no all-zero key is eligible |
| `ClosestNodes.OffersAnswer` | toxcore/DHT.c:852-893 | what the scan takes into account are entries with the association the query asks for |
| `ClosestNodes.EligibleKeysAnswer` | toxcore/DHT.c:852-893 | and every such entry of every list has its key among the eligible ones |
| `ClosestNodes.SearchIsExact` | toxcore/DHT.c:841-933 | the best of the admitted offers are the closest eligible keys if and only if the all-zero key is harmless |
| `ClosestNodes.BestIsClosest` | toxcore/DHT.c:890-898 | the best list as a set of keys: size min(k, m), everything left out is farther |
| `ClosestNodes.WithoutKey` | toxcore/DHT.c:856-858 | ignoring one key keeps the result right if and only if k other keys are closer |
| `ClosestNodes.StaleKey` | toxcore/DHT.c:855-898 | a key pushed out earlier and offered again changes nothing |
| `ClosestNodes.ZeroKeyIsSkipped` | toxcore/DHT.c:856-858 | for every query and room, an all-zero key that is the only eligible one is not harmless: it is not returned |
| `ClosestNodes.ZeroKeyCanBeEligible` | toxcore/DHT.c:856-858 | a query with 32-byte keys and a client for which the condition fails |
| `ClientList.CmpEntryOrder` | toxcore/DHT.c:942-976 | the comparison is antisymmetric, transitive and total; it ties exactly for two timed-out entries or equal keys |
| `ClientList.SortClientList` | toxcore/DHT.c:1094-1118 | the list becomes a sorted permutation of itself |
| `ClientList.ReplaceAll` | toxcore/DHT.c:1121-1185 | stores exactly when the family is IPv4 or IPv6 and slot 0 or 1 may be replaced; then the list is sorted and its first entry has the new key, address and time, with what was known of the other family and of returned addresses cleared; otherwise unchanged |
| `ClientList.EvictsWorse` | toxcore/DHT.c:1162-1185 | from any list, what is evicted is timed out or strictly farther than the new key |
| `ClientList.TwoSlotsSuffice` | toxcore/DHT.c:1173-1176 | with slots 1.. sorted, testing slots 0 and 1 is testing all slots |
| `ClientList.ReplaceKeepsClosest` | toxcore/DHT.c:1162-1185 | one call with a fresh key keeps the list at the closest keys and its tail sorted |
| `ClientList.RunKeepsClosest` | toxcore/DHT.c:1162-1185 | over any run at one time the list holds the closest keys offered so far, up to its length |
| `ClientList.RunKeepsAddresses` | toxcore/DHT.c:1121-1185 | over any run every entry was there at the start or records an offer with its address and time |
| `ClientList.LiveEntriesWereOffered` | toxcore/DHT.c:1121-1185 | from an all-timed-out start every live entry has the address its key was offered with |
| `ClientList.AllTimedOutHoldsNothing` | toxcore/DHT.c:1085-1091 | an all-timed-out list is a valid start of such a run |
| `NodeCodec.PackIpPort` | toxcore/DHT.c:421-474 | writes exactly the packed address or fails and writes nothing; fails exactly for other families or too little room |
| `NodeCodec.PackNodes` | toxcore/DHT.c:588-615 | the packed nodes in order, bytes behind them untouched; fails at the first node without packed form or room |
| `NodeCodec.UnpackIpPort` | toxcore/DHT.c:523-581 | family, address and port of the packed bytes; fails exactly for unknown or disabled families and short data |
| `NodeCodec.UnpackNodes` | toxcore/DHT.c:624-658 | the nodes packed at the head of the data, as many as fit, and the bytes they take; fails where no node is packed |
| `NodeCodec.NodeAtExact` | toxcore/DHT.c:523-658 | a node is recognised exactly where some accepted node is packed |
| `NodeCodec.PrefixCode` | toxcore/DHT.c:588-615 | packed lists are a prefix code |
| `NodeCodec.PackedLayout` | toxcore/DHT.c:421-474 | the bytes of a packed node: family number, address, port, key |
| `NodeCodec.AcceptedMeans` | toxcore/DHT.c:523-581 | TCP families are accepted exactly where TCP is enabled |
| `NodeCodec.NodesRoundTrip` | toxcore/DHT.c:588-658 | any list that fits unpacks to itself and consumes exactly the packed bytes |
| `NodeCodec.RepackReproduces` | toxcore/DHT.c:588-658 | repacking any successful unpack reproduces the consumed prefix |
| `MsiCodec.MsgParseIn` | toxav/msi.c:365-461 | on arbitrary input the loop ends inside the buffer with the specified result |
| `MsiCodec.ParseExact` | toxav/msi.c:393-461 | the parser accepts exactly the grammar of valid headers, zero byte and zero-terminated rest, with its meaning |
| `MsiCodec.MessageRoundTrip` | toxav/msi.c:463-565 | every message that is printed is parsed as itself |
| `MsiCodec.PrintedBytes` | toxav/msi.c:520-557 | the bytes of every message in numbers |
| `MsiProtocol.NeverInactive` | toxav/msi.c:163-276 | in every run with errors, malformed messages, failing callbacks, hangups and timeouts no stored call is inactive and the abort is not reached |
| `MsiProtocol.ReactKeepsActive` | toxav/msi.c:797-989 | the same for one event |
| `MsiMeaning.PacketMeans` | toxav/msi.c:994-1065 | arbitrary bytes do what the message they denote means in each state, with each outcome of the callback; bytes that denote none are answered with an error, and no bytes with nothing |
| `MsiMeaning.MessageMeans` | toxav/msi.c:797-989 | each request in each state: the call afterwards and the messages sent, failures included |
| `MsiMeaning.PopEndsPeer` | toxav/msi.c:945-989 | a POP, with or without an error, leaves the receiver without a call and is not answered |
| `MsiMeaning.FailureEndsBoth` | toxav/msi.c:797-943 | after every failure the call is gone, one POP with the error is on its way, and its delivery ends the call at the other end |
| `MsiMeaning.ReinviteResyncs` | toxav/msi.c:845-867 | a new INIT into an established call is answered with the capabilities and makes the inviter active again |
| `MsiProtocol.RunReachable` | toxav/msi.c:797-943 | every run of two peers stays within the listed configurations of states, beliefs and channel contents |
| `MsiProtocol.CallsAgree` | toxav/msi.c:797-1065 | no error is ever on its way; with empty channels the peers are (none, none), (requesting, requested) or (active, active) and know each other's capabilities |
| `MsiProtocol.ReceiveShrinks` | toxav/msi.c:797-943 | every delivery reduces the work left |
| `MsiProtocol.Settles` | toxav/msi.c:797-943 | from every reachable configuration boundedly many deliveries lead to silence and agreement |
| `MsiHangup.DeliveriesEnd` | toxav/msi.c:797-989 | from any configuration whatever, hangups included, deliveries in any order end after boundedly many |
| `MsiHangup.PoliteRunsAgree` | toxav/msi.c:197-352 | over any run with any number of polite hangups and invites no error is ever on its way and the peers agree whenever nothing is |
| `MsiHangup.HangupFreeIsPolite` | toxav/msi.c:197-240 | every run without hangups is such a run |
| `MsiHangup.HangupExact` | toxav/msi.c:242-276 | after a hangup every order of deliveries ends with no call on either side if and only if no INIT was on its way to the peer that hung up, and in disagreement otherwise |
| `MsiHangup.InitMeansCalling` | toxav/msi.c:242-276 | an INIT can be on its way only to a peer that is itself calling |
| `MsiHangup.EstablishedHangupIsSafe` | toxav/msi.c:242-276 | a call that is active or ringing can be hung up at any moment |
| `MsiHangup.RedialExact` | toxav/msi.c:197-276 | after a hangup and an immediate invite every order of deliveries ends in agreement if and only if nothing was on its way to the caller and no INIT to a peer with a call |
| `MsiHangup.CrossedHangupBreaksAgreement` | toxav/msi.c:797-880 | crossing invites and a hangup leave one peer ringing for a call the other has forgotten |
| `MsiHangup.HangupBreaksAgreement` | toxav/msi.c:242-276 | a hangup and new invite while an answer is on its way end in silence without agreement |
| `CallTable.MSISession.GetCall` | toxav/msi.c:613-622 | the call of the friend, or null exactly when there is none |
| `CallTable.MSISession.Splice` | toxav/msi.c:732-741 | chaining a call between its neighbours keeps all links right and all records unchanged |
| `CallTable.MSISession.FindPrevEntry` | toxav/msi.c:701-716 | the scan finds the last call before the free slot |
| `CallTable.MSISession.FindNextEntry` | toxav/msi.c:718-730 | the scan finds the first call behind the free slot |
| `CallTable.MSISession.NewCall` | toxav/msi.c:624-743 | a fresh record in the free slot, all other slots and records as before, array, head, tail and links in agreement |
| `CallTable.MSISession.KillCall` | toxav/msi.c:745-791 | the slot is cleared, all others as before, in agreement; the last call takes the container with it |
| `CallTable.MSISession.Walk` | toxav/msi.c:142-149 | following `next` from the head visits exactly the occupied slots in ascending order |
| `CallTable.OccupiedExact` | toxav/msi.c:613-791 | the list of occupied slots is complete, sound and strictly ascending |
| `CallTable.NeighboursInverse` | toxav/msi.c:624-791 | `prev` is the inverse of `next` |
| `CallTable.LinkedAfterInsert` | toxav/msi.c:680-741 | after an insertion only the links of the two neighbours differ |
| `CallTable.LinkedAfterRemove` | toxav/msi.c:756-775 | after a removal only the links of the two neighbours differ |
| `CallTable.Resized` | toxav/msi.c:661-676 | growing the array by empty slots changes no neighbour |
| `CallTable.FirstGone` | toxav/msi.c:144-149 | once the first call is gone, the one its link named is first and the rest is unchanged |
| `MsiSession.MsiInvite` | toxav/msi.c:197-240 | does to the friend's call what the protocol says, sends its INIT, touches no other call |
| `MsiSession.MsiHangup` | toxav/msi.c:242-276 | POP to the friend, call gone, no other call touched |
| `MsiSession.MsiAnswer` | toxav/msi.c:278-316 | refused unless requested; else active with the new capabilities and a PUSH |
| `MsiSession.MsiChangeCapabilities` | toxav/msi.c:318-352 | refused unless active; else new capabilities and a PUSH |
| `MsiSession.CheckPeerOffline` | toxav/msi.c:163-195 | exactly the call of an offline friend is dropped, silently |
| `MsiSession.MsiKill` | toxav/msi.c:123-158 | one POP per call in ascending order of friend number, and the container is empty |
| `MsiSession.HandleInitOn` | toxav/msi.c:797-880 | refines the INIT transition on the heap, whatever the callback returns |
| `MsiSession.HandlePushOn` | toxav/msi.c:885-943 | refines the PUSH transition on the heap |
| `MsiSession.HandlePopOn` | toxav/msi.c:945-989 | refines the POP transition on the heap: the call is gone, nothing is sent |
| `MsiSession.HandleMsiPacket` | toxav/msi.c:994-1065 | on arbitrary bytes, none included: only the friend's call changes and only messages to the friend are sent, exactly as the denoted message means; after a POP the friend has no call and nothing was sent; every stored call stays active or pending, and the abort is not reached |
| `TimestampBuffer.TSBuffer.Size` | toxav/ts_buffer.c:413-423 | the number of slots from start to end around the ring |
| `TimestampBuffer.TSBuffer.Write` | toxav/ts_buffer.c:53-72 | a buffer with room gains the entry at its end; a full one loses exactly its first entry, whose payload the caller gets, and keeps the order of the rest |
| `TimestampBuffer.TSBuffer.MoveDeleteEntry` | toxav/ts_buffer.c:74-87 | the destination's payload is freed once, the source moves there and is cleared |
| `TimestampBuffer.TSBuffer.CloseHole` | toxav/ts_buffer.c:89-112 | for every wrap position the entries before the hole move up by one and only the hole's payload is freed |
| `TimestampBuffer.TSBuffer.DeleteOldEntries` | toxav/ts_buffer.c:114-145 | for every wrap position a stable filter of the queue; exactly the payloads filtered out are freed |
| `TimestampBuffer.TSBuffer.FindOldest` | toxav/ts_buffer.c:171-191 | the first entry with the least timestamp in the window, or none exactly when none is wanted |
| `TimestampBuffer.TSBuffer.ReturnOldestEntryInRange` | toxav/ts_buffer.c:167-228 | the oldest wanted entry is taken out and its slot cleared, or nothing changes |
| `TimestampBuffer.TSBuffer.Read` | toxav/ts_buffer.c:293-338 | succeeds exactly when an entry lies from the range before the time asked for to one after it; returns one with the least stamp, leaves everything else that is not older than the window, accounts for every payload; a failed read changes nothing |
| `TimestampBuffer.TSBuffer.Drain` | toxav/ts_buffer.c:378-399 | releases everything below UINT32_MAX in ascending order and frees it, leaves exactly the entries stamped UINT32_MAX |
| `TimestampQueue.LeftoversAreNewer` | toxav/ts_buffer.c:293-338 | what a read leaves is at least as new as what it returned, for every window and all stamps |
| `TimestampQueue.ReadsAscend` | toxav/ts_buffer.c:293-338 | over any run of reads without writes, failing ones included, the returned timestamps never decrease |
| `TimestampQueue.ReadKeepsNewer` | toxav/ts_buffer.c:322-324 | a read keeps everything not older than its window if and only if the window does not start below zero or nothing else is buffered |
| `TimestampQueue.ReadMeans` | toxav/ts_buffer.c:167-228 | the entry read is an oldest in the window, and each other entry not older than the window is left as often as it was there |
| `TimestampQueue.TakeOutAt` | toxav/ts_buffer.c:193-224 | the first entry moves into the place of the one taken out, the others keep their order |
| `TimestampQueue.KeepIsFilter` | toxav/ts_buffer.c:114-145 | dropping old entries is an order-preserving filter |
| `TimestampQueue.WriteMeans` | toxav/ts_buffer.c:53-72 | which entry a full buffer loses |
| `TimestampQueue.WriteBalances` | toxav/ts_buffer.c:53-72 | a write keeps the account of payloads |
| `TimestampQueue.ReadBalances` | toxav/ts_buffer.c:293-338 | a read keeps the account of payloads |
| `TimestampQueue.CountKeep` | toxav/ts_buffer.c:114-145 | filtering splits the payloads into kept and freed, each once |
| `TimestampQueue.DrainNext` | toxav/ts_buffer.c:378-399 | each step of a drain releases the oldest entry, loses nothing and gets shorter |
| `TokenProcesses.Spawn` | super_donators/grencez_tok5.c:9-22 | the fork loop gives every pipe one reader and one writer and makes process i+1 modulo n the reader of process i, for every n |
| `TokenProcesses.Processes.FirstSend` | super_donators/grencez_tok5.c:26-26 | the send before the loop is the start step of the ring |
| `TokenProcesses.Processes.Loop` | super_donators/grencez_tok5.c:27-39 | one round is the receive step of the ring, and at most one action fires |
| `TokenRing.ActDisablesItself` | super_donators/grencez_tok5.c:30-38 | no action would fire twice on one message |
| `TokenRing.SomeoneCanAct` | super_donators/grencez_tok5.c:30-38 | whatever the values, some process would act on its predecessor's |
| `TokenRing.ReceiveCounts` | super_donators/grencez_tok5.c:25-38 | a message that fires is replaced by one, any other is lost |
| `TokenRing.ReceiveKeepsInv` | super_donators/grencez_tok5.c:23-39 | newest message equals writer's value, readers of empty pipes are idle: kept by every round |
| `TokenRing.AlwaysSomeToken` | super_donators/grencez_tok5.c:23-39 | in every run from any values there are between one and n tokens |
| `TokenRing.TokensAreMessages` | super_donators/grencez_tok5.c:23-26 | once every process has sent its first value, the tokens are exactly the messages in the pipes |
| `TokenRing.RunKeeps` | super_donators/grencez_tok5.c:23-39 | no step of any run adds a token or removes the last |
| `TokenRing.NeverStuck` | super_donators/grencez_tok5.c:26-27 | some process can always take a step |
| `TokenRing.TokenMoves` | super_donators/grencez_tok5.c:27-39 | with one message only its reader can move; it acts and the message goes to its successor |
| `TokenRing.Circulates` | super_donators/grencez_tok5.c:12-39 | one token stays one forever, every round acts, the processes act in ring order |
| `TokenRing.RingOrderAt` | super_donators/grencez_tok5.c:12-22 | in ring order the first n rounds are those of i, i + 1, ... once round the ring |
| `TokenRing.RingOrderRepeats` | super_donators/grencez_tok5.c:12-22 | and every round repeats n rounds later, so each process acts once in every n |
| `TokenTable.NoTable` | super_donators/grencez_tok5.c:29-38 | the table of values of a ring of n processes that loses none of its k messages, 2 <= k <= n, has fewer than 6 n + 10 columns |
| `TokenTable.Periodic` | super_donators/grencez_tok5.c:29-34 | without losses process 0 is at 2 with period k - 1, for k messages |
| `TokenTable.NextBlock` | super_donators/grencez_tok5.c:29-38 | how a block 0 2 or 0 1 2 changes the values of all processes |
| `TokenConvergence.TraceIsTable` | super_donators/grencez_tok5.c:23-39 | whatever the schedule, a run without losses is such a table |
| `TokenConvergence.SomethingIsLost` | super_donators/grencez_tok5.c:1-4 | while two messages are left, any n * (9 n + 10) rounds lose one |
| `TokenConvergence.Stabilizes` | super_donators/grencez_tok5.c:1-4 | from any values every run of enough steps ends with exactly one token |
| `TokenConvergence.StabilizesInCubicTime` | super_donators/grencez_tok5.c:1-4 | the number of steps is n + (n - 1) * n * (9 n + 10) |
| `TokenConvergence.StabilizesForGood` | super_donators/grencez_tok5.c:1-4 | and from then on there is one token and the processes act in turn |
| `Clock.DelayIsBothWays` | toxav/dummy_ntp.c:100-116 | the delay is the time on both ways, even when clocks wrap |
| `Clock.OffsetErrorBound` | toxav/dummy_ntp.c:74-98 | twice the error is at most the difference of the ways plus one if and only if the wraps cancel; equal ways give the exact offset |
| `Clock.WrapSpoilsOffset` | toxav/dummy_ntp.c:92-97 | a wrapped stamp breaks the bound |
| `Clock.DriftExact` | toxav/dummy_ntp.c:31-72 | after n calls the offset is on its side of the target at exactly the stated distance: no overshoot |
| `Clock.DriftArrives` | toxav/dummy_ntp.c:31-72 | within the jitter exactly from a stated number of calls on |
| `Clock.SmoothExact` | toxav/rtp.c:655-667 | an update moves toward the sample without overshooting if and only if no sum wraps in a way that matters |
| `Clock.SmoothRunExact` | toxav/rtp.c:655-667 | all updates toward a constant sample behave so if and only if the first one does and the sample leaves 140 below 2^32 or is within the threshold already |
| `Clock.SmoothArrives` | toxav/rtp.c:655-667 | in exactly those cases: never past the sample, and within the threshold exactly from a stated number of updates on |
| `Clock.SmoothCanOvershoot` | toxav/rtp.c:655-657 | near 2^32 an update can wrap to the far side |
| `Clock.VideoClock.Drift` | toxav/dummy_ntp.c:31-72 | the field becomes the drifted offset; true exactly on a jump |
| `Clock.VideoClock.SmoothRoundTrip` | toxav/rtp.c:655-667 | the field becomes the smoothed round-trip time |

## Left out

- RtpSession.RTPSession.HandleVideoPacket: what happens after a copy outside the buffer, an empty payload or a wrap of the 32-bit byte counter is not modelled (`Acceptable` excludes exactly these). The buffer is taken to end with the frame; the source allocates some padding behind it.
- RtpSession.RTPSession.FillDataIntoSlot: the same exclusions.
- Reassembly.HandleOk: the same exclusions.
- RtpTransfer.HandleConserves: the same exclusions.
- RtpSender.Sender.SendData: frames whose length plus header does not fit 32 bits are excluded: the length comparison in the source wraps there and the frame is copied into a buffer sized by the wrapped length, which no specification describes. A failed transport send is not modelled. The flags come with the frame; the source derives them from codec, orientation and key frame.
- RtpSender.Sender.SendPieces: the same frames are excluded.
- RtpHeader.Pack: the codec is stated on values (one list of fields per header) instead of moving pointers, so the write order within the buffer is not captured.
- MsiCodec.SendBytes: the message is printed as a value, not into a fixed buffer.
- ClientList.QSort: stands for the library's qsort; callers rely only on getting some sorted arrangement. Allocation failure, after which the source skips sorting, is not modelled.
- ClosestNodes.GetCloseNodes: whether an address is a LAN address is a parameter of the query; the announce filter is the one compiled in with CHECK_ANNOUNCE_NODE (a query that does not ask for it gives the other build).
- ClientList.UpdateClientWithReset: addresses are taken as given, without the IPv4-in-IPv6 normalisation done by callers.
- TimestampBuffer.TSBuffer.Read: no claim is made about the number of removed entries it reports, which the source computes from a slot after shifting.
- MsiProtocol.CallsAgree: runs without hangups; `MsiHangup` treats those with hangups.
- MsiHangup.PoliteRunsAgree: an impolite invite that is neither made at once after the hangup nor followed by deliveries only is not characterised.
- MsiSession.HandleMsiPacket: callbacks report success or failure and do not call back into the session.
- TokenProcesses.Processes.Loop: one round (read, act, write) is one step; the moment between read and write is not a state of its own, and printing and sleeping are not modelled.
- Clock.VideoClock.Drift: the difference of the offsets must fit 64 bits, as signed overflow is undefined in C; the check that discards replies older than two seconds is not modelled.
- The second copy of the call container (`call_new`, `call_remove` in toxav/toxav.c): the same algorithm as the one modelled in `CallTable`.
- Memory allocation failure, mutexes, logging, sockets, encryption and the audio and video codecs.
- The checks of packet type and payload type in front of `handle_video_packet`.
- The old 16-bit multipart path of `handle_rtp_packet`, the jitter buffer of toxav/groupav.c, toxav/ring_buffer.c and toxav/bwcontroller.c: easier variants of what is modelled, or plumbing.
- Placement of nodes into the buckets of the close list, and saving and loading the DHT state.
