/**
  What the video receiver computes, on values: a work buffer slot is the sequence of
  packets copied into it so far (a `Group`), and the bytes and counters of the slot are
  functions of that sequence.  `RtpSession` refines this machine on the heap.
 */
module Reassembly {
  import opened Words
  import opened RtpHeader

  /** USED_RTP_WORKBUFFER_COUNT */
  const SLOT_COUNT: nat := 3

  datatype Packet = Packet(header: RTPHeader, payload: seq<byte>) {
    function Start(): nat { header.offsetFull }
    function End(): nat { header.offsetFull + |payload| }
  }

  type Group = seq<Packet>

  /** What the receive callback gets: a message header and the frame bytes. */
  datatype Delivery = Delivery(header: RTPHeader, data: seq<byte>)

  predicate SameFrame(a: RTPHeader, b: RTPHeader) {
    a.sequnum == b.sequnum && a.timestamp == b.timestamp
  }

  function Zeros(n: nat): (z: seq<byte>)
    ensures |z| == n
  {
    seq(n, _ => 0)
  }

  /** memcpy of `chunk` to offset `off` of `buf`. */
  function Paste(buf: seq<byte>, off: nat, chunk: seq<byte>): (r: seq<byte>)
    requires off + |chunk| <= |buf|
    ensures |r| == |buf|
    ensures forall i :: 0 <= i < |buf| ==> r[i] == if off <= i < off + |chunk| then chunk[i - off] else buf[i]
  {
    buf[..off] + chunk + buf[off + |chunk|..]
  }

  /** Number of payload bytes copied into a slot, regardless of which pieces. */
  function Received(g: Group): nat {
    if g == [] then 0 else Received(g[..|g| - 1]) + |g[|g| - 1].payload|
  }

  predicate Fits(len: nat, g: Group) {
    forall i :: 0 <= i < |g| ==> g[i].End() <= len
  }

  /** Contents of a zero-initialised buffer after copying the packets of `g` in order. */
  function Assemble(len: nat, g: Group): (r: seq<byte>)
    requires Fits(len, g)
    ensures |r| == len
  {
    if g == [] then Zeros(len)
    else
      var last := g[|g| - 1];
      Paste(Assemble(len, g[..|g| - 1]), last.Start(), last.payload)
  }

  /** Packets of one slot: non-empty pieces of one frame, inside the buffer the first of them asked for. */
  predicate GroupOk(g: Group) {
    && g != []
    && Received(g) < U32_LIMIT
    && forall i :: 0 <= i < |g| ==>
         && SameFrame(g[i].header, g[0].header)
         && g[i].payload != []
         && g[i].End() <= g[0].header.dataLengthFull
  }

  /** `p` is one more piece of the frame of `g`. */
  predicate Extends(g: Group, p: Packet) {
    && g != []
    && SameFrame(p.header, g[0].header)
    && p.payload != []
    && p.End() <= g[0].header.dataLengthFull
    && Received(g) + |p.payload| < U32_LIMIT
  }

  /** Copying one more packet in: the counter grows by its length, the bytes by one paste. */
  lemma Extend(g: Group, p: Packet)
    requires GroupOk(g) && Extends(g, p)
    ensures GroupOk(g + [p])
    ensures Received(g + [p]) == Received(g) + |p.payload|
    ensures MessageOf(g + [p]) ==
            Delivery(MessageOf(g).header.(receivedLengthFull := Received(g + [p])), Paste(MessageOf(g).data, p.Start(), p.payload))
  {
    assert (g + [p])[..|g|] == g;
  }

  lemma Open(p: Packet)
    requires p.payload != [] && p.End() <= p.header.dataLengthFull
    ensures GroupOk([p])
    ensures Received([p]) == |p.payload|
    ensures MessageOf([p]) ==
            Delivery(p.header.(receivedLengthFull := |p.payload|), Paste(Zeros(p.header.dataLengthFull), p.Start(), p.payload))
  {
    assert [p][..0] == [];
    assert Received([]) == 0;
    var len := p.header.dataLengthFull;
    assert Assemble(len, []) == Zeros(len);
    assert Assemble(len, [p]) == Paste(Assemble(len, [p][..0]), p.Start(), p.payload);
  }

  lemma Nonempty(g: Group)
    requires GroupOk(g)
    ensures Received(g) > 0
  {
    assert g[|g| - 1].payload != [];
  }

  predicate SlotsOk(slots: seq<Group>) {
    |slots| <= SLOT_COUNT && AllOk(slots)
  }

  /** The message a slot holds: first header seen, with the received length updated. */
  function MessageOf(g: Group): Delivery
    requires GroupOk(g)
  {
    Delivery(g[0].header.(receivedLengthFull := Received(g)), Assemble(g[0].header.dataLengthFull, g))
  }

  function MessagesOf(gs: seq<Group>): (ds: seq<Delivery>)
    requires AllOk(gs)
    ensures |ds| == |gs|
  {
    seq(|gs|, i requires 0 <= i < |gs| => MessageOf(gs[i]))
  }

  /** The sanity checks at the head of handle_video_packet. */
  predicate Sane(p: Packet) {
    p.header.dataLengthFull != 0 && p.header.offsetFull < p.header.dataLengthFull
  }

  predicate IsMultipart(p: Packet) {
    p.header.dataLengthFull != |p.payload|
  }

  /** First slot that already holds pieces of the frame, or |slots|. */
  function FindSlot(slots: seq<Group>, h: RTPHeader): (i: nat)
    requires forall j :: 0 <= j < |slots| ==> slots[j] != []
    ensures i <= |slots|
    ensures i < |slots| ==> SameFrame(slots[i][0].header, h)
    ensures forall j :: 0 <= j < i ==> !SameFrame(slots[j][0].header, h)
  {
    if slots == [] then 0
    else if SameFrame(slots[0][0].header, h) then 0
    else 1 + FindSlot(slots[1..], h)
  }

  /** Slot the packet goes to once an eviction, if any, has been made. */
  function Target(slots: seq<Group>, p: Packet): (i: nat)
    requires forall j :: 0 <= j < |slots| ==> slots[j] != []
    ensures i <= |slots|
  {
    if IsMultipart(p) then FindSlot(slots, p.header) else |slots|
  }

  /** `p` is ignored, or it can be copied into the slot it would go to: it is not empty, it lies inside the
      buffer of the slot, which has the length its first packet announced, and the 32-bit byte counter does
      not wrap. */
  predicate Acceptable(slots: seq<Group>, p: Packet)
    requires forall j :: 0 <= j < |slots| ==> slots[j] != []
  {
    && |p.payload| < U16_LIMIT
    && (Sane(p) ==>
          && p.payload != []
          && var t := Target(slots, p);
             if t < |slots| then
               p.End() <= slots[t][0].header.dataLengthFull && Received(slots[t]) + |p.payload| < U32_LIMIT
             else
               p.End() <= p.header.dataLengthFull)
  }

  datatype Outcome = Outcome(slots: seq<Group>, delivered: seq<Group>)

  function RemoveAt(slots: seq<Group>, i: nat): seq<Group>
    requires i < |slots|
  {
    slots[..i] + slots[i + 1..]
  }

  /** Eviction of slot 0 when every slot is taken by other frames. */
  function MakeRoom(slots: seq<Group>, t: nat): Outcome
    requires t <= |slots| <= SLOT_COUNT
  {
    if t == |slots| == SLOT_COUNT then Outcome(slots[1..], [slots[0]]) else Outcome(slots, [])
  }

  /** Append `p` to slot `t`, opening it when it is the next free one. */
  function Put(slots: seq<Group>, t: nat, p: Packet): (r: seq<Group>)
    requires t <= |slots|
    ensures |r| == if t == |slots| then |slots| + 1 else |slots|
  {
    if t == |slots| then slots + [[p]] else slots[t := slots[t] + [p]]
  }

  /** Slot `t` is complete: hand it over, and a lingering slot 0 after it. */
  function Flush(slots: seq<Group>, t: nat): Outcome
    requires t < |slots| && slots[t] != [] && slots[0] != []
  {
    if 0 < t && slots[0][0].header.sequnum + 2 < slots[t][0].header.sequnum then
      Outcome(RemoveAt(slots, t)[1..], [slots[t], slots[0]])
    else
      Outcome(RemoveAt(slots, t), [slots[t]])
  }

  /** The slots and deliveries once there is room for `p`, and the slot it goes to. */
  function RoomFor(slots: seq<Group>, p: Packet): Outcome
    requires SlotsOk(slots)
  {
    MakeRoom(slots, Target(slots, p))
  }

  function Place(slots: seq<Group>, p: Packet): (t: nat)
    requires SlotsOk(slots)
    ensures t <= |RoomFor(slots, p).slots| && t < SLOT_COUNT
  {
    var t := Target(slots, p);
    if t == |slots| then |RoomFor(slots, p).slots| else t
  }

  /** With `p` the byte counter of its slot reaches the length of the frame. */
  predicate Completes(slots: seq<Group>, p: Packet)
    requires SlotsOk(slots)
  {
    Sane(p) && Received(Put(RoomFor(slots, p).slots, Place(slots, p), p)[Place(slots, p)]) == p.header.dataLengthFull
  }

  /** handle_video_packet. */
  function Handle(slots: seq<Group>, p: Packet): Outcome
    requires SlotsOk(slots)
  {
    if !Sane(p) then Outcome(slots, [])
    else
      var room := RoomFor(slots, p);
      var t := Place(slots, p);
      var filled := Put(room.slots, t, p);
      if Received(filled[t]) != p.header.dataLengthFull then Outcome(filled, room.delivered)
      else
        var f := Flush(filled, t);
        Outcome(f.slots, room.delivered + f.delivered)
  }

  predicate AllOk(gs: seq<Group>) {
    forall i :: 0 <= i < |gs| ==> gs[i] != [] && GroupOk(gs[i])
  }

  lemma PutOk(slots: seq<Group>, t: nat, p: Packet)
    requires AllOk(slots) && t <= |slots|
    requires p.payload != []
    requires if t < |slots| then Extends(slots[t], p) else p.End() <= p.header.dataLengthFull
    ensures AllOk(Put(slots, t, p))
  {
    hide GroupOk, Extends;
    if t == |slots| {
      Open(p);
    } else {
      Extend(slots[t], p);
    }
  }

  lemma FlushOk(slots: seq<Group>, t: nat)
    requires AllOk(slots) && t < |slots|
    ensures AllOk(Flush(slots, t).slots) && AllOk(Flush(slots, t).delivered)
    ensures |Flush(slots, t).slots| < |slots|
  {
    hide GroupOk;
  }

  /** An acceptable packet can be stored once there is room for it. */
  lemma RoomOk(slots: seq<Group>, p: Packet)
    requires SlotsOk(slots) && Sane(p) && Acceptable(slots, p)
    ensures p.payload != []
    ensures var room, t := RoomFor(slots, p), Place(slots, p);
            && AllOk(room.slots) && AllOk(room.delivered)
            && (if t < |room.slots| then Extends(room.slots[t], p) else p.End() <= p.header.dataLengthFull)
            && AllOk(Put(room.slots, t, p))
  {
    hide GroupOk;
    PutOk(RoomFor(slots, p).slots, Place(slots, p), p);
  }

  /** Every acceptable packet leaves well-formed slots and hands over well-formed groups. */
  lemma {:induction false} HandleOk(slots: seq<Group>, p: Packet)
    requires SlotsOk(slots) && Acceptable(slots, p)
    ensures SlotsOk(Handle(slots, p).slots) && AllOk(Handle(slots, p).delivered)
  {
    hide GroupOk, Acceptable;
    if Sane(p) {
      RoomOk(slots, p);
      FlushOk(Put(RoomFor(slots, p).slots, Place(slots, p), p), Place(slots, p));
    }
  }

  lemma MessagesOfConcat(gs: seq<Group>, hs: seq<Group>)
    requires AllOk(gs) && AllOk(hs)
    ensures AllOk(gs + hs) && MessagesOf(gs + hs) == MessagesOf(gs) + MessagesOf(hs)
  {
    hide GroupOk, MessageOf;
  }

  /** A packet for an empty work buffer. */
  lemma FirstPiece(p: Packet)
    requires Sane(p) && 0 < |p.payload| < U16_LIMIT && p.End() <= p.header.dataLengthFull
    ensures SlotsOk([]) && Acceptable([], p)
    ensures Handle([], p) == if IsMultipart(p) then Outcome([[p]], []) else Outcome([], [[p]])
  {
    Open(p);
    hide GroupOk;
    assert Target([], p) == 0;
    assert Put([], 0, p) == [[p]];
    assert RemoveAt([[p]], 0) == [];
  }

  /** A further packet of the only frame in the work buffer. */
  lemma NextPiece(g: Group, p: Packet)
    requires GroupOk(g) && Extends(g, p) && Sane(p) && IsMultipart(p) && |p.payload| < U16_LIMIT
    ensures SlotsOk([g]) && Acceptable([g], p)
    ensures Handle([g], p) ==
            if Received(g) + |p.payload| != p.header.dataLengthFull then Outcome([g + [p]], []) else Outcome([], [g + [p]])
  {
    Extend(g, p);
    hide GroupOk;
    assert FindSlot([g], p.header) == 0;
    assert Put([g], 0, p) == [g + [p]];
    assert RemoveAt([g + [p]], 0) == [];
  }
}
