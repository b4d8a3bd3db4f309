/**
  The video receive path of toxav/rtp.c on the heap: messages are objects, the work buffer
  is an array of slots that own them, and frames are rebuilt by copying in place.
  Every operation is proved to refine the value-level machine of `Reassembly`.
 */
module RtpSession {
  import opened Words
  import opened RtpHeader
  import opened Reassembly

  class RTPMessage {
    var header: RTPHeader
    const data: array<byte>

    /** calloc of a message with room for a whole frame. */
    constructor (h: RTPHeader, size: nat)
      ensures header == h && fresh(data) && data[..] == Zeros(size)
    {
      header := h;
      data := new byte[size](_ => 0);
    }
  }

  /** One slot.  `buf` is null exactly when the slot is free. */
  datatype RTPWorkBuffer = RTPWorkBuffer(isKeyframe: bool, receivedLen: u32, buf: RTPMessage?)

  const EMPTY_SLOT := RTPWorkBuffer(false, 0, null)

  /** get_slot's "clear slot 0 first" */
  const DROP_OLDEST_SLOT: int := -1

  /** Slot `w` holds exactly the message made of the packets `g`. */
  ghost predicate Holds(w: RTPWorkBuffer, g: Group)
    reads if w.buf == null then {} else {w.buf, w.buf.data}
  {
    && GroupOk(g)
    && w.buf != null
    && w.receivedLen == Received(g)
    && w.buf.header == MessageOf(g).header
    && w.buf.data[..] == MessageOf(g).data
  }

  ghost predicate Owns(w: RTPWorkBuffer, owned: set<object>) {
    w.buf != null && w.buf in owned && w.buf.data in owned
  }

  ghost predicate Separate(v: RTPWorkBuffer, w: RTPWorkBuffer) {
    v.buf != null && w.buf != null && v.buf != w.buf && v.buf.data != w.buf.data
  }

  /** Each used slot has a message of its own inside `owned`. */
  ghost predicate Shape(ws: seq<RTPWorkBuffer>, owned: set<object>) {
    && (forall i :: 0 <= i < |ws| ==> Owns(ws[i], owned))
    && (forall i, j :: 0 <= i < j < |ws| ==> Separate(ws[i], ws[j]))
  }

  /** The used slots `ws` hold the groups `gs` in messages of their own, all inside `owned`. */
  ghost predicate SlotsHold(ws: seq<RTPWorkBuffer>, gs: seq<Group>, owned: set<object>)
    reads owned
  {
    && |ws| == |gs|
    && Shape(ws, owned)
    && (forall i :: 0 <= i < |ws| ==> Holds(ws[i], gs[i]))
  }

  ghost function Bufs(ws: seq<RTPWorkBuffer>): set<RTPMessage?> {
    set i | 0 <= i < |ws| :: ws[i].buf
  }

  /** Every allocated message is in one slot or was handed over once, never both. */
  ghost predicate AccountedFor(allocations: set<RTPMessage?>, inSlots: set<RTPMessage?>, handedOver: seq<RTPMessage?>) {
    && allocations == inSlots + (set m | m in handedOver)
    && (forall i :: 0 <= i < |handedOver| ==> handedOver[i] !in inSlots)
    && (forall i, j :: 0 <= i < j < |handedOver| ==> handedOver[i] != handedOver[j])
  }

  lemma HandOver(allocations: set<RTPMessage?>, inSlots: set<RTPMessage?>, handedOver: seq<RTPMessage?>, m: RTPMessage?)
    requires AccountedFor(allocations, inSlots, handedOver) && m in inSlots
    ensures AccountedFor(allocations, inSlots - {m}, handedOver + [m])
  {}

  function Without(ws: seq<RTPWorkBuffer>, i: nat): seq<RTPWorkBuffer>
    requires i < |ws|
  {
    ws[..i] + ws[i + 1..]
  }

  lemma WithoutSlot(ws: seq<RTPWorkBuffer>, gs: seq<Group>, owned: set<object>, k: nat)
    requires SlotsHold(ws, gs, owned) && k < |ws|
    ensures SlotsHold(Without(ws, k), RemoveAt(gs, k), owned - {ws[k].buf, ws[k].buf.data})
    ensures Bufs(Without(ws, k)) == Bufs(ws) - {ws[k].buf}
  {
    hide Holds;
    var rest := owned - {ws[k].buf, ws[k].buf.data};
    var vs, hs := Without(ws, k), RemoveAt(gs, k);
    forall i | 0 <= i < |vs|
      ensures Owns(vs[i], rest) && Holds(vs[i], hs[i]) && vs[i].buf in Bufs(ws) && vs[i].buf != ws[k].buf
    {
      var j := if i < k then i else i + 1;
      assert vs[i] == ws[j] && hs[i] == gs[j];
      assert Separate(ws[if j < k then j else k], ws[if j < k then k else j]);
      assert Owns(ws[j], owned) && Holds(ws[j], gs[j]);
    }
    forall b | b in Bufs(ws) && b != ws[k].buf
      ensures b in Bufs(vs)
    {
      var j :| 0 <= j < |ws| && ws[j].buf == b;
      assert ws[j] == vs[if j < k then j else j - 1];
    }
  }

  lemma SlotFacts(ws: seq<RTPWorkBuffer>, gs: seq<Group>, owned: set<object>, k: nat)
    requires SlotsHold(ws, gs, owned) && k < |ws|
    ensures |ws| == |gs| && Owns(ws[k], owned) && GroupOk(gs[k]) && ws[k].receivedLen == Received(gs[k])
    ensures Delivery(ws[k].buf.header, ws[k].buf.data[..]) == MessageOf(gs[k])
    ensures ws[k].buf.data.Length == gs[k][0].header.dataLengthFull
    ensures ws[k].buf.header.sequnum == gs[k][0].header.sequnum
  {
    hide GroupOk;
    assert Holds(ws[k], gs[k]);
  }

  lemma Refill(ws: seq<RTPWorkBuffer>, gs: seq<Group>, owned: set<object>, k: nat, w: RTPWorkBuffer, g: Group)
    requires Shape(ws, owned) && |ws| == |gs| && k < |ws| && w.buf == ws[k].buf
    requires forall i :: 0 <= i < |ws| && i != k ==> Holds(ws[i], gs[i])
    requires Holds(w, g)
    ensures SlotsHold(ws[k := w], gs[k := g], owned)
    ensures Bufs(ws[k := w]) == Bufs(ws)
  {
    hide Holds;
    var vs := ws[k := w];
    assert forall i :: 0 <= i < |vs| ==> vs[i].buf == ws[i].buf;
  }

  lemma AddSlot(ws: seq<RTPWorkBuffer>, gs: seq<Group>, owned: set<object>, w: RTPWorkBuffer, g: Group)
    requires Shape(ws, owned) && |ws| == |gs|
    requires forall i :: 0 <= i < |ws| ==> Holds(ws[i], gs[i])
    requires w.buf != null && w.buf !in owned && w.buf.data !in owned && Holds(w, g)
    ensures SlotsHold(ws + [w], gs + [g], owned + {w.buf, w.buf.data})
    ensures Bufs(ws + [w]) == Bufs(ws) + {w.buf}
  {
    hide Holds;
    var vs, hs := ws + [w], gs + [g];
    assert vs[|ws|] == w;
    forall i | 0 <= i < |ws|
      ensures vs[i] == ws[i] && hs[i] == gs[i] && Separate(vs[i], w)
    {
      assert Owns(ws[i], owned);
    }
  }

  lemma GapClosed<T>(was: seq<T>, now: seq<T>, k: nat, n: nat)
    requires k < n <= |was| == |now|
    requires forall j :: 0 <= j < k ==> now[j] == was[j]
    requires forall j :: k <= j < n - 1 ==> now[j] == was[j + 1]
    ensures now[..n - 1] == was[..k] + was[k + 1..n]
  {}

  class RTPSession {
    const workBuffer: array<RTPWorkBuffer>
    var nextFreeEntry: nat
    /** Log of the calls of the receive callback. */
    var delivered: seq<Delivery>

    /** The packets copied into each used slot. */
    ghost var groups: seq<Group>
    /** Objects that belong to used slots. */
    ghost var owned: set<object>
    /** Messages allocated so far, and those passed on to the callback, in order. */
    ghost var allocations: set<RTPMessage?>
    ghost var handedOver: seq<RTPMessage?>

    ghost predicate Valid()
      reads this, workBuffer, owned
    {
      && this !in owned && workBuffer !in owned
      && workBuffer.Length == SLOT_COUNT
      && nextFreeEntry == |groups| <= SLOT_COUNT
      && SlotsHold(workBuffer[..nextFreeEntry], groups, owned)
      && (forall i :: nextFreeEntry <= i < SLOT_COUNT ==> workBuffer[i] == EMPTY_SLOT)
    }

    ghost predicate Accounted()
      requires nextFreeEntry <= workBuffer.Length
      reads this, workBuffer
    {
      AccountedFor(allocations, Bufs(workBuffer[..nextFreeEntry]), handedOver)
    }

    constructor ()
      ensures Valid() && Accounted() && fresh(workBuffer) && owned == {}
      ensures groups == [] && delivered == [] && handedOver == [] && allocations == {}
    {
      workBuffer := new RTPWorkBuffer[SLOT_COUNT](_ => EMPTY_SLOT);
      nextFreeEntry, delivered := 0, [];
      groups, owned, allocations, handedOver := [], {}, {}, [];
    }

    method GetSlot(header: RTPHeader, isMultipart: bool) returns (slot: int)
      requires Valid()
      ensures var t := if isMultipart then FindSlot(groups, header) else |groups|;
              slot == if t == |groups| == SLOT_COUNT then DROP_OLDEST_SLOT else t
    {
      if nextFreeEntry == 0 {
        return 0;
      }
      if isMultipart {
        for i := 0 to nextFreeEntry
          invariant FindSlot(groups, header) >= i
        {
          assert Holds(workBuffer[..nextFreeEntry][i], groups[i]);
          var slotHeader := workBuffer[i].buf.header;
          if slotHeader.sequnum == header.sequnum && slotHeader.timestamp == header.timestamp {
            return i;
          }
          assert !SameFrame(groups[i][0].header, header);
        }
      }
      if nextFreeEntry < SLOT_COUNT {
        return nextFreeEntry;
      }
      return DROP_OLDEST_SLOT;
    }

    /** Empty a used slot, move the later ones up, clear the last. */
    method CloseGap(slotId: nat)
      requires slotId < nextFreeEntry <= workBuffer.Length
      modifies workBuffer
      ensures workBuffer[..nextFreeEntry - 1] == old(workBuffer[..])[..slotId] + old(workBuffer[..])[slotId + 1..nextFreeEntry]
      ensures workBuffer[nextFreeEntry - 1] == EMPTY_SLOT
      ensures forall j :: nextFreeEntry <= j < workBuffer.Length ==> workBuffer[j] == old(workBuffer[j])
    {
      ghost var ws, n := workBuffer[..], nextFreeEntry;
      workBuffer[slotId] := workBuffer[slotId].(buf := null);
      if slotId != nextFreeEntry - 1 {
        for i := slotId to nextFreeEntry - 1
          invariant forall j :: 0 <= j < slotId ==> workBuffer[j] == ws[j]
          invariant forall j :: slotId <= j < i ==> workBuffer[j] == ws[j + 1]
          invariant forall j :: i < j < workBuffer.Length ==> workBuffer[j] == ws[j]
        {
          workBuffer[i] := workBuffer[i + 1];
        }
      }
      workBuffer[nextFreeEntry - 1] := EMPTY_SLOT;
      GapClosed(ws, workBuffer[..], slotId, n);
    }

    /** Move the message of a slot out to the caller and close the gap. */
    method ProcessFrame(slotId: nat) returns (m: RTPMessage?)
      requires Valid()
      requires nextFreeEntry == 0 || slotId < nextFreeEntry
      modifies `nextFreeEntry, `groups, `owned, workBuffer
      ensures Valid()
      ensures old(nextFreeEntry) == 0 ==>
                && m == null && groups == old(groups) && owned == old(owned)
                && workBuffer[..] == old(workBuffer[..]) && nextFreeEntry == 0
      ensures old(nextFreeEntry) > 0 ==>
                && m != null && m == old(workBuffer[slotId].buf)
                && Delivery(m.header, m.data[..]) == MessageOf(old(groups)[slotId])
                && groups == RemoveAt(old(groups), slotId)
                && owned == old(owned) - {m, m.data}
                && nextFreeEntry == old(nextFreeEntry) - 1
                && Bufs(workBuffer[..nextFreeEntry]) == old(Bufs(workBuffer[..nextFreeEntry])) - {m}
                && m in old(Bufs(workBuffer[..nextFreeEntry]))
    {
      hide SlotsHold, GroupOk, MessageOf;
      if nextFreeEntry == 0 {
        return null;
      }
      ghost var ws := workBuffer[..nextFreeEntry];
      WithoutSlot(ws, groups, owned, slotId);
      SlotFacts(ws, groups, owned, slotId);
      m := workBuffer[slotId].buf;
      CloseGap(slotId);
      nextFreeEntry := nextFreeEntry - 1;
      groups := RemoveAt(groups, slotId);
      owned := owned - {m, m.data};
      assert workBuffer[..nextFreeEntry] == Without(ws, slotId);
    }

    /** Copy one piece to its place in the frame of a slot and add up its length. */
    method StorePiece(slotId: nat, offset: nat, incoming: seq<byte>)
      requires slotId < workBuffer.Length && workBuffer[slotId].buf != null
      requires offset + |incoming| <= workBuffer[slotId].buf.data.Length
      requires workBuffer[slotId].receivedLen + |incoming| < U32_LIMIT
      modifies workBuffer, workBuffer[slotId].buf, workBuffer[slotId].buf.data
      ensures var slot := old(workBuffer[slotId]);
              var received := slot.receivedLen + |incoming|;
              && workBuffer[..] == old(workBuffer[..])[slotId := slot.(receivedLen := received)]
              && slot.buf.header == old(slot.buf.header).(receivedLengthFull := received)
              && slot.buf.data[..] == Paste(old(slot.buf.data[..]), offset, incoming)
    {
      var slot := workBuffer[slotId];
      forall i | 0 <= i < |incoming| {
        slot.buf.data[offset + i] := incoming[i];
      }
      workBuffer[slotId] := slot.(receivedLen := slot.receivedLen + |incoming|);
      slot.buf.header := slot.buf.header.(receivedLengthFull := workBuffer[slotId].receivedLen);
    }

    /** First piece of a frame: open the next free slot with a fresh message. */
    method FillNewSlot(header: RTPHeader, incoming: seq<byte>)
      requires Valid() && nextFreeEntry < SLOT_COUNT
      requires incoming != [] && header.offsetFull + |incoming| <= header.dataLengthFull
      modifies `nextFreeEntry, `groups, `owned, `allocations, workBuffer
      ensures Valid()
      ensures groups == old(groups) + [[Packet(header, incoming)]]
      ensures var buf := workBuffer[old(nextFreeEntry)].buf;
              && buf != null && fresh(buf) && fresh(buf.data) && owned == old(owned) + {buf, buf.data}
              && allocations == old(allocations) + {buf}
              && Bufs(workBuffer[..nextFreeEntry]) == old(Bufs(workBuffer[..nextFreeEntry])) + {buf}
    {
      hide GroupOk, MessageOf, Bufs, Paste;
      ghost var ws := workBuffer[..nextFreeEntry];
      ghost var p := Packet(header, incoming);
      var msg := new RTPMessage(header, header.dataLengthFull);
      workBuffer[nextFreeEntry] := RTPWorkBuffer(false, 0, msg);
      Open(p);
      StorePiece(nextFreeEntry, header.offsetFull, incoming);
      forall i | 0 <= i < |ws|
        ensures Holds(ws[i], groups[i])
      {
        assert old(Holds(ws[i], groups[i])) && Owns(ws[i], owned);
      }
      AddSlot(ws, groups, owned, workBuffer[nextFreeEntry], [p]);
      assert workBuffer[..nextFreeEntry + 1] == ws + [workBuffer[nextFreeEntry]];
      groups := groups + [[p]];
      owned := owned + {msg, msg.data};
      allocations := allocations + {msg};
      nextFreeEntry := nextFreeEntry + 1;
    }

    /** A further piece of a frame that has a slot. */
    method FillUsedSlot(slotId: nat, header: RTPHeader, incoming: seq<byte>)
      requires Valid() && slotId < nextFreeEntry
      requires Extends(groups[slotId], Packet(header, incoming))
      modifies `groups, workBuffer, owned
      ensures Valid()
      ensures groups == old(groups)[slotId := old(groups)[slotId] + [Packet(header, incoming)]]
      ensures Bufs(workBuffer[..nextFreeEntry]) == old(Bufs(workBuffer[..nextFreeEntry]))
    {
      hide GroupOk, MessageOf, Bufs, Paste;
      ghost var ws, gs := workBuffer[..nextFreeEntry], groups;
      ghost var p := Packet(header, incoming);
      SlotFacts(ws, gs, owned, slotId);
      Extend(gs[slotId], p);
      StorePiece(slotId, header.offsetFull, incoming);
      forall i | 0 <= i < |ws| && i != slotId
        ensures Holds(ws[i], gs[i])
      {
        assert old(Holds(ws[i], gs[i])) && Owns(ws[i], owned);
        assert Separate(ws[if i < slotId then i else slotId], ws[if i < slotId then slotId else i]);
      }
      Refill(ws, gs, owned, slotId, workBuffer[slotId], gs[slotId] + [p]);
      assert workBuffer[..nextFreeEntry] == ws[slotId := workBuffer[slotId]];
      groups := gs[slotId := gs[slotId] + [p]];
    }

    /** Copy one piece into a slot that is in use or the next free one. */
    method FillDataIntoSlot(slotId: nat, header: RTPHeader, incoming: seq<byte>) returns (complete: bool)
      requires Valid()
      requires slotId <= nextFreeEntry && slotId < SLOT_COUNT
      requires incoming != []
      requires if slotId < nextFreeEntry then Extends(groups[slotId], Packet(header, incoming))
               else header.offsetFull + |incoming| <= header.dataLengthFull
      modifies `nextFreeEntry, `groups, `owned, `allocations, workBuffer, owned
      ensures Valid()
      ensures groups == Put(old(groups), slotId, Packet(header, incoming))
      ensures complete <==> Received(groups[slotId]) == header.dataLengthFull
      ensures old(Accounted()) ==> Accounted()
      ensures fresh(owned - old(owned))
    {
      hide GroupOk, MessageOf, Bufs;
      if slotId < nextFreeEntry {
        SlotFacts(workBuffer[..nextFreeEntry], groups, owned, slotId);
        Nonempty(groups[slotId]);
      }
      if workBuffer[slotId].receivedLen == 0 {
        FillNewSlot(header, incoming);
      } else {
        FillUsedSlot(slotId, header, incoming);
      }
      SlotFacts(workBuffer[..nextFreeEntry], groups, owned, slotId);
      return workBuffer[slotId].receivedLen == header.dataLengthFull;
    }

    /** session->mcb: ownership of `m` passes to the callback. */
    method Callback(m: RTPMessage)
      modifies `delivered, `handedOver
      ensures delivered == old(delivered) + [Delivery(m.header, m.data[..])]
      ensures handedOver == old(handedOver) + [m]
    {
      delivered := delivered + [Delivery(m.header, m.data[..])];
      handedOver := handedOver + [m];
    }

    /** Take the message of a used slot out and pass it to the callback. */
    method Deliver(slotId: nat)
      requires Valid() && Accounted() && slotId < nextFreeEntry
      modifies `nextFreeEntry, `groups, `owned, `delivered, `handedOver, workBuffer
      ensures Valid() && Accounted()
      ensures groups == RemoveAt(old(groups), slotId)
      ensures GroupOk(old(groups)[slotId]) && delivered == old(delivered) + [MessageOf(old(groups)[slotId])]
      ensures owned <= old(owned)
    {
      hide SlotsHold, GroupOk, MessageOf, Bufs;
      SlotFacts(workBuffer[..nextFreeEntry], groups, owned, slotId);
      var m := ProcessFrame(slotId);
      Callback(m);
      HandOver(allocations, old(Bufs(workBuffer[..nextFreeEntry])), old(handedOver), m);
    }

    /** A frame is complete: hand over its slot, and a slot 0 that lags behind it. */
    method FlushSlot(slotId: nat)
      requires Valid() && Accounted() && AllOk(groups) && slotId < nextFreeEntry
      modifies `nextFreeEntry, `groups, `owned, `delivered, `handedOver, workBuffer
      ensures Valid() && Accounted() && owned <= old(owned)
      ensures groups == Flush(old(groups), slotId).slots
      ensures AllOk(Flush(old(groups), slotId).delivered)
      ensures delivered == old(delivered) + MessagesOf(Flush(old(groups), slotId).delivered)
      ensures |delivered| > |old(delivered)| && delivered[|old(delivered)|] == MessageOf(old(groups)[slotId])
      ensures |groups| < |old(groups)| && forall g :: g in groups ==> g in old(groups)[..slotId] + old(groups)[slotId + 1..]
    {
      hide SlotsHold, GroupOk, MessageOf, Accounted;
      FlushOk(groups, slotId);
      SlotFacts(workBuffer[..nextFreeEntry], groups, owned, 0);
      SlotFacts(workBuffer[..nextFreeEntry], groups, owned, slotId);
      var last := slotId;
      if slotId > 0 && workBuffer[0].buf.header.sequnum + 2 < workBuffer[slotId].buf.header.sequnum {
        Deliver(slotId);
        last := 0;
      }
      Deliver(last);
    }

    /** Find the slot for a packet, handing slot 0 over when all are taken. */
    method FindRoom(header: RTPHeader, ghost p: Packet, multipart: bool) returns (slotId: nat)
      requires Valid() && Accounted() && SlotsOk(groups)
      requires p.header == header && multipart == IsMultipart(p)
      modifies `nextFreeEntry, `groups, `owned, `delivered, `handedOver, workBuffer
      ensures Valid() && Accounted() && owned <= old(owned)
      ensures var room := RoomFor(old(groups), p);
              && groups == room.slots && AllOk(room.delivered)
              && delivered == old(delivered) + MessagesOf(room.delivered)
              && slotId == Place(old(groups), p)
    {
      hide SlotsHold, GroupOk, MessageOf, Accounted;
      var slot := GetSlot(header, multipart);
      if slot == DROP_OLDEST_SLOT {
        Deliver(0);
        assert groups == old(groups)[1..];
        slot := GetSlot(header, false);
      }
      slotId := slot;
    }

    /** handle_video_packet: 0 when the packet completed a frame, -1 otherwise. */
    method HandleVideoPacket(header: RTPHeader, incoming: seq<byte>) returns (status: int)
      requires Valid() && Accounted()
      requires SlotsOk(groups) && Acceptable(groups, Packet(header, incoming))
      modifies this, workBuffer, owned
      ensures Valid() && Accounted() && fresh(owned - old(owned))
      ensures SlotsOk(groups)
      ensures header.dataLengthFull == 0 || header.offsetFull >= header.dataLengthFull ==>
                status == -1 && groups == old(groups) && delivered == old(delivered)
      ensures status == if Completes(old(groups), Packet(header, incoming)) then 0 else -1
      ensures var out := Handle(old(groups), Packet(header, incoming));
              && groups == out.slots
              && AllOk(out.delivered)
              && delivered == old(delivered) + MessagesOf(out.delivered)
    {
      hide SlotsHold, GroupOk, MessagesOf, Accounted, Flush, Acceptable, RoomFor, Extends;
      ghost var p := Packet(header, incoming);
      HandleOk(groups, p);
      if header.dataLengthFull == 0 || header.offsetFull >= header.dataLengthFull {
        assert MessagesOf([]) == [];
        return -1;
      }
      RoomOk(groups, p);
      ghost var room := RoomFor(groups, p);
      var slotId := FindRoom(header, p, header.dataLengthFull != |incoming|);
      var complete := FillDataIntoSlot(slotId, header, incoming);
      if !complete {
        return -1;
      }
      FlushOk(groups, slotId);
      MessagesOfConcat(room.delivered, Flush(groups, slotId).delivered);
      FlushSlot(slotId);
      return 0;
    }
  }
}
