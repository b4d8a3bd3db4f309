/** The timestamp buffer of toxav/ts_buffer.c: a ring of three parallel arrays, changed in place. */
module TimestampBuffer {
  import opened Words
  import opened TimestampQueue

  class TSBuffer {
    /** Number of slots; one of them is always free. */
    const size: nat
    var start: nat
    var end: nat
    const data: array<Payload>
    const kind: array<u64>
    const timestamp: array<u32>
    var lastTimestampOut: u32

    /** Payloads written, handed back to a caller, and passed to free(); null pointers not counted. */
    ghost var written: multiset<Payload>
    ghost var returned: multiset<Payload>
    ghost var freed: multiset<Payload>

    ghost predicate Shape() {
      && 2 <= size < U16_LIMIT
      && data.Length == size && kind.Length == size && timestamp.Length == size
      && data as object != kind && data as object != timestamp && kind as object != timestamp
    }

    ghost predicate Valid()
      reads `start, `end
    {
      Shape() && start < size && end < size
    }

    /** The slots as records, in array order. */
    ghost function Slots(): (s: seq<Entry>)
      requires Shape()
      reads data, kind, timestamp
      ensures |s| == size
    {
      seq(size, i requires 0 <= i < size reads data, kind, timestamp => Entry(data[i], kind[i], timestamp[i]))
    }

    ghost function Ring(): (v: seq<Entry>)
      requires Valid()
      reads `start, `end, data, kind, timestamp
      ensures |v| == size
    {
      View(Slots(), start)
    }

    /** tsb_size */
    function Size(): (n: nat)
      requires Valid()
      reads `start, `end
      ensures n < size && Wrap(start + n, size) == end
    {
      if end == start then 0
      else if end > start then end - start
      else (size - start) + end
    }

    /** The buffered entries, oldest position first. */
    ghost function Queue(): (q: seq<Entry>)
      requires Valid()
      reads `start, `end, data, kind, timestamp
      ensures |q| == Size()
    {
      Ring()[..Size()]
    }

    ghost predicate Accounted()
      requires Valid()
      reads this, data, kind, timestamp
    {
      Balance(written, Queue(), returned, freed)
    }

    predicate Full()
      requires Valid()
      reads `start, `end
    {
      (end + 1) % size == start
    }

    constructor (capacity: nat)
      requires 1 <= capacity < U16_LIMIT - 1
      ensures Valid() && fresh(data) && fresh(kind) && fresh(timestamp)
      ensures size == capacity + 1 && Queue() == [] && lastTimestampOut == 0
      ensures Accounted() && written == returned == freed == multiset{}
    {
      size := capacity + 1;
      start, end := 0, 0;
      data := new Payload[capacity + 1](_ => NULL);
      kind := new u64[capacity + 1](_ => 0);
      timestamp := new u32[capacity + 1](_ => 0);
      lastTimestampOut := 0;
      written, returned, freed := multiset{}, multiset{}, multiset{};
    }

    /** Write the three parts of one slot. */
    method SetSlot(i: nat, e: Entry)
      requires Valid() && i < size
      modifies data, kind, timestamp
      ensures Slots() == old(Slots())[i := e]
    {
      data[i] := e.data;
      kind[i] := e.kind;
      timestamp[i] := e.timestamp;
    }

    method GetSlot(i: nat) returns (e: Entry)
      requires Valid() && i < size
      ensures e == Slots()[i]
    {
      e := Entry(data[i], kind[i], timestamp[i]);
    }

    lemma FullMeans()
      requires Valid()
      ensures Full() <==> Size() == size - 1
    {
      WrapIsMod(end + 1, size);
    }

    /** Put an entry into the free slot at the end. */
    method Append(e: Entry)
      requires Valid() && Size() < size - 1
      modifies `end, data, kind, timestamp
      ensures Valid() && Queue() == old(Queue()) + [e]
    {
      hide View;
      ghost var slots, v, n := Slots(), Ring(), Size();
      SetSlot(end, e);
      ViewSet(slots, start, n, e);
      assert Ring() == v[n := e];
      WrapIsMod(end + 1, size);
      end := (end + 1) % size;
      assert Ring() == v[n := e] && Size() == n + 1;
    }

    /** Move the start on by one. */
    method Advance()
      requires Valid() && Size() > 0
      modifies `start
      ensures Valid() && Queue() == old(Queue())[1..] && Size() == old(Size()) - 1
      ensures Ring() == old(Ring())[1..] + [old(Ring())[0]]
    {
      hide View;
      WrapIsMod(start + 1, size);
      ViewShift(Slots(), start, 1);
      ghost var v := Ring();
      start := (start + 1) % size;
      assert v[..1] == [v[0]];
    }

    /** What tsb_write does to the ring. */
    method Store(e: Entry) returns (evicted: Payload)
      requires Valid()
      modifies `start, `end, data, kind, timestamp
      ensures Valid()
      ensures Queue() == AfterWrite(old(Queue()), size - 1, e) && evicted == Evicted(old(Queue()), size - 1)
    {
      FullMeans();
      evicted := NULL;
      if Full() {
        ViewAt(Slots(), start, 0);
        evicted := data[start];
        Advance();
      }
      Append(e);
    }

    /** tsb_write: a full buffer gives up its first entry, which the caller must free. */
    method Write(p: Payload, dataType: u64, ts: u32) returns (evicted: Payload)
      requires Valid() && Accounted()
      modifies `start, `end, `written, `returned, data, kind, timestamp
      ensures Valid() && Accounted()
      ensures Queue() == AfterWrite(old(Queue()), size - 1, Entry(p, dataType, ts))
      ensures evicted == Evicted(old(Queue()), size - 1)
      ensures written == old(written) + FreeOf(p) && returned == old(returned) + FreeOf(evicted)
      ensures old(Size()) < size - 1 ==> evicted == NULL && Queue() == old(Queue()) + [Entry(p, dataType, ts)]
      ensures old(Size()) == size - 1 ==>
                && evicted == old(Queue())[0].data && Size() == size - 1
                && (forall i :: 0 <= i < size - 2 ==> Queue()[i] == old(Queue())[i + 1])
                && Queue()[size - 2] == Entry(p, dataType, ts)
    {
      hide View, Slots, Balance, Wrap, AfterWrite, FreeOf, Evicted;
      WriteMeans(Queue(), size - 1, Entry(p, dataType, ts));
      WriteBalances(written, Queue(), returned, freed, size - 1, Entry(p, dataType, ts));
      evicted := Store(Entry(p, dataType, ts));
      written, returned := written + FreeOf(p), returned + FreeOf(evicted);
    }

    /** tsb_move_delete_entry */
    method MoveDeleteEntry(src: nat, dst: nat)
      requires Valid() && src < size && dst < size && src != dst
      modifies `freed, data, kind, timestamp
      ensures Slots() == old(Slots())[dst := old(Slots())[src]][src := EMPTY_ENTRY]
      ensures freed == old(freed) + FreeOf(old(Slots())[dst].data)
    {
      freed := freed + FreeOf(data[dst]);
      var e := GetSlot(src);
      SetSlot(dst, e);
      SetSlot(src, EMPTY_ENTRY);
    }

    lemma DifferentSlots(from: nat, p: nat, q: nat)
      requires from < size && p < size && q < size && p != q
      ensures Wrap(from + p, size) != Wrap(from + q, size)
    {}

    /** The same in terms of positions from the start. */
    method MoveDeleteAt(src: nat, dst: nat, ghost p: nat, ghost q: nat)
      requires Valid() && p < size && q < size && p != q
      requires src == Wrap(start + p, size) && dst == Wrap(start + q, size)
      modifies `freed, data, kind, timestamp
      ensures Ring() == old(Ring())[q := old(Ring())[p]][p := EMPTY_ENTRY]
      ensures freed == old(freed) + FreeOf(old(Ring())[q].data)
    {
      hide View, Slots, Wrap;
      ghost var slots := Slots();
      ViewAt(slots, start, p);
      ViewAt(slots, start, q);
      ViewSet(slots, start, q, slots[src]);
      ViewSet(slots[dst := slots[src]], start, p, EMPTY_ENTRY);
      DifferentSlots(start, p, q);
      MoveDeleteEntry(src, dst);
    }

    /** tsb_close_hole: delete the entry at position `h` by moving those before it up by one. */
    method CloseHole(startIndex: nat, holeIndex: nat, ghost h: nat)
      requires Valid() && startIndex == start && h < size - 1 && holeIndex == Wrap(start + h, size)
      requires Ring()[size - 1] == EMPTY_ENTRY
      modifies `freed, data, kind, timestamp
      ensures Ring() == Closed(old(Ring()), h)
      ensures freed == old(freed) + FreeOf(old(Ring())[h].data)
    {
      hide View, Closing, Closed;
      ghost var v, p, x := Ring(), h, Ring()[h];
      var current := holeIndex;
      ClosingStarts(v, h);
      while true
        invariant 0 <= p <= h && current == Wrap(start + p, size)
        invariant Ring() == Closing(v, h, p, x)
        invariant x == if p == h then v[h] else EMPTY_ENTRY
        invariant freed == old(freed) + if p == h then multiset{} else FreeOf(v[h].data)
        decreases p
      {
        var previous := if current < 1 then size - 1 else current - 1;
        if p > 0 { ClosingStep(v, h, p, x); } else { ClosingEnds(v, h, x); }
        MoveDeleteAt(previous, current, if p > 0 then p - 1 else size - 1, p);
        if current == startIndex {
          return;
        }
        current := previous;
        p, x := p - 1, EMPTY_ENTRY;
      }
    }

    lemma SizeIs(n: nat)
      requires Valid() && n < size && Wrap(start + n, size) == end
      ensures Size() == n
    {}

    /** Body of the loop of tsb_delete_old_entries for the entry at position `i`. */
    method DeleteIfOld(i: nat, threshold: u64, ghost v: seq<Entry>) returns (removed: bool, beforeLastOut: bool)
      requires Valid() && i < size - 1 && |v| == size && v[size - 1] == EMPTY_ENTRY
      requires Ring() == Deleting(v, i, threshold)
      modifies `freed, data, kind, timestamp
      ensures Ring() == Deleting(v, i + 1, threshold)
      ensures removed <==> v[i].timestamp < threshold
      ensures freed == old(freed) + if removed then FreeOf(v[i].data) else multiset{}
    {
      hide View, Closed, Deleting;
      WrapIsMod(start + i, size);
      var current := (start + i) % size;
      ViewAt(Slots(), start, i);
      DeletingNext(v, i, threshold);
      removed, beforeLastOut := timestamp[current] < threshold, false;
      if removed {
        CloseHole(start, current, i);
        beforeLastOut := timestamp[current] < lastTimestampOut;
      }
    }

    /** The loop of tsb_delete_old_entries. */
    method DeleteLoop(threshold: u64) returns (removed: nat, removedBeforeLastOut: nat)
      requires Valid() && Ring()[size - 1] == EMPTY_ENTRY
      modifies `freed, data, kind, timestamp
      ensures Ring() == Deleting(old(Ring()), Size(), threshold)
      ensures removed == Size() - |Keep(old(Ring())[..Size()], threshold)|
      ensures freed == old(freed) + FreedBelow(old(Ring())[..Size()], threshold)
    {
      hide View, Deleting, Keep, FreedBelow, Wrap, FreeOf, Slots;
      ghost var v := Ring();
      NothingYet(v, threshold);
      DeletingStarts(v, threshold);
      removed, removedBeforeLastOut := 0, 0;
      for i := 0 to Size()
        invariant Ring() == Deleting(v, i, threshold)
        invariant removed == i - |Keep(v[..i], threshold)|
        invariant freed == old(freed) + FreedBelow(v[..i], threshold)
      {
        KeepNext(v, i, threshold);
        FreedNext(v, i, threshold);
        var gone, counted := DeleteIfOld(i, threshold, v);
        if counted { removedBeforeLastOut := removedBeforeLastOut + 1; }
        if gone { removed := removed + 1; }
      }
    }

    /** tsb_delete_old_entries: exactly a stable filter, for every position of the start, provided the
        slot before the start is empty, as it is right after an entry was taken out. */
    method DeleteOldEntries(threshold: u64) returns (removedBeforeLastOut: nat)
      requires Valid() && Ring()[size - 1] == EMPTY_ENTRY
      modifies `start, `freed, data, kind, timestamp
      ensures Valid() && Queue() == Keep(old(Queue()), threshold)
      ensures freed == old(freed) + FreedBelow(old(Queue()), threshold)
    {
      hide View, Deleting, Keep, FreedBelow, Wrap, Slots;
      ghost var v, n := Ring(), Size();
      if end == start {
        NothingOld(threshold);
        assert Queue() == [];
        return 0;
      }
      var removed, counted := DeleteLoop(threshold);
      DeletingEnds(v, n, threshold);
      Skip(removed);
      return counted;
    }

    lemma NothingOld(threshold: u64)
      ensures Keep([], threshold) == [] && FreedBelow([], threshold) == multiset{}
    {}

    /** Move the start on over `r` entries. */
    method Skip(r: nat)
      requires Valid() && r <= Size()
      modifies `start
      ensures Valid() && Queue() == (old(Ring())[r..] + old(Ring())[..r])[..old(Size()) - r]
    {
      hide View;
      ghost var n := Size();
      WrapIsMod(start + r, size);
      ViewShift(Slots(), start, r);
      start := (start + r) % size;
      SizeIs(n - r);
    }

    /** Swap two positions. */
    method SwapWithStart(index: nat, ghost f: nat)
      requires Valid() && f < size && index == Wrap(start + f, size)
      modifies data, kind, timestamp
      ensures Ring() == old(Ring())[f := old(Ring())[0]][0 := old(Ring())[f]]
    {
      hide View;
      ghost var slots, v := Slots(), Ring();
      ViewAt(slots, start, f);
      ViewAt(slots, start, 0);
      if index != start {
        var saved := GetSlot(index);
        var first := GetSlot(start);
        ViewSet(slots, start, f, first);
        ViewSet(slots[index := first], start, 0, saved);
        SetSlot(index, first);
        SetSlot(start, saved);
      }
    }

    /** The scan of tsb_return_oldest_entry_in_range: slot and position of the oldest wanted entry. */
    method FindOldest(timestampIn: u32, range: u32) returns (foundElement: int, ghost f: int)
      requires Valid()
      ensures if f == -1 then foundElement == -1 && NoneWanted(Queue(), timestampIn, range)
              else 0 <= f < size && foundElement == Wrap(start + f, size) && IsOldest(Queue(), timestampIn, range, f)
      ensures foundElement == -1 <==> NoneWanted(Queue(), timestampIn, range)
    {
      hide View, Slots, NoneWanted, IsOldest;
      ghost var q := Queue();
      foundElement, f := -1, -1;
      var foundTimestamp: u32 := UINT32_MAX;
      assert q[..0] == [];
      assert ScanResult([], timestampIn, range, -1, UINT32_MAX) by { EmptyScan(timestampIn, range); }
      for i := 0 to Size()
        invariant ScanResult(q[..i], timestampIn, range, f, foundTimestamp)
        invariant f < i && (f < 0 <==> foundElement < 0)
        invariant f >= 0 ==> foundElement == Wrap(start + f, size)
        invariant f < 0 ==> f == -1 == foundElement
      {
        WrapIsMod(start + i, size);
        var current := (start + i) % size;
        ViewAt(Slots(), start, i);
        SlotParts(current);
        ScanNext(q, i, timestampIn, range, f, foundTimestamp);
        if timestamp[current] >= timestampIn - range && timestamp[current] <= timestampIn + 1 {
          if timestamp[current] < foundTimestamp {
            foundTimestamp := timestamp[current];
            foundElement, f := current, i;
          }
        }
      }
      assert q[..Size()] == q;
      if f >= 0 {
        OldestIsWanted(q, timestampIn, range, f);
      }
    }

    lemma EmptyScan(timestampIn: u32, range: u32)
      ensures ScanResult([], timestampIn, range, -1, UINT32_MAX)
    {}

    lemma SlotParts(i: nat)
      requires Shape() && i < size
      ensures Slots()[i] == Entry(data[i], kind[i], timestamp[i])
    {}

    /** tsb_return_oldest_entry_in_range */
    method ReturnOldestEntryInRange(timestampIn: u32, range: u32) returns (found: bool, out: Entry, ghost f: int)
      requires Valid()
      modifies `start, data, kind, timestamp
      ensures Valid()
      ensures !found ==> out.data == NULL && NoneWanted(old(Queue()), timestampIn, range)
      ensures !found ==> Ring() == old(Ring()) && Queue() == old(Queue())
      ensures found ==>
                && f >= 0 && IsOldest(old(Queue()), timestampIn, range, f) && out == old(Queue())[f]
                && Queue() == TakeOut(old(Queue()), f) && Ring()[size - 1] == EMPTY_ENTRY
    {
      hide View, Slots, NoneWanted, Wrap;
      var element: int;
      element, f := FindOldest(timestampIn, range);
      ghost var v, n, q := Ring(), Size(), Queue();
      if element > -1 {
        SwapWithStart(element, f);
        ViewAt(Slots(), start, 0);
        StartPosition();
        out := GetSlot(start);
        ViewSet(Slots(), start, 0, EMPTY_ENTRY);
        SetSlot(start, EMPTY_ENTRY);
        ghost var w := Ring();
        assert w == v[f := v[0]][0 := EMPTY_ENTRY];
        Advance();
        assert Queue() == w[1..n] == TakeOut(q, f);
        return true, out, f;
      }
      return false, EMPTY_ENTRY, f;
    }

    lemma StartPosition()
      requires Valid()
      ensures Wrap(start + 0, size) == start
    {}

    /** tsb_read: the oldest entry of the window, and the rest of the queue without outdated entries.
        A read that finds nothing changes nothing. */
    method Read(timestampIn: u32, range: u32)
      returns (found: bool, out: Entry, removedEntries: nat, isSkipping: u16, ghost f: int)
      requires Valid() && Accounted()
      modifies `start, `returned, `freed, `lastTimestampOut, data, kind, timestamp
      ensures Valid() && Accounted()
      ensures found <==> !NoneWanted(old(Queue()), timestampIn, range)
      ensures !found ==>
                && out.data == NULL && Ring() == old(Ring()) && Queue() == old(Queue())
                && returned == old(returned) && freed == old(freed) && lastTimestampOut == old(lastTimestampOut)
      ensures found ==>
                && f >= 0 && IsOldest(old(Queue()), timestampIn, range, f) && out == old(Queue())[f]
                && Queue() == AfterRead(old(Queue()), timestampIn, range, f)
                && returned == old(returned) + FreeOf(out.data)
                && freed == old(freed) + FreedBelow(TakeOut(old(Queue()), f), Threshold(timestampIn, range))
                && lastTimestampOut == out.timestamp
      ensures found <==> exists e :: e in old(Queue()) && MayBeRead(e, timestampIn, range)
      ensures found ==> ReadsOldest(old(Queue()), timestampIn, range, out)
      ensures found && timestampIn >= range ==> LeavesRest(old(Queue()), timestampIn, range, out, Queue())
      ensures isSkipping ==
                if old(Size()) > 0 && old(lastTimestampOut) < timestampIn - range
                then (timestampIn - range - old(lastTimestampOut)) % U16_LIMIT else 0
    {
      hide View, Slots, IsOldest, Balance, FreedBelow, Keep, FreeOf, Wrap, TakeOut, AfterRead, NoneWanted, ReadsOldest, LeavesRest;
      isSkipping := 0;
      NothingToRead(Queue(), timestampIn, range);
      if end == start {
        assert Queue() == [];
        return false, EMPTY_ENTRY, 0, 0, -1;
      }
      if lastTimestampOut < timestampIn - range {
        isSkipping := (timestampIn - range - lastTimestampOut) % U16_LIMIT;
      }
      ghost var q := Queue();
      found, out, f := ReturnOldestEntryInRange(timestampIn, range);
      removedEntries := 0;
      if found {
        OldestIsWanted(q, timestampIn, range, f);
        ReadMeans(q, timestampIn, range, f);
        ReadIs(q, timestampIn, range, f);
        ReadBalances(written, q, returned, freed, timestampIn, range, f);
        removedEntries := DeleteOldEntries(Threshold(timestampIn, range));
        lastTimestampOut := out.timestamp;
        returned := returned + FreeOf(out.data);
      }
    }

    lemma ReadIs(q: seq<Entry>, timestampIn: u32, range: u32, f: nat)
      requires f < |q|
      ensures AfterRead(q, timestampIn, range, f) == Keep(TakeOut(q, f), Threshold(timestampIn, range))
    {}

    lemma OldestIsWanted(q: seq<Entry>, timestampIn: u32, range: u32, f: nat)
      requires IsOldest(q, timestampIn, range, f)
      ensures f < |q| && !NoneWanted(q, timestampIn, range)
    {}

    /** tsb_drain: releases every entry below the largest timestamp, in ascending order, and leaves
        exactly the entries that carry the largest one. */
    method Drain() returns (ghost released: seq<Entry>)
      requires Valid() && Accounted()
      modifies `start, `returned, `freed, `lastTimestampOut, data, kind, timestamp
      ensures Valid() && Accounted() && lastTimestampOut == 0
      ensures multiset(released) + multiset(Queue()) == multiset(old(Queue()))
      ensures Ascending(released) && (forall i :: 0 <= i < |released| ==> released[i].timestamp < UINT32_MAX)
      ensures forall i :: 0 <= i < |Queue()| ==> Queue()[i].timestamp == UINT32_MAX
      ensures returned == old(returned)
    {
      hide View, Slots, Balance, IsOldest, NoneWanted, Wrap, FreedBelow, AfterRead, FreeOf;
      released := [];
      ghost var q0 := Queue();
      DrainStarts(q0);
      var more := true;
      while more
        invariant Valid() && Accounted() && returned == old(returned)
        invariant Draining(q0, released, Queue())
        invariant !more ==> NoneWanted(Queue(), UINT32_MAX, UINT32_MAX)
        decreases Size(), more
      {
        ghost var q, kept, lost := Queue(), returned, freed;
        var out, removed, skip;
        ghost var f;
        more, out, removed, skip, f := Read(UINT32_MAX, UINT32_MAX);
        if more {
          DrainNext(q0, released, q, f);
          ghost var now := freed;
          FreeBalances(written, Queue(), kept, now, out.data);
          returned, freed := kept, now + FreeOf(out.data);
          released := released + [out];
        }
      }
      DrainEnds(q0, released, Queue());
      lastTimestampOut := 0;
    }
  }
}
