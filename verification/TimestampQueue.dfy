/**
  What the timestamp buffer of toxav/ts_buffer.c computes, as a queue of entries.  A ring of
  slots is looked at from its start position: `View` lists all slots from there on.
 */
module TimestampQueue {
  import opened Words
  import opened Wrappers

  /** A caller's buffer; 0 is the null pointer. */
  type Payload = nat
  const NULL: Payload := 0

  datatype Entry = Entry(data: Payload, kind: u64, timestamp: u32)
  const EMPTY_ENTRY := Entry(NULL, 0, 0)

  const UINT32_MAX: int := 0xFFFF_FFFF

  /** x % n for x < 2 * n */
  function Wrap(x: nat, n: nat): nat
    requires x < 2 * n
  {
    if x < n then x else x - n
  }

  lemma WrapIsMod(x: nat, n: nat)
    requires 0 < n && x < 2 * n
    ensures x % n == Wrap(x, n)
  {
    var q, r := x / n, x % n;
    assert x == q * n + r;
  }

  /** All slots of a ring, from position `start` on. */
  function View(slots: seq<Entry>, start: nat): (v: seq<Entry>)
    requires start < |slots|
    ensures |v| == |slots|
  {
    slots[start..] + slots[..start]
  }

  lemma ViewAt(slots: seq<Entry>, start: nat, p: nat)
    requires start < |slots| && p < |slots|
    ensures Wrap(start + p, |slots|) < |slots| && View(slots, start)[p] == slots[Wrap(start + p, |slots|)]
  {}

  lemma ViewSet(slots: seq<Entry>, start: nat, p: nat, e: Entry)
    requires start < |slots| && p < |slots|
    ensures View(slots[Wrap(start + p, |slots|) := e], start) == View(slots, start)[p := e]
  {}

  lemma ShiftBelow<T>(slots: seq<T>, start: nat, r: nat)
    requires start + r < |slots|
    ensures var v := slots[start..] + slots[..start];
            slots[start + r..] + slots[..start + r] == v[r..] + v[..r]
  {
    var v := slots[start..] + slots[..start];
    assert v[r..] == slots[start + r..] + slots[..start];
    assert v[..r] == slots[start..start + r];
    assert slots[..start + r] == slots[..start] + slots[start..start + r];
  }

  lemma ShiftAround<T>(slots: seq<T>, start: nat, s: nat)
    requires s < start < |slots|
    ensures var v, r := slots[start..] + slots[..start], s + |slots| - start;
            slots[s..] + slots[..s] == v[r..] + v[..r]
  {
    var v, r := slots[start..] + slots[..start], s + |slots| - start;
    assert v[r..] == slots[s..start];
    assert v[..r] == slots[start..] + slots[..s];
    assert slots[s..] == slots[s..start] + slots[start..];
  }

  /** The ring looked at from `r` positions further on. */
  lemma ViewShift(slots: seq<Entry>, start: nat, r: nat)
    requires start < |slots| && r < |slots|
    ensures View(slots, Wrap(start + r, |slots|)) == View(slots, start)[r..] + View(slots, start)[..r]
  {
    if start + r < |slots| {
      ShiftBelow(slots, start, r);
    } else {
      ShiftAround(slots, start, start + r - |slots|);
    }
  }

  // ---------------------------------------------------------------- dropping old entries

  /** The entries with a timestamp of at least `threshold`, in order. */
  function Keep(q: seq<Entry>, threshold: int): (r: seq<Entry>)
    ensures |r| <= |q|
  {
    if q == [] then []
    else
      var init, last := Keep(q[..|q| - 1], threshold), q[|q| - 1];
      if last.timestamp >= threshold then init + [last] else init
  }

  lemma KeepNext(q: seq<Entry>, i: nat, threshold: int)
    requires i < |q|
    ensures Keep(q[..i + 1], threshold) ==
            if q[i].timestamp >= threshold then Keep(q[..i], threshold) + [q[i]] else Keep(q[..i], threshold)
  {
    assert q[..i + 1][..i] == q[..i];
  }

  lemma {:induction false} KeepMembers(q: seq<Entry>, threshold: int, e: Entry)
    ensures e in Keep(q, threshold) <==> e in q && e.timestamp >= threshold
  {
    if q != [] {
      KeepMembers(q[..|q| - 1], threshold, e);
      assert q == q[..|q| - 1] + [q[|q| - 1]];
    }
  }

  /** Dropping old entries is a filter that keeps the order: it works on the parts of a queue separately, and
      keeps a single entry exactly when it is not below the threshold. */
  lemma {:induction false} KeepIsFilter(a: seq<Entry>, b: seq<Entry>, e: Entry, threshold: int)
    ensures Keep(a + b, threshold) == Keep(a, threshold) + Keep(b, threshold)
    ensures Keep([e], threshold) == if e.timestamp >= threshold then [e] else []
  {
    assert [e][..0] == [];
    if b == [] {
      assert a + b == a;
    } else {
      var init := b[..|b| - 1];
      KeepIsFilter(a, init, e, threshold);
      assert (a + b)[..|a + b| - 1] == a + init;
    }
  }

  lemma {:induction false} KeepTimes(q: seq<Entry>, threshold: int, e: Entry)
    ensures multiset(Keep(q, threshold))[e] == if e.timestamp >= threshold then multiset(q)[e] else 0
  {
    if q != [] {
      var init, last := q[..|q| - 1], q[|q| - 1];
      KeepTimes(init, threshold, e);
      assert q == init + [last];
      Once(init, last, e);
      Once(Keep(init, threshold), last, e);
    }
  }

  lemma Once(s: seq<Entry>, x: Entry, e: Entry)
    ensures multiset(s + [x])[e] == multiset(s)[e] + if x == e then 1 else 0
  {
    assert multiset(s + [x]) == multiset(s) + multiset{x};
  }

  // ---------------------------------------------------------------- the oldest entry in a window

  predicate InWindow(e: Entry, timestampIn: u32, range: u32) {
    timestampIn - range <= e.timestamp <= timestampIn + 1
  }

  /** Entries a read can return: in the window and below the largest 32-bit value. */
  predicate Wanted(e: Entry, timestampIn: u32, range: u32) {
    InWindow(e, timestampIn, range) && e.timestamp < UINT32_MAX
  }

  /** `f` is the first of the wanted entries with the least timestamp. */
  predicate IsOldest(q: seq<Entry>, timestampIn: u32, range: u32, f: nat) {
    && f < |q| && Wanted(q[f], timestampIn, range)
    && (forall i :: 0 <= i < f && Wanted(q[i], timestampIn, range) ==> q[f].timestamp < q[i].timestamp)
    && (forall i :: f < i < |q| && Wanted(q[i], timestampIn, range) ==> q[f].timestamp <= q[i].timestamp)
  }

  predicate NoneWanted(q: seq<Entry>, timestampIn: u32, range: u32) {
    forall i :: 0 <= i < |q| ==> !Wanted(q[i], timestampIn, range)
  }

  /** Taking entry `f` out: the first entry moves into its place. */
  function TakeOut(q: seq<Entry>, f: nat): (r: seq<Entry>)
    requires f < |q|
    ensures |r| == |q| - 1
  {
    q[f := q[0]][1..]
  }

  /** The threshold tsb_read passes on: a signed difference read as an unsigned 64-bit number. */
  function Threshold(timestampIn: u32, range: u32): u64 {
    (timestampIn - range) % U64_LIMIT
  }

  /** The queue after a successful read of entry `f`. */
  function AfterRead(q: seq<Entry>, timestampIn: u32, range: u32, f: nat): seq<Entry>
    requires f < |q|
  {
    Keep(TakeOut(q, f), Threshold(timestampIn, range))
  }

  // ---------------------------------------------------------------- closing a hole

  /** Slots while a hole is closed: entries before position `p` and after `h` are untouched, those from
      `p` to `h` have moved up by one, and position `p` holds `x`. */
  function Closing(v: seq<Entry>, h: nat, p: nat, x: Entry): (r: seq<Entry>)
    requires p <= h < |v|
    ensures |r| == |v|
  {
    v[..p] + [x] + v[p..h] + v[h + 1..]
  }

  /** Slots after closing the hole at position `h`, the slot before the start being empty. */
  function Closed(v: seq<Entry>, h: nat): (r: seq<Entry>)
    requires h < |v| - 1
    ensures |r| == |v|
  {
    [EMPTY_ENTRY] + v[..h] + v[h + 1..]
  }

  lemma ClosingStarts(v: seq<Entry>, h: nat)
    requires h < |v|
    ensures Closing(v, h, h, v[h]) == v
  {
    assert v[h..h] == [];
  }

  /** One move: the entry before the hole goes into it. */
  lemma ClosingStep(v: seq<Entry>, h: nat, p: nat, x: Entry)
    requires 0 < p <= h < |v|
    ensures Closing(v, h, p, x)[p := v[p - 1]][p - 1 := EMPTY_ENTRY] == Closing(v, h, p - 1, EMPTY_ENTRY)
    ensures Closing(v, h, p, x)[p - 1] == v[p - 1] && Closing(v, h, p, x)[p] == x
  {
    assert v[p - 1..h] == [v[p - 1]] + v[p..h];
  }

  /** The last move brings in the empty slot before the start. */
  lemma ClosingEnds(v: seq<Entry>, h: nat, x: Entry)
    requires h < |v| - 1 && v[|v| - 1] == EMPTY_ENTRY
    ensures Closing(v, h, 0, x)[0 := EMPTY_ENTRY][|v| - 1 := EMPTY_ENTRY] == Closed(v, h)
    ensures Closing(v, h, 0, x)[|v| - 1] == EMPTY_ENTRY && Closing(v, h, 0, x)[0] == x
  {
    assert v[0..h] == v[..h];
    assert v[h + 1..][|v| - 1 - h - 1] == EMPTY_ENTRY;
  }

  /** What one free() call adds to the set of freed payloads. */
  function FreeOf(p: Payload): multiset<Payload> {
    if p == NULL then multiset{} else multiset{p}
  }

  /** Payloads freed when the entries below `threshold` are deleted. */
  function FreedBelow(q: seq<Entry>, threshold: int): multiset<Payload> {
    if q == [] then multiset{}
    else
      var init, last := FreedBelow(q[..|q| - 1], threshold), q[|q| - 1];
      if last.timestamp >= threshold then init else init + FreeOf(last.data)
  }

  lemma FreedNext(q: seq<Entry>, i: nat, threshold: int)
    requires i < |q|
    ensures FreedBelow(q[..i + 1], threshold) ==
            if q[i].timestamp >= threshold then FreedBelow(q[..i], threshold) else FreedBelow(q[..i], threshold) + FreeOf(q[i].data)
  {
    assert q[..i + 1][..i] == q[..i];
  }

  lemma NothingYet(q: seq<Entry>, threshold: int)
    ensures Keep([], threshold) == [] && FreedBelow([], threshold) == multiset{} && q[..0] == []
  {}

  function Empties(n: nat): (r: seq<Entry>)
    ensures |r| == n
  {
    seq(n, _ => EMPTY_ENTRY)
  }

  /** Slots after the first `i` entries were looked at: emptied slots, the kept entries, the rest. */
  function Deleting(v: seq<Entry>, i: nat, threshold: int): (r: seq<Entry>)
    requires i <= |v|
    ensures |r| == |v|
  {
    var kept := Keep(v[..i], threshold);
    Empties(i - |kept|) + kept + v[i..]
  }

  lemma DeletingStarts(v: seq<Entry>, threshold: int)
    ensures Deleting(v, 0, threshold) == v
  {
    assert v[..0] == [] && v[0..] == v;
  }

  lemma DeletingNext(v: seq<Entry>, i: nat, threshold: int)
    requires i < |v| - 1
    ensures Deleting(v, i, threshold)[i] == v[i] && Deleting(v, i, threshold)[|v| - 1] == v[|v| - 1]
    ensures Deleting(v, i + 1, threshold) ==
            if v[i].timestamp >= threshold then Deleting(v, i, threshold) else Closed(Deleting(v, i, threshold), i)
  {
    hide Deleting, Keep, Empties;
    KeepNext(v, i, threshold);
    DeletingParts(v, i, threshold);
    DeletingParts(v, i + 1, threshold);
    var d, kept := Deleting(v, i, threshold), Keep(v[..i], threshold);
    var e := Empties(i - |kept|);
    if v[i].timestamp >= threshold {
      Regroup(e, kept, [v[i]], v[i + 1..]);
    } else {
      OneMoreEmpty(i - |kept|);
      Regroup([EMPTY_ENTRY], e, kept, v[i + 1..]);
    }
  }

  lemma Regroup<T>(a: seq<T>, b: seq<T>, c: seq<T>, d: seq<T>)
    ensures a + b + (c + d) == a + (b + c) + d == (a + b) + c + d
  {}

  lemma OneMoreEmpty(n: nat)
    ensures [EMPTY_ENTRY] + Empties(n) == Empties(n + 1)
  {}

  lemma DeletingParts(v: seq<Entry>, i: nat, threshold: int)
    requires i < |v|
    ensures var d, kept := Deleting(v, i, threshold), Keep(v[..i], threshold);
            && d[..i] == Empties(i - |kept|) + kept && d[i] == v[i] && d[i + 1..] == v[i + 1..]
            && d[|v| - 1] == v[|v| - 1] && d == Empties(i - |kept|) + kept + v[i..]
            && v[i..] == [v[i]] + v[i + 1..]
  {
    hide Keep, Empties;
    var d, kept := Deleting(v, i, threshold), Keep(v[..i], threshold);
    assert d[i..] == v[i..];
    assert d[i] == d[i..][0];
    assert d[|v| - 1] == d[i..][|v| - 1 - i];
  }

  /** From the first kept entry on, the queue is the filtered queue. */
  lemma DeletingEnds(v: seq<Entry>, n: nat, threshold: int)
    requires n <= |v|
    ensures var r := n - |Keep(v[..n], threshold)|;
            (Deleting(v, n, threshold)[r..] + Deleting(v, n, threshold)[..r])[..n - r] == Keep(v[..n], threshold)
  {}

  // ---------------------------------------------------------------- scanning for the oldest

  /** Result of scanning the first entries of a queue: nothing wanted, or the oldest wanted one. */
  predicate ScanResult(q: seq<Entry>, timestampIn: u32, range: u32, f: int, foundTimestamp: u32) {
    if f < 0 then f == -1 && foundTimestamp == UINT32_MAX && NoneWanted(q, timestampIn, range)
    else IsOldest(q, timestampIn, range, f) && foundTimestamp == q[f].timestamp
  }

  lemma ScanNext(q: seq<Entry>, i: nat, timestampIn: u32, range: u32, f: int, foundTimestamp: u32)
    requires i < |q| && ScanResult(q[..i], timestampIn, range, f, foundTimestamp)
    ensures var better := InWindow(q[i], timestampIn, range) && q[i].timestamp < foundTimestamp;
            ScanResult(q[..i + 1], timestampIn, range, if better then i else f, if better then q[i].timestamp else foundTimestamp)
  {
    assert forall k :: 0 <= k < i ==> q[..i][k] == q[..i + 1][k];
    assert q[..i + 1][i] == q[i];
  }

  // ---------------------------------------------------------------- counting payloads

  /** How many entries carry the payload `p`. */
  function Count(q: seq<Entry>, p: Payload): nat {
    if q == [] then 0 else Count(q[..|q| - 1], p) + if q[|q| - 1].data == p then 1 else 0
  }

  lemma {:induction false} CountConcat(a: seq<Entry>, b: seq<Entry>, p: Payload)
    ensures Count(a + b, p) == Count(a, p) + Count(b, p)
  {
    if b == [] {
      assert a + b == a;
    } else {
      assert (a + b)[..|a + b| - 1] == a + b[..|b| - 1];
      CountConcat(a, b[..|b| - 1], p);
    }
  }

  lemma CountOne(e: Entry, p: Payload)
    ensures Count([e], p) == if e.data == p then 1 else 0
  {
    assert [e][..0] == [];
  }

  /** Taking an entry out removes exactly that entry. */
  lemma CountTakeOut(q: seq<Entry>, f: nat, p: Payload)
    requires f < |q|
    ensures Count(q, p) == Count(TakeOut(q, f), p) + if q[f].data == p then 1 else 0
  {
    hide Count;
    CountOne(q[f], p);
    if f == 0 {
      assert q == [q[0]] + q[1..] && TakeOut(q, f) == q[1..];
      CountConcat([q[0]], q[1..], p);
    } else {
      CountOne(q[0], p);
      var middle, tail := q[1..f], q[f + 1..];
      assert q == [q[0]] + (middle + ([q[f]] + tail));
      assert TakeOut(q, f) == middle + ([q[0]] + tail);
      CountConcat([q[0]], middle + ([q[f]] + tail), p);
      CountConcat(middle, [q[f]] + tail, p);
      CountConcat([q[f]], tail, p);
      CountConcat(middle, [q[0]] + tail, p);
      CountConcat([q[0]], tail, p);
    }
  }

  /** Every entry is kept or its payload is freed, never both. */
  lemma {:induction false} CountKeep(q: seq<Entry>, threshold: int, p: Payload)
    requires p != NULL
    ensures Count(q, p) == Count(Keep(q, threshold), p) + FreedBelow(q, threshold)[p]
  {
    if q != [] {
      var init, last := q[..|q| - 1], q[|q| - 1];
      CountKeep(init, threshold, p);
      CountConcat(Keep(init, threshold), [last], p);
      CountOne(last, p);
    }
  }

  lemma TakeOutBag(q: seq<Entry>, f: nat)
    requires f < |q|
    ensures multiset(q) == multiset(TakeOut(q, f)) + multiset{q[f]}
  {
    if f == 0 {
      assert q == [q[0]] + q[1..] && TakeOut(q, f) == q[1..];
    } else {
      var middle, tail := q[1..f], q[f + 1..];
      assert q == [q[0]] + middle + [q[f]] + tail;
      assert TakeOut(q, f) == middle + [q[0]] + tail;
    }
  }

  // ---------------------------------------------------------------- what reads promise

  /** Everything left after a read is at least as new as the entry that was read, whatever the window. */
  lemma LeftoversAreNewer(q: seq<Entry>, timestampIn: u32, range: u32, f: nat, e: Entry)
    requires IsOldest(q, timestampIn, range, f) && e in AfterRead(q, timestampIn, range, f)
    ensures e in q && e.timestamp >= q[f].timestamp
  {
    KeepMembers(TakeOut(q, f), Threshold(timestampIn, range), e);
    var i :| 0 <= i < |TakeOut(q, f)| && TakeOut(q, f)[i] == e;
    assert e == q[f := q[0]][i + 1];
    assert e == if i + 1 == f then q[0] else q[i + 1];
  }

  /** An entry that a read may return: from `range` before the time asked for to one after it, and not the
      largest stamp there is. */
  predicate MayBeRead(e: Entry, timestampIn: u32, range: u32) {
    timestampIn - range <= e.timestamp && e.timestamp <= timestampIn + 1 && e.timestamp < 0xFFFF_FFFF
  }

  /** `out` is an oldest entry that may be read. */
  predicate ReadsOldest(q: seq<Entry>, timestampIn: u32, range: u32, out: Entry) {
    && out in q && MayBeRead(out, timestampIn, range)
    && forall e :: e in q && MayBeRead(e, timestampIn, range) ==> out.timestamp <= e.timestamp
  }

  /** One copy of `out` is gone, and everything older than the window; everything else is left, as often as
      it was there. */
  ghost predicate LeavesRest(q: seq<Entry>, timestampIn: u32, range: u32, out: Entry, rest: seq<Entry>) {
    forall e: Entry :: if e.timestamp < timestampIn - range then multiset(rest)[e] == 0
                else multiset(rest)[e] + (if e == out then 1 else 0) == multiset(q)[e]
  }

  lemma ReadMeans(q: seq<Entry>, timestampIn: u32, range: u32, f: nat)
    requires IsOldest(q, timestampIn, range, f)
    ensures f < |q| && ReadsOldest(q, timestampIn, range, q[f])
    ensures timestampIn >= range ==> LeavesRest(q, timestampIn, range, q[f], AfterRead(q, timestampIn, range, f))
  {
    hide AfterRead;
    if timestampIn >= range {
      forall e: Entry
        ensures var rest := AfterRead(q, timestampIn, range, f);
                if e.timestamp < timestampIn - range then multiset(rest)[e] == 0
                else multiset(rest)[e] + (if e == q[f] then 1 else 0) == multiset(q)[e]
      {
        LeftTimes(q, timestampIn, range, f, e);
      }
    }
  }

  lemma LeftTimes(q: seq<Entry>, timestampIn: u32, range: u32, f: nat, e: Entry)
    requires f < |q| && timestampIn >= range
    ensures var rest := AfterRead(q, timestampIn, range, f);
            if e.timestamp < timestampIn - range then multiset(rest)[e] == 0
            else multiset(rest)[e] + (if e == q[f] then 1 else 0) == multiset(q)[e]
  {
    hide Keep, TakeOut;
    TakeOutBag(q, f);
    KeepTimes(TakeOut(q, f), timestampIn - range, e);
  }

  lemma NothingToRead(q: seq<Entry>, timestampIn: u32, range: u32)
    ensures NoneWanted(q, timestampIn, range) <==> forall e :: e in q ==> !MayBeRead(e, timestampIn, range)
  {
    if forall e :: e in q ==> !MayBeRead(e, timestampIn, range) {
      forall i | 0 <= i < |q|
        ensures !Wanted(q[i], timestampIn, range)
      {
        assert q[i] in q;
      }
    }
  }

  /** The first entry moves into the place of the one taken out; the others keep their order. */
  lemma TakeOutAt(q: seq<Entry>, f: nat, j: nat)
    requires f < |q| && j < |q| - 1
    ensures TakeOut(q, f)[j] == if j + 1 == f then q[0] else q[j + 1]
  {}

  /** A call of tsb_read and the position of the entry it found, if any. */
  datatype ReadCall = ReadCall(timestampIn: u32, range: u32, found: Option<nat>)

  /** `calls` are what successive reads of `q` do, with no write in between. */
  predicate IsReads(q: seq<Entry>, calls: seq<ReadCall>)
    decreases |calls|
  {
    calls == [] ||
    match calls[0].found
    case None => NoneWanted(q, calls[0].timestampIn, calls[0].range) && IsReads(q, calls[1..])
    case Some(f) =>
      && IsOldest(q, calls[0].timestampIn, calls[0].range, f)
      && IsReads(AfterRead(q, calls[0].timestampIn, calls[0].range, f), calls[1..])
  }

  /** The entries they return, in order. */
  function Returned(q: seq<Entry>, calls: seq<ReadCall>): seq<Entry>
    requires IsReads(q, calls)
    decreases |calls|
  {
    if calls == [] then []
    else
      match calls[0].found
      case None => Returned(q, calls[1..])
      case Some(f) => [q[f]] + Returned(AfterRead(q, calls[0].timestampIn, calls[0].range, f), calls[1..])
  }

  lemma {:induction false} ReturnedAreBuffered(q: seq<Entry>, calls: seq<ReadCall>, e: Entry)
    requires IsReads(q, calls) && e in Returned(q, calls)
    ensures e in q
    decreases |calls|
  {
    hide AfterRead;
    match calls[0].found
    case None => ReturnedAreBuffered(q, calls[1..], e);
    case Some(f) =>
      if e != q[f] {
        var rest := AfterRead(q, calls[0].timestampIn, calls[0].range, f);
        ReturnedAreBuffered(rest, calls[1..], e);
        LeftoversAreNewer(q, calls[0].timestampIn, calls[0].range, f, e);
      }
  }

  /** Over any run of reads, with whatever windows and failing ones in between, the timestamps returned
      never decrease. */
  lemma {:induction false} ReadsAscend(q: seq<Entry>, calls: seq<ReadCall>)
    requires IsReads(q, calls)
    ensures Ascending(Returned(q, calls))
    decreases |calls|
  {
    hide AfterRead;
    if calls != [] {
      match calls[0].found
      case None => ReadsAscend(q, calls[1..]);
      case Some(f) =>
        var rest := AfterRead(q, calls[0].timestampIn, calls[0].range, f);
        ReadsAscend(rest, calls[1..]);
        var more := Returned(rest, calls[1..]);
        forall j | 0 <= j < |more|
          ensures q[f].timestamp <= more[j].timestamp
        {
          ReturnedAreBuffered(rest, calls[1..], more[j]);
          LeftoversAreNewer(q, calls[0].timestampIn, calls[0].range, f, more[j]);
        }
    }
  }

  /** A read keeps every entry that is not older than its window exactly when the window does not
      start below zero, or nothing was left to keep: below zero the threshold wraps around and the
      read throws every other entry away. */
  lemma ReadKeepsNewer(q: seq<Entry>, timestampIn: u32, range: u32, f: nat)
    requires f < |q|
    ensures AfterRead(q, timestampIn, range, f) == Keep(TakeOut(q, f), timestampIn - range) <==>
            timestampIn >= range || |q| == 1
    ensures timestampIn < range ==> AfterRead(q, timestampIn, range, f) == []
  {
    var rest := TakeOut(q, f);
    if timestampIn < range {
      assert Threshold(timestampIn, range) == timestampIn - range + U64_LIMIT;
      KeepNone(rest, Threshold(timestampIn, range));
      KeepAll(rest, timestampIn - range);
    }
  }

  lemma {:induction false} KeepAll(q: seq<Entry>, threshold: int)
    requires threshold <= 0
    ensures Keep(q, threshold) == q
  {
    if q != [] {
      KeepAll(q[..|q| - 1], threshold);
    }
  }

  lemma {:induction false} KeepNone(q: seq<Entry>, threshold: int)
    requires threshold >= U32_LIMIT
    ensures Keep(q, threshold) == []
  {
    if q != [] {
      KeepNone(q[..|q| - 1], threshold);
    }
  }

  // ---------------------------------------------------------------- ownership of payloads

  /** Every payload ever written is buffered, was handed back, or was freed: once each. */
  ghost predicate Balance(written: multiset<Payload>, q: seq<Entry>, returned: multiset<Payload>, freed: multiset<Payload>) {
    forall p: Payload :: p != NULL ==> written[p] == Count(q, p) + returned[p] + freed[p]
  }

  /** The queue after writing an entry into a ring with room for `capacity`, and what falls out. */
  function AfterWrite(q: seq<Entry>, capacity: nat, e: Entry): seq<Entry> {
    (if |q| == capacity && q != [] then q[1..] else q) + [e]
  }

  function Evicted(q: seq<Entry>, capacity: nat): Payload {
    if |q| == capacity && q != [] then q[0].data else NULL
  }

  /** A buffer with room gains the entry at its end; a full one also loses its first entry, and only that. */
  lemma WriteMeans(q: seq<Entry>, capacity: nat, e: Entry)
    requires |q| <= capacity && capacity > 0
    ensures var r := AfterWrite(q, capacity, e);
            && (|q| < capacity ==> r == q + [e] && Evicted(q, capacity) == NULL)
            && (|q| == capacity ==>
                  && |r| == |q| && (forall i :: 0 <= i < |q| - 1 ==> r[i] == q[i + 1]) && r[|q| - 1] == e
                  && Evicted(q, capacity) == q[0].data)
  {}

  lemma FreeCount(p: Payload, x: Payload)
    requires x != NULL
    ensures FreeOf(p)[x] == if p == x then 1 else 0
  {}

  lemma WriteBalances(written: multiset<Payload>, q: seq<Entry>, returned: multiset<Payload>, freed: multiset<Payload>,
                      capacity: nat, e: Entry)
    requires Balance(written, q, returned, freed)
    ensures Balance(written + FreeOf(e.data), AfterWrite(q, capacity, e), returned + FreeOf(Evicted(q, capacity)), freed)
  {
    hide Count, FreeOf;
    forall p: Payload | p != NULL
      ensures (written + FreeOf(e.data))[p] ==
              Count(AfterWrite(q, capacity, e), p) + (returned + FreeOf(Evicted(q, capacity)))[p] + freed[p]
    {
      CountOne(e, p);
      FreeCount(e.data, p);
      FreeCount(Evicted(q, capacity), p);
      if |q| == capacity && q != [] {
        CountTakeOut(q, 0, p);
        CountConcat(q[1..], [e], p);
      } else {
        CountConcat(q, [e], p);
      }
    }
  }

  lemma ReadBalances(written: multiset<Payload>, q: seq<Entry>, returned: multiset<Payload>, freed: multiset<Payload>,
                     timestampIn: u32, range: u32, f: nat)
    requires Balance(written, q, returned, freed) && f < |q|
    ensures Balance(written, AfterRead(q, timestampIn, range, f), returned + FreeOf(q[f].data),
                    freed + FreedBelow(TakeOut(q, f), Threshold(timestampIn, range)))
  {
    hide Count, FreeOf, Keep, FreedBelow, TakeOut;
    var rest, t := TakeOut(q, f), Threshold(timestampIn, range);
    forall p: Payload | p != NULL
      ensures written[p] == Count(Keep(rest, t), p) + (returned + FreeOf(q[f].data))[p] + (freed + FreedBelow(rest, t))[p]
    {
      CountTakeOut(q, f, p);
      CountKeep(rest, t, p);
      FreeCount(q[f].data, p);
    }
  }

  /** A payload that was handed back is freed by the one who got it. */
  lemma FreeBalances(written: multiset<Payload>, q: seq<Entry>, returned: multiset<Payload>, freed: multiset<Payload>, x: Payload)
    requires Balance(written, q, returned + FreeOf(x), freed)
    ensures Balance(written, q, returned, freed + FreeOf(x))
  {
    hide Count;
  }

  // ---------------------------------------------------------------- draining

  predicate Ascending(s: seq<Entry>) {
    forall i, j :: 0 <= i < j < |s| ==> s[i].timestamp <= s[j].timestamp
  }

  /** During a drain: nothing lost, released in order, and nothing left that should have come earlier. */
  ghost predicate Draining(q0: seq<Entry>, released: seq<Entry>, q: seq<Entry>) {
    && multiset(released) + multiset(q) == multiset(q0)
    && Ascending(released)
    && (forall i :: 0 <= i < |released| ==> released[i].timestamp < UINT32_MAX)
    && (forall i, j :: 0 <= i < |released| && 0 <= j < |q| ==> released[i].timestamp <= q[j].timestamp)
  }

  lemma DrainStarts(q0: seq<Entry>)
    ensures Draining(q0, [], q0)
  {}

  lemma DrainNext(q0: seq<Entry>, released: seq<Entry>, q: seq<Entry>, f: nat)
    requires Draining(q0, released, q) && IsOldest(q, UINT32_MAX, UINT32_MAX, f)
    ensures Draining(q0, released + [q[f]], AfterRead(q, UINT32_MAX, UINT32_MAX, f))
    ensures |AfterRead(q, UINT32_MAX, UINT32_MAX, f)| < |q|
  {
    hide AfterRead, TakeOut, IsOldest;
    OldestFirst(q, f);
    FullWindow(q, f);
    TakeOutBag(q, f);
    assert multiset(released + [q[f]]) == multiset(released) + multiset{q[f]};
  }

  /** A drain looks at the full range of timestamps, so its reads drop nothing. */
  lemma FullWindow(q: seq<Entry>, f: nat)
    requires f < |q|
    ensures AfterRead(q, UINT32_MAX, UINT32_MAX, f) == TakeOut(q, f)
  {
    assert Threshold(UINT32_MAX, UINT32_MAX) == 0;
    KeepAll(TakeOut(q, f), 0);
  }

  lemma OldestFirst(q: seq<Entry>, f: nat)
    requires IsOldest(q, UINT32_MAX, UINT32_MAX, f)
    ensures f < |q| && q[f].timestamp < UINT32_MAX
    ensures forall j :: 0 <= j < |TakeOut(q, f)| ==>
              q[f].timestamp <= TakeOut(q, f)[j].timestamp && exists i :: 0 <= i < |q| && q[i] == TakeOut(q, f)[j]
  {
    var rest := TakeOut(q, f);
    forall j | 0 <= j < |rest|
      ensures q[f].timestamp <= rest[j].timestamp && exists i :: 0 <= i < |q| && q[i] == rest[j]
    {
      var i := if j + 1 == f then 0 else j + 1;
      assert rest[j] == q[f := q[0]][j + 1] == q[i];
      assert !Wanted(q[i], UINT32_MAX, UINT32_MAX) ==> q[i].timestamp == UINT32_MAX;
    }
  }

  lemma DrainEnds(q0: seq<Entry>, released: seq<Entry>, q: seq<Entry>)
    requires Draining(q0, released, q) && NoneWanted(q, UINT32_MAX, UINT32_MAX)
    ensures forall i :: 0 <= i < |q| ==> q[i].timestamp == UINT32_MAX
  {
    forall i | 0 <= i < |q|
      ensures q[i].timestamp == UINT32_MAX
    {
      assert !Wanted(q[i], UINT32_MAX, UINT32_MAX);
    }
  }
}
