/**
  What the video receiver delivers for any loss, reordering and interleaving of the pieces of
  many frames.
 */
module RtpTransfer {
  import opened Words
  import opened RtpHeader
  import opened Reassembly
  import opened Wrappers

  /** A frame as the sender knows it. */
  datatype Frame = Frame(sequnum: u16, timestamp: u32, data: seq<byte>)

  // ---------------------------------------------------------------- groups of pieces

  /** `p` carries the bytes of `f` at its own offset. */
  predicate IsPiece(p: Packet, f: Frame) {
    && p.header.sequnum == f.sequnum && p.header.timestamp == f.timestamp
    && p.header.dataLengthFull == |f.data|
    && p.payload != [] && p.End() <= |f.data|
    && p.payload == f.data[p.Start()..p.End()]
  }

  predicate PiecesOf(g: Group, f: Frame) {
    forall i :: 0 <= i < |g| ==> IsPiece(g[i], f)
  }

  predicate Disjoint(p: Packet, q: Packet) {
    p.End() <= q.Start() || q.End() <= p.Start()
  }

  predicate AllDisjoint(g: Group) {
    forall i, j :: 0 <= i < j < |g| ==> Disjoint(g[i], g[j])
  }

  predicate From(a: nat, x: nat) { a <= x }

  function Range(a: nat, b: nat): set<nat> {
    set x: nat | x < b && From(a, x)
  }

  lemma {:induction false} RangeSize(a: nat, b: nat)
    requires a <= b
    ensures |Range(a, b)| == b - a
    decreases b
  {
    if a < b {
      RangeSize(a, b - 1);
      assert Range(a, b) == Range(a, b - 1) + {b - 1};
    }
  }

  /** Byte positions written by the packets of `g`. */
  function Covered(g: Group): set<nat> {
    if g == [] then {} else Covered(g[..|g| - 1]) + Range(g[|g| - 1].Start(), g[|g| - 1].End())
  }

  lemma {:induction false} CoveredMember(g: Group, x: nat)
    requires x in Covered(g)
    ensures exists i :: 0 <= i < |g| && g[i].Start() <= x < g[i].End()
  {
    var last := g[|g| - 1];
    if !(last.Start() <= x < last.End()) {
      CoveredMember(g[..|g| - 1], x);
      var i :| 0 <= i < |g| - 1 && g[..|g| - 1][i].Start() <= x < g[..|g| - 1][i].End();
      assert g[i] == g[..|g| - 1][i];
    }
  }

  /** The assembled bytes are the frame's at every received position and zero elsewhere. */
  lemma {:induction false} AssembledBytes(g: Group, f: Frame)
    requires PiecesOf(g, f)
    ensures Fits(|f.data|, g)
    ensures forall x :: x in Covered(g) ==> x < |f.data|
    ensures forall x :: 0 <= x < |f.data| ==> Assemble(|f.data|, g)[x] == if x in Covered(g) then f.data[x] else 0
  {
    if g != [] {
      assert IsPiece(g[|g| - 1], f);
      AssembledBytes(g[..|g| - 1], f);
    }
  }

  /** Disjoint pieces: the byte counter counts exactly the received positions. */
  lemma {:induction false} CountCovered(g: Group)
    requires AllDisjoint(g)
    ensures |Covered(g)| == Received(g)
  {
    if g != [] {
      var init, last := g[..|g| - 1], g[|g| - 1];
      CountCovered(init);
      RangeSize(last.Start(), last.End());
      forall x | x in Covered(init)
        ensures x !in Range(last.Start(), last.End())
      {
        CoveredMember(init, x);
        var i :| 0 <= i < |init| && init[i].Start() <= x < init[i].End();
        assert Disjoint(g[i], g[|g| - 1]);
      }
      assert Covered(init) !! Range(last.Start(), last.End());
    }
  }

  lemma FullSet(s: set<nat>, n: nat)
    requires s <= Range(0, n)
    ensures |s| <= n
    ensures |s| == n ==> s == Range(0, n)
  {
    RangeSize(0, n);
    var missing := Range(0, n) - s;
    assert Range(0, n) == s + missing && s !! missing;
    assert |Range(0, n)| == |s| + |missing|;
  }

  /** Disjoint pieces never add up to more than the frame, and if they add up to all of it
      the assembled bytes are the frame. */
  lemma CompleteGroup(g: Group, f: Frame)
    requires PiecesOf(g, f) && AllDisjoint(g)
    ensures Received(g) <= |f.data| && Fits(|f.data|, g)
    ensures Received(g) == |f.data| ==> Assemble(|f.data|, g) == f.data
  {
    AssembledBytes(g, f);
    CountCovered(g);
    assert Covered(g) <= Range(0, |f.data|);
    FullSet(Covered(g), |f.data|);
  }

  lemma {:induction false} PieceCovered(g: Group, i: nat, x: nat)
    requires i < |g| && g[i].Start() <= x < g[i].End()
    ensures x in Covered(g)
  {
    if i < |g| - 1 {
      PieceCovered(g[..|g| - 1], i, x);
    }
  }

  lemma SharedPosition(g: Group, i: nat, p: Packet)
    requires i < |g| && !Disjoint(g[i], p) && p.payload != [] && g[i].payload != []
    ensures Covered(g) * Range(p.Start(), p.End()) != {}
  {
    var x := if g[i].Start() < p.Start() then p.Start() else g[i].Start();
    PieceCovered(g, i, x);
    assert x in Covered(g) * Range(p.Start(), p.End());
  }

  /** Overlapping pieces: the byte counter exceeds the number of received positions. */
  lemma {:induction false} OverlapOvercounts(g: Group)
    requires forall i :: 0 <= i < |g| ==> g[i].payload != []
    ensures |Covered(g)| <= Received(g)
    ensures |Covered(g)| == Received(g) ==> AllDisjoint(g)
  {
    if g != [] {
      var init, last := g[..|g| - 1], g[|g| - 1];
      var was, more := Covered(init), Range(last.Start(), last.End());
      OverlapOvercounts(init);
      RangeSize(last.Start(), last.End());
      assert |was + more| == |was| + |more| - |was * more|;
      if |Covered(g)| == Received(g) {
        assert was * more == {};
        forall i | 0 <= i < |init|
          ensures Disjoint(g[i], last)
        {
          if !Disjoint(init[i], last) {
            SharedPosition(init, i, last);
            assert false;
          }
        }
        assert AllDisjoint(init);
        assert forall i :: 0 <= i < |init| ==> g[i] == init[i];
      }
    }
  }

  /** A slot whose counter has reached the frame length holds the whole frame exactly when no
      byte was received twice. */
  lemma FullCountIsFullFrame(g: Group, f: Frame)
    requires PiecesOf(g, f) && Received(g) == |f.data|
    ensures Covered(g) == Range(0, |f.data|) <==> AllDisjoint(g)
  {
    forall i | 0 <= i < |g|
      ensures g[i].payload != []
    {
      assert IsPiece(g[i], f);
    }
    AssembledBytes(g, f);
    OverlapOvercounts(g);
    RangeSize(0, |f.data|);
    if AllDisjoint(g) {
      CountCovered(g);
      FullSet(Covered(g), |f.data|);
    }
  }

  // ---------------------------------------------------------------- runs of the receiver

  /** All packets of `arrivals` handled in order from an empty work buffer; None when some
      packet could not be stored (see `Acceptable`). */
  function Run(arrivals: seq<Packet>): (r: Option<Outcome>)
    ensures r.Some? ==> SlotsOk(r.value.slots) && AllOk(r.value.delivered)
  {
    if arrivals == [] then Some(Outcome([], []))
    else
      var last := arrivals[|arrivals| - 1];
      match Run(arrivals[..|arrivals| - 1])
      case None => None
      case Some(o) =>
        if !Acceptable(o.slots, last) then None
        else
          HandleOk(o.slots, last);
          var h := Handle(o.slots, last);
          Some(Outcome(h.slots, o.delivered + h.delivered))
  }

  lemma RunNothing()
    ensures Run([]) == Some(Outcome([], []))
  {}

  lemma RunStep(arrivals: seq<Packet>)
    requires arrivals != [] && Run(arrivals).Some?
    ensures var init, last := arrivals[..|arrivals| - 1], arrivals[|arrivals| - 1];
            && Run(init).Some? && Acceptable(Run(init).value.slots, last)
            && var h := Handle(Run(init).value.slots, last);
               Run(arrivals).value == Outcome(h.slots, Run(init).value.delivered + h.delivered)
  {
    hide Acceptable, Handle;
  }

  lemma RunSnoc(arrivals: seq<Packet>, p: Packet)
    requires Run(arrivals).Some? && Acceptable(Run(arrivals).value.slots, p)
    ensures var o := Run(arrivals).value;
            var h := Handle(o.slots, p);
            Run(arrivals + [p]) == Some(Outcome(h.slots, o.delivered + h.delivered))
  {
    hide Acceptable, Handle;
    assert (arrivals + [p])[..|arrivals|] == arrivals;
  }

  /** How a group of the next state relates to the groups of this one. */
  predicate Grown(slots: seq<Group>, p: Packet, g: Group) {
    g in slots || g == [p] || (|g| > 1 && g[|g| - 1] == p && g[..|g| - 1] in slots && Extends(g[..|g| - 1], p))
  }

  lemma PutGrown(slots: seq<Group>, t: nat, p: Packet, g: Group)
    requires t <= |slots| && (t < |slots| ==> Extends(slots[t], p))
    requires g in Put(slots, t, p)
    ensures Grown(slots, p, g)
  {
    if t < |slots| && g == slots[t] + [p] {
      assert g[..|g| - 1] == slots[t];
    }
  }

  lemma FlushFrom(slots: seq<Group>, t: nat, g: Group)
    requires AllOk(slots) && t < |slots|
    requires g in Flush(slots, t).slots || g in Flush(slots, t).delivered
    ensures g in slots
  {
    hide GroupOk;
    if g in Flush(slots, t).slots {
      assert g in RemoveAt(slots, t);
    }
  }

  /** Every group in a slot or handed over is an old group, a new one, or an old one plus `p`. */
  lemma {:induction false} HandleGrown(slots: seq<Group>, p: Packet, g: Group)
    requires SlotsOk(slots) && Acceptable(slots, p)
    requires g in Handle(slots, p).slots || g in Handle(slots, p).delivered
    ensures Grown(slots, p, g)
  {
    hide GroupOk, Acceptable, Extends, Flush, Put;
    if Sane(p) {
      RoomOk(slots, p);
      var room, t := RoomFor(slots, p), Place(slots, p);
      assert forall h :: h in room.slots || h in room.delivered ==> h in slots;
      var filled := Put(room.slots, t, p);
      if g !in room.delivered {
        if g !in filled {
          FlushFrom(filled, t, g);
        }
        PutGrown(room.slots, t, p, g);
      }
    }
  }

  // ---------------------------------------------------------------- any loss and reordering

  predicate DistinctFrames(frames: seq<Frame>) {
    forall i, j :: 0 <= i < j < |frames| ==>
      frames[i].sequnum != frames[j].sequnum || frames[i].timestamp != frames[j].timestamp
  }

  predicate PieceOfSome(frames: seq<Frame>, p: Packet) {
    exists i :: 0 <= i < |frames| && IsPiece(p, frames[i])
  }

  predicate PiecesOfSome(frames: seq<Frame>, g: Group) {
    exists i :: 0 <= i < |frames| && PiecesOf(g, frames[i])
  }

  /** `arrivals` are pieces of `frames`, in any order and with any of them missing. */
  predicate Traffic(frames: seq<Frame>, arrivals: seq<Packet>) {
    && DistinctFrames(frames)
    && forall k :: 0 <= k < |arrivals| ==> PieceOfSome(frames, arrivals[k]) && |arrivals[k].payload| < U16_LIMIT
  }

  /** Such packets, none of which failed to be stored. */
  predicate Handled(frames: seq<Frame>, arrivals: seq<Packet>) {
    Traffic(frames, arrivals) && Run(arrivals).Some?
  }

  /** No byte of a frame arrives twice. */
  predicate NoOverlap(arrivals: seq<Packet>) {
    forall j, k :: 0 <= j < k < |arrivals| && SameFrame(arrivals[j].header, arrivals[k].header) ==>
      Disjoint(arrivals[j], arrivals[k])
  }

  /** A piece that goes to the slot of a group is a piece of the same frame. */
  lemma SameOwner(frames: seq<Frame>, g: Group, p: Packet)
    requires DistinctFrames(frames) && PieceOfSome(frames, p) && PiecesOfSome(frames, g)
    requires g != [] && SameFrame(p.header, g[0].header)
    ensures PiecesOfSome(frames, g + [p])
    ensures p.header.dataLengthFull == g[0].header.dataLengthFull
  {
    var i :| 0 <= i < |frames| && IsPiece(p, frames[i]);
    var j :| 0 <= j < |frames| && PiecesOf(g, frames[j]);
    assert IsPiece(g[0], frames[j]);
    assert i == j;
    assert PiecesOf(g + [p], frames[j]);
  }

  /** `g` is in a slot or was handed over. */
  predicate InRun(arrivals: seq<Packet>, g: Group) {
    Run(arrivals).Some? && (g in Run(arrivals).value.slots || g in Run(arrivals).value.delivered)
  }

  /** Every group, in a slot or handed over, is made of arrived pieces of one frame. */
  lemma {:induction false} RunGroups(frames: seq<Frame>, arrivals: seq<Packet>, g: Group)
    requires Traffic(frames, arrivals) && InRun(arrivals, g)
    ensures g != [] && PiecesOfSome(frames, g)
    ensures forall q :: q in g ==> q in arrivals
  {
    hide Acceptable, Handle, SlotsOk;
    if arrivals != [] {
      var init, last := arrivals[..|arrivals| - 1], arrivals[|arrivals| - 1];
      var o := Run(init).value;
      if g in o.delivered {
        RunGroups(frames, init, g);
      } else {
        HandleGrown(o.slots, last, g);
        if g in o.slots {
          RunGroups(frames, init, g);
        } else if g == [last] {
          var i :| 0 <= i < |frames| && IsPiece(last, frames[i]);
          assert PiecesOf(g, frames[i]);
        } else {
          var h := g[..|g| - 1];
          RunGroups(frames, init, h);
          SameOwner(frames, h, last);
          assert g == h + [last];
        }
      }
    }
  }

  /** A group extended by a later arrival stays free of overlaps. */
  lemma StaysDisjoint(arrivals: seq<Packet>, g: Group)
    requires NoOverlap(arrivals) && arrivals != [] && g != []
    requires AllDisjoint(g) && forall q :: q in g ==> q in arrivals[..|arrivals| - 1]
    requires forall q :: q in g ==> SameFrame(q.header, arrivals[|arrivals| - 1].header)
    ensures AllDisjoint(g + [arrivals[|arrivals| - 1]])
  {
    var n := |arrivals| - 1;
    forall i | 0 <= i < |g|
      ensures Disjoint(g[i], arrivals[n])
    {
      assert g[i] in g;
      var k :| 0 <= k < n && arrivals[k] == g[i];
    }
  }

  lemma {:induction false} RunDisjoint(frames: seq<Frame>, arrivals: seq<Packet>, g: Group)
    requires Traffic(frames, arrivals) && NoOverlap(arrivals) && InRun(arrivals, g)
    ensures AllDisjoint(g)
  {
    hide Acceptable, Handle, SlotsOk;
    if arrivals != [] {
      var init, last := arrivals[..|arrivals| - 1], arrivals[|arrivals| - 1];
      var o := Run(init).value;
      if g in o.delivered {
        RunDisjoint(frames, init, g);
      } else {
        HandleGrown(o.slots, last, g);
        if g in o.slots {
          RunDisjoint(frames, init, g);
        } else if g != [last] {
          var h := g[..|g| - 1];
          RunDisjoint(frames, init, h);
          RunGroups(frames, init, h);
          OneFrame(frames, h);
          StaysDisjoint(arrivals, h);
          assert g == h + [last];
        }
      }
    }
  }

  lemma OneFrame(frames: seq<Frame>, g: Group)
    requires PiecesOfSome(frames, g)
    ensures forall i :: 0 <= i < |g| ==> SameFrame(g[i].header, g[0].header)
  {
    var i :| 0 <= i < |frames| && PiecesOf(g, frames[i]);
    assert g != [] ==> IsPiece(g[0], frames[i]);
  }

  /** Without duplicated bytes every packet can be stored: no copy leaves its buffer and the
      32-bit counter does not wrap. */
  lemma {:induction false} RunSucceeds(frames: seq<Frame>, arrivals: seq<Packet>)
    requires Traffic(frames, arrivals) && NoOverlap(arrivals)
    ensures Run(arrivals).Some?
  {
    hide Handle, GroupOk;
    if arrivals != [] {
      var init, last := arrivals[..|arrivals| - 1], arrivals[|arrivals| - 1];
      assert PieceOfSome(frames, last);
      RunSucceeds(frames, init);
      var slots := Run(init).value.slots;
      var t := Target(slots, last);
      if t < |slots| {
        var g := slots[t];
        RunGroups(frames, init, g);
        RunDisjoint(frames, init, g);
        OneFrame(frames, g);
        SameOwner(frames, g, last);
        StaysDisjoint(arrivals, g);
        var i :| 0 <= i < |frames| && PiecesOf(g + [last], frames[i]);
        CompleteGroup(g + [last], frames[i]);
        assert (g + [last])[..|g|] == g;
        assert IsPiece((g + [last])[|g|], frames[i]);
      }
    }
  }

  /** What the receiver owes a frame: the header is that of its first packet, the size the frame's, every received
      position holds the frame's byte and every other one zero, the received length is the
      number of received positions, and a full count means the frame itself. */
  predicate Faithful(g: Group, f: Frame)
    requires GroupOk(g)
  {
    var m := MessageOf(g);
    && m.header == g[0].header.(receivedLengthFull := m.header.receivedLengthFull)
    && m.header.receivedLengthFull == |Covered(g)|
    && m.header.sequnum == f.sequnum && m.header.timestamp == f.timestamp
    && m.header.dataLengthFull == |m.data| == |f.data|
    && (forall x :: 0 <= x < |f.data| ==> m.data[x] == if x in Covered(g) then f.data[x] else 0)
    && (m.header.receivedLengthFull == |f.data| <==> Covered(g) == Range(0, |f.data|))
    && (m.header.receivedLengthFull == |f.data| ==> m.data == f.data)
  }

  lemma FaithfulGroup(g: Group, f: Frame)
    requires GroupOk(g) && PiecesOf(g, f) && AllDisjoint(g)
    ensures Faithful(g, f)
  {
    assert IsPiece(g[0], f);
    AssembledBytes(g, f);
    CountCovered(g);
    CompleteGroup(g, f);
    FullSet(Covered(g), |f.data|);
    RangeSize(0, |f.data|);
  }

  /** Main theorem of the receiver: for any loss, reordering and interleaving of the pieces of
      distinct frames, every delivered message is faithful to one of the frames and made only
      of pieces that arrived. */
  lemma {:induction false} DeliveredFaithfully(frames: seq<Frame>, arrivals: seq<Packet>)
    requires Traffic(frames, arrivals) && NoOverlap(arrivals)
    ensures Run(arrivals).Some?
    ensures forall g :: g in Run(arrivals).value.delivered ==>
              && GroupOk(g)
              && (forall q :: q in g ==> q in arrivals)
              && exists i :: 0 <= i < |frames| && PiecesOf(g, frames[i]) && Faithful(g, frames[i])
  {
    RunSucceeds(frames, arrivals);
    forall g | g in Run(arrivals).value.delivered
      ensures GroupOk(g) && (forall q :: q in g ==> q in arrivals)
      ensures exists i :: 0 <= i < |frames| && PiecesOf(g, frames[i]) && Faithful(g, frames[i])
    {
      hide Run;
      RunGroups(frames, arrivals, g);
      RunDisjoint(frames, arrivals, g);
      var i :| 0 <= i < |frames| && PiecesOf(g, frames[i]);
      FaithfulGroup(g, frames[i]);
    }
  }

  // ---------------------------------------------------------------- repeated bytes

  /** What a group of pieces gives without the promise that no byte came twice: right bytes at received
      positions, a counter that may be too high, and a full counter that can be trusted exactly when no
      byte came twice. */
  predicate Overcounted(g: Group, f: Frame)
    requires GroupOk(g)
  {
    var m := MessageOf(g);
    && m.header.sequnum == f.sequnum && m.header.timestamp == f.timestamp
    && m.header.dataLengthFull == |m.data| == |f.data|
    && (forall x :: 0 <= x < |f.data| ==> m.data[x] == if x in Covered(g) then f.data[x] else 0)
    && |Covered(g)| <= m.header.receivedLengthFull
    && (m.header.receivedLengthFull == |Covered(g)| <==> AllDisjoint(g))
    && (m.header.receivedLengthFull == |f.data| ==>
          && (Covered(g) == Range(0, |f.data|) <==> AllDisjoint(g))
          && (AllDisjoint(g) ==> m.data == f.data))
  }

  lemma OvercountedGroup(g: Group, f: Frame)
    requires GroupOk(g) && PiecesOf(g, f)
    ensures Overcounted(g, f)
  {
    assert IsPiece(g[0], f);
    AssembledBytes(g, f);
    OverlapOvercounts(g);
    if AllDisjoint(g) {
      CountCovered(g);
      CompleteGroup(g, f);
    }
    if Received(g) == |f.data| {
      FullCountIsFullFrame(g, f);
    }
  }

  /** With packets arriving any number of times, every delivered message still has the right bytes at every
      received position and zero elsewhere, and its full count can be trusted exactly when no byte of it
      came twice. */
  lemma {:induction false} DeliveredWithRepeats(frames: seq<Frame>, arrivals: seq<Packet>)
    requires Handled(frames, arrivals)
    ensures forall g :: g in Run(arrivals).value.delivered ==>
              && GroupOk(g)
              && (forall q :: q in g ==> q in arrivals)
              && exists i :: 0 <= i < |frames| && PiecesOf(g, frames[i]) && Overcounted(g, frames[i])
  {
    forall g | g in Run(arrivals).value.delivered
      ensures GroupOk(g) && (forall q :: q in g ==> q in arrivals)
      ensures exists i :: 0 <= i < |frames| && PiecesOf(g, frames[i]) && Overcounted(g, frames[i])
    {
      RunGroups(frames, arrivals, g);
      var i :| 0 <= i < |frames| && PiecesOf(g, frames[i]);
      OvercountedGroup(g, frames[i]);
    }
  }

  /** No counter exceeds what has arrived. */
  lemma {:induction false} CounterBound(arrivals: seq<Packet>, g: Group)
    requires InRun(arrivals, g)
    ensures Received(g) <= Received(arrivals)
  {
    hide Acceptable, Handle, SlotsOk;
    if arrivals != [] {
      var init, last := arrivals[..|arrivals| - 1], arrivals[|arrivals| - 1];
      var o := Run(init).value;
      if g in o.delivered {
        CounterBound(init, g);
      } else {
        HandleGrown(o.slots, last, g);
        if g in o.slots {
          CounterBound(init, g);
        } else if g == [last] {
          assert [last][..0] == [];
        } else {
          var h := g[..|g| - 1];
          CounterBound(init, h);
          assert g == h + [last];
        }
      }
    }
  }

  /** Pieces of the frames sent never reach out of a buffer, repeated or not: only the counter could wrap. */
  lemma {:induction false} TrafficStaysInside(frames: seq<Frame>, arrivals: seq<Packet>, p: Packet)
    requires Handled(frames, arrivals) && PieceOfSome(frames, p) && |p.payload| < U16_LIMIT
    ensures var slots := Run(arrivals).value.slots;
            var t := Target(slots, p);
            Acceptable(slots, p) <==> (t < |slots| ==> Received(slots[t]) + |p.payload| < U32_LIMIT)
  {
    hide Run, GroupOk;
    var slots := Run(arrivals).value.slots;
    var t := Target(slots, p);
    if t < |slots| {
      RunGroups(frames, arrivals, slots[t]);
      SameOwner(frames, slots[t], p);
    }
  }

  /** So the receiver never fails as long as fewer than 2^32 bytes arrive, however often each of them does. */
  lemma {:induction false} RepeatsSucceed(frames: seq<Frame>, arrivals: seq<Packet>)
    requires Traffic(frames, arrivals) && Received(arrivals) < U32_LIMIT
    ensures Run(arrivals).Some?
  {
    hide Handle, GroupOk, Acceptable;
    if arrivals != [] {
      var init, last := arrivals[..|arrivals| - 1], arrivals[|arrivals| - 1];
      RepeatsSucceed(frames, init);
      assert PieceOfSome(frames, last);
      TrafficStaysInside(frames, init, last);
      var slots := Run(init).value.slots;
      if Target(slots, last) < |slots| {
        CounterBound(init, slots[Target(slots, last)]);
      }
    }
  }

  /** The header of a piece, all other fields zero. */
  function PieceHeader(sequnum: u16, offset: u32, length: u32): RTPHeader {
    RTPHeader(0, 0, 0, 0, 0, 0, sequnum, 0, 0, 0, offset, length, 0, 0, 0, 0, 0, 0, 0, 0, 0)
  }

  /** The first byte of the frame [1, 1], received twice, is delivered as a complete frame [1, 0]. */
  lemma {:induction false} RepeatFoolsCounter()
    ensures var f, p := Frame(7, 0, [1, 1]), Packet(PieceHeader(7, 0, 2), [1]);
            && Traffic([f], [p, p])
            && Run([p, p]) == Some(Outcome([], [[p, p]])) && GroupOk([p, p])
            && MessageOf([p, p]).header.receivedLengthFull == 2 && MessageOf([p, p]).data == [1, 0]
  {
    var f, p := Frame(7, 0, [1, 1]), Packet(PieceHeader(7, 0, 2), [1]);
    assert IsPiece(p, f);
    assert [f][0] == f;
    Open(p);
    Extend([p], p);
    RunOne(p);
    NextPiece([p], p);
    RunSnoc([p], p);
    assert [p] + [p] == [p, p];
  }

  lemma RunOne(p: Packet)
    requires Sane(p) && IsMultipart(p) && 0 < |p.payload| < U16_LIMIT && p.End() <= p.header.dataLengthFull
    ensures Run([p]) == Some(Outcome([[p]], []))
  {
    FirstPiece(p);
    var none: seq<Packet> := [];
    RunNothing();
    RunSnoc(none, p);
    assert none + [p] == [p];
    assert Run(none).value.delivered + Handle([], p).delivered == [];
  }

  // ---------------------------------------------------------------- copies outside the buffer

  /** A packet that passes the checks can be stored exactly when its bytes lie inside the buffer of the slot
      it goes to and the byte counter does not wrap. */
  lemma AcceptableExact(slots: seq<Group>, p: Packet)
    requires SlotsOk(slots) && Sane(p) && 0 < |p.payload| < U16_LIMIT
    ensures var t := Target(slots, p);
            Acceptable(slots, p) <==>
              if t < |slots| then p.End() <= |MessageOf(slots[t]).data| && Received(slots[t]) + |p.payload| < U32_LIMIT
              else p.End() <= p.header.dataLengthFull
  {}

  /** Nothing compares a packet with the buffer its frame already has: any later packet of the frame that
      announces a longer frame passes the checks and goes to a slot it reaches out of. */
  lemma LaterLengthIsTrusted(p1: Packet, p2: Packet)
    requires Sane(p1) && IsMultipart(p1) && 0 < |p1.payload| < U16_LIMIT && p1.End() <= p1.header.dataLengthFull
    requires Sane(p2) && IsMultipart(p2) && 0 < |p2.payload| < U16_LIMIT && SameFrame(p1.header, p2.header)
    requires p2.End() > p1.header.dataLengthFull
    ensures Run([p1]) == Some(Outcome([[p1]], [])) && GroupOk([p1])
    ensures Target([[p1]], p2) == 0 && p2.End() > |MessageOf([p1]).data| && Run([p1, p2]).None?
  {
    RunOne(p1);
    Open(p1);
    assert [p1, p2][..1] == [p1];
    assert FindSlot([[p1]], p2.header) == 0;
  }

  /** There are such packets, reaching as far out of the buffer as one likes. */
  lemma CopyCanLeaveBuffer(beyond: u32) returns (p1: Packet, p2: Packet)
    requires beyond + 4 < U32_LIMIT
    ensures Sane(p1) && Sane(p2) && SameFrame(p1.header, p2.header)
    ensures Run([p1]) == Some(Outcome([[p1]], [])) && Target([[p1]], p2) == 0
    ensures GroupOk([p1]) && p2.End() > |MessageOf([p1]).data| + beyond && !Acceptable([[p1]], p2)
  {
    p1 := Packet(PieceHeader(7, 0, 2), [1]);
    p2 := Packet(PieceHeader(7, 2 + beyond, 4 + beyond), [1]);
    LaterLengthIsTrusted(p1, p2);
    AcceptableExact([[p1]], p2);
  }

  // ---------------------------------------------------------------- conservation

  /** How often `q` occurs in some groups. */
  function Copies(gs: seq<Group>, q: Packet): nat {
    if gs == [] then 0 else Copies(gs[..|gs| - 1], q) + multiset(gs[|gs| - 1])[q]
  }

  lemma {:induction false} CopiesConcat(gs: seq<Group>, hs: seq<Group>, q: Packet)
    ensures Copies(gs + hs, q) == Copies(gs, q) + Copies(hs, q)
  {
    if hs == [] {
      assert gs + hs == gs;
    } else {
      CopiesConcat(gs, hs[..|hs| - 1], q);
      assert (gs + hs)[..|gs + hs| - 1] == gs + hs[..|hs| - 1];
    }
  }

  lemma CopiesOne(g: Group, q: Packet)
    ensures Copies([g], q) == multiset(g)[q]
  {
    assert [g][..0] == [];
  }

  lemma CopiesRemove(gs: seq<Group>, i: nat, q: Packet)
    requires i < |gs|
    ensures Copies(gs, q) == Copies(RemoveAt(gs, i), q) + multiset(gs[i])[q]
  {
    hide Copies;
    CopiesOne(gs[i], q);
    assert gs == gs[..i] + ([gs[i]] + gs[i + 1..]);
    CopiesConcat(gs[..i], [gs[i]] + gs[i + 1..], q);
    CopiesConcat([gs[i]], gs[i + 1..], q);
    CopiesConcat(gs[..i], gs[i + 1..], q);
  }

  lemma CopiesPut(slots: seq<Group>, t: nat, p: Packet, q: Packet)
    requires t <= |slots|
    ensures Copies(Put(slots, t, p), q) == Copies(slots, q) + if p == q then 1 else 0
  {
    hide Copies;
    if t == |slots| {
      CopiesConcat(slots, [[p]], q);
      CopiesOne([p], q);
    } else {
      CopiesRemove(slots, t, q);
      CopiesRemove(Put(slots, t, p), t, q);
      assert RemoveAt(Put(slots, t, p), t) == RemoveAt(slots, t);
    }
  }

  lemma CopiesFlush(slots: seq<Group>, t: nat, q: Packet)
    requires AllOk(slots) && t < |slots|
    ensures Copies(slots, q) == Copies(Flush(slots, t).slots, q) + Copies(Flush(slots, t).delivered, q)
  {
    hide GroupOk, Copies;
    CopiesRemove(slots, t, q);
    CopiesOne(slots[t], q);
    var rest := RemoveAt(slots, t);
    if 0 < t {
      CopiesRemove(rest, 0, q);
      assert RemoveAt(rest, 0) == rest[1..];
      CopiesConcat([slots[t]], [slots[0]], q);
      CopiesOne(slots[0], q);
      assert [slots[t]] + [slots[0]] == [slots[t], slots[0]];
    }
  }

  lemma CopiesRoom(slots: seq<Group>, p: Packet, q: Packet)
    requires SlotsOk(slots)
    ensures Copies(slots, q) == Copies(RoomFor(slots, p).slots, q) + Copies(RoomFor(slots, p).delivered, q)
  {
    assert Copies([], q) == 0;
    hide GroupOk, Copies;
    if RoomFor(slots, p).delivered != [] {
      CopiesRemove(slots, 0, q);
      assert RemoveAt(slots, 0) == slots[1..];
      CopiesOne(slots[0], q);
    }
  }

  /** One packet is added, none is lost or copied. */
  lemma {:induction false} HandleConserves(slots: seq<Group>, p: Packet, q: Packet)
    requires SlotsOk(slots) && Acceptable(slots, p)
    ensures Copies(Handle(slots, p).slots, q) + Copies(Handle(slots, p).delivered, q) ==
            Copies(slots, q) + if Sane(p) && p == q then 1 else 0
  {
    hide Acceptable, AllOk, Copies, Handle, RoomFor, Place, Put, Flush;
    CopiesNone(q);
    if Sane(p) {
      RoomOk(slots, p);
      CopiesRoom(slots, p, q);
      var room, t := RoomFor(slots, p), Place(slots, p);
      CopiesPut(room.slots, t, p, q);
      var filled := Put(room.slots, t, p);
      FilledSlot(filled, t);
      CopiesFlush(filled, t, q);
      CopiesConcat(room.delivered, Flush(filled, t).delivered, q);
    }
    HandleParts(slots, p);
  }

  lemma CopiesNone(q: Packet)
    ensures Copies([], q) == 0
  {}

  lemma FilledSlot(filled: seq<Group>, t: nat)
    requires AllOk(filled) && t < |filled|
    ensures filled[t] != [] && filled[0] != []
  {
    hide GroupOk;
  }

  /** The two ways a stored packet can go. */
  lemma HandleParts(slots: seq<Group>, p: Packet)
    requires SlotsOk(slots) && Acceptable(slots, p)
    ensures !Sane(p) ==> Handle(slots, p) == Outcome(slots, [])
    ensures Sane(p) ==>
              var room, t := RoomFor(slots, p), Place(slots, p);
              var filled := Put(room.slots, t, p);
              && AllOk(filled) && filled[t] != [] && filled[0] != []
              && (|| Handle(slots, p) == Outcome(filled, room.delivered)
                  || Handle(slots, p) == Outcome(Flush(filled, t).slots, room.delivered + Flush(filled, t).delivered))
  {
    hide Acceptable, GroupOk, RoomFor, Place, Put, Flush;
    if Sane(p) {
      RoomOk(slots, p);
    }
  }

  lemma TrafficStep(frames: seq<Frame>, arrivals: seq<Packet>)
    requires Traffic(frames, arrivals) && arrivals != []
    ensures Traffic(frames, arrivals[..|arrivals| - 1]) && Sane(arrivals[|arrivals| - 1])
  {
    assert PieceOfSome(frames, arrivals[|arrivals| - 1]);
  }

  /** Each arrived piece is in exactly one place: one delivered message or one slot. */
  lemma {:induction false} RunConserves(frames: seq<Frame>, arrivals: seq<Packet>, q: Packet)
    requires Handled(frames, arrivals)
    ensures Copies(Run(arrivals).value.slots, q) + Copies(Run(arrivals).value.delivered, q) == multiset(arrivals)[q]
  {
    hide Run, Acceptable, Handle, AllOk, Copies, Traffic;
    CopiesNone(q);
    if arrivals == [] {
      RunNothing();
    } else {
      var init, last := arrivals[..|arrivals| - 1], arrivals[|arrivals| - 1];
      RunStep(arrivals);
      TrafficStep(frames, arrivals);
      RunConserves(frames, init, q);
      var o := Run(init).value;
      HandleConserves(o.slots, last, q);
      CopiesConcat(o.delivered, Handle(o.slots, last).delivered, q);
      OneMore(init, last, q);
      assert arrivals == init + [last];
    }
  }

  lemma OneMore(s: seq<Packet>, p: Packet, q: Packet)
    ensures multiset(s + [p])[q] == multiset(s)[q] + if p == q then 1 else 0
  {
    assert multiset(s + [p]) == multiset(s) + multiset{p};
  }
}
