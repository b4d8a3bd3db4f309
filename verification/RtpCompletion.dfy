/**
  Which frames the video receiver hands over, and when: a frame leaves the work buffer with the packet that
  completes it, and an incomplete one only to make room or because it lags behind a completed one.
 */
module RtpCompletion {
  import opened Words
  import opened Wrappers
  import opened Reassembly
  import opened RtpTransfer

  predicate OfFrame(g: Group, p: Packet) {
    g != [] && SameFrame(g[0].header, p.header)
  }

  predicate NoneOfFrame(gs: seq<Group>, p: Packet) {
    forall i :: 0 <= i < |gs| ==> !OfFrame(gs[i], p)
  }

  // ---------------------------------------------------------------- one packet

  /** `t` is the slot of the frame of `p`, or the number of used slots when it has none. */
  predicate Goes(s: seq<Group>, p: Packet, t: nat) {
    && t <= |s|
    && (t < |s| ==> IsMultipart(p) && OfFrame(s[t], p))
    && (IsMultipart(p) ==> forall i :: 0 <= i < t ==> !OfFrame(s[i], p))
  }

  function Joined(s: seq<Group>, p: Packet, t: nat): Group {
    (if t < |s| then s[t] else []) + [p]
  }

  /** Slot 0 had to make room. */
  predicate Evicts(s: seq<Group>, t: nat) {
    t == |s| == SLOT_COUNT
  }

  function Remaining(s: seq<Group>, t: nat): seq<Group> {
    if t < |s| then s[..t] + s[t + 1..] else if Evicts(s, t) then s[1..] else s
  }

  /** The frame in the first slot is more than two sequence numbers behind the completed one, which was in a
      later slot. */
  predicate Lags(s: seq<Group>, p: Packet, t: nat) {
    && t > 0 && Remaining(s, t) != [] && Remaining(s, t)[0] != []
    && Remaining(s, t)[0][0].header.sequnum + 2 < Joined(s, p, t)[0].header.sequnum
  }

  /** What one packet does to slots `s`: which groups are handed over, in order, and which stay. */
  predicate StepRule(s: seq<Group>, p: Packet, t: nat, after: seq<Group>, news: seq<Group>) {
    var evicted := if Evicts(s, t) then [s[0]] else [];
    var g := Joined(s, p, t);
    if Received(g) != p.header.dataLengthFull then
      news == evicted && after == if t < |s| then s[t := g] else Remaining(s, t) + [g]
    else if Lags(s, p, t) then
      news == evicted + [g, Remaining(s, t)[0]] && after == Remaining(s, t)[1..]
    else
      news == evicted + [g] && after == Remaining(s, t)
  }

  lemma StoredWhere(s: seq<Group>, p: Packet, t: nat)
    requires SlotsOk(s) && Target(s, p) == t
    ensures RoomFor(s, p).delivered == if Evicts(s, t) then [s[0]] else []
    ensures var filled, u := Put(RoomFor(s, p).slots, Place(s, p), p), Place(s, p);
            && u < |filled| && filled[u] == Joined(s, p, t) && RemoveAt(filled, u) == Remaining(s, t)
            && filled == (if t < |s| then s[t := Joined(s, p, t)] else Remaining(s, t) + [Joined(s, p, t)])
            && (u > 0 <==> t > 0) && (u > 0 ==> Remaining(s, t) != [] && filled[0] == Remaining(s, t)[0])
  {
    hide GroupOk;
    assert [] + [p] == [p];
  }

  /** The receiver follows the rule for every packet it can store. */
  lemma {:induction false} HandleFollowsRule(s: seq<Group>, p: Packet, t: nat)
    requires SlotsOk(s) && Acceptable(s, p) && Sane(p) && Goes(s, p, t)
    ensures StepRule(s, p, t, Handle(s, p).slots, Handle(s, p).delivered)
  {
    hide GroupOk, Acceptable, RoomFor, Place, Put, Remaining, Joined, RemoveAt, Received;
    TargetIs(s, p, t);
    StoredWhere(s, p, t);
    RoomOk(s, p);
    JoinedLast(s, p, t);
  }

  lemma JoinedLast(s: seq<Group>, p: Packet, t: nat)
    ensures Joined(s, p, t) != []
  {}

  lemma TargetIs(s: seq<Group>, p: Packet, t: nat)
    requires SlotsOk(s) && Goes(s, p, t)
    ensures Target(s, p) == t
  {
    hide GroupOk;
  }

  // ---------------------------------------------------------------- slots during a run

  /** Every frame has at most one slot, and no slot has its full count. */
  predicate Tidy(s: seq<Group>) {
    && (forall i :: 0 <= i < |s| ==> s[i] != [] && Received(s[i]) < s[i][0].header.dataLengthFull)
    && (forall i, j :: 0 <= i < j < |s| ==> !SameFrame(s[i][0].header, s[j][0].header))
  }

  /** The slot of a packet in tidy slots. */
  lemma PlaceOf(s: seq<Group>, p: Packet) returns (t: nat)
    requires Tidy(s) && (!IsMultipart(p) ==> NoneOfFrame(s, p))
    ensures Goes(s, p, t) && (t == |s| <==> NoneOfFrame(s, p))
  {
    if NoneOfFrame(s, p) {
      return |s|;
    }
    t :| 0 <= t < |s| && OfFrame(s[t], p);
  }

  lemma RemainingTidy(s: seq<Group>, p: Packet, t: nat)
    requires Tidy(s) && Goes(s, p, t) && (t == |s| <==> NoneOfFrame(s, p))
    ensures Tidy(Remaining(s, t)) && NoneOfFrame(Remaining(s, t), p)
  {
    hide Received;
  }

  lemma AddTidy(s: seq<Group>, g: Group, p: Packet)
    requires Tidy(s) && NoneOfFrame(s, p) && OfFrame(g, p) && Received(g) < g[0].header.dataLengthFull
    ensures Tidy(s + [g])
  {
    hide Received;
  }

  lemma UpdateTidy(s: seq<Group>, t: nat, g: Group)
    requires Tidy(s) && t < |s| && g != [] && g[0] == s[t][0] && Received(g) < g[0].header.dataLengthFull
    ensures Tidy(s[t := g])
  {
    hide Received;
  }

  /** The rule keeps slots tidy. */
  lemma RuleKeepsTidy(s: seq<Group>, p: Packet, t: nat, after: seq<Group>, news: seq<Group>)
    requires Tidy(s) && Goes(s, p, t) && StepRule(s, p, t, after, news) && (t == |s| <==> NoneOfFrame(s, p))
    requires Received(Joined(s, p, t)) <= p.header.dataLengthFull
    requires t < |s| ==> s[t][0].header.dataLengthFull == p.header.dataLengthFull
    ensures Tidy(after)
  {
    hide Received, Remaining, Tidy;
    RemainingTidy(s, p, t);
    var g := Joined(s, p, t);
    if Received(g) == p.header.dataLengthFull {
      DropFirstTidy(Remaining(s, t));
    } else if t < |s| {
      SlotThere(s, t);
      UpdateTidy(s, t, g);
    } else {
      AddTidy(Remaining(s, t), g, p);
    }
  }

  lemma SlotThere(s: seq<Group>, t: nat)
    requires Tidy(s) && t < |s|
    ensures s[t] != []
  {}

  lemma DropFirstTidy(s: seq<Group>)
    requires Tidy(s)
    ensures s != [] ==> Tidy(s[1..])
  {
    hide Received;
  }

  // ---------------------------------------------------------------- traffic without repeated bytes

  predicate CleanTraffic(frames: seq<Frame>, arrivals: seq<Packet>) {
    Traffic(frames, arrivals) && NoOverlap(arrivals)
  }

  /** A packet that is a whole frame cannot come after a piece of that frame. */
  lemma WholeFrameIsNew(frames: seq<Frame>, arrivals: seq<Packet>, p: Packet, g: Group)
    requires CleanTraffic(frames, arrivals + [p]) && InRun(arrivals, g) && OfFrame(g, p)
    ensures IsMultipart(p) && p.header.dataLengthFull == g[0].header.dataLengthFull
    ensures Received(g + [p]) <= p.header.dataLengthFull
  {
    hide Run, GroupOk;
    var all := arrivals + [p];
    assert all[|arrivals|] == p && all[..|arrivals|] == arrivals;
    PrefixClean(frames, arrivals, p);
    RunGroups(frames, arrivals, g);
    RunDisjoint(frames, arrivals, g);
    OneFrame(frames, g);
    SameOwner(frames, g, p);
    StaysDisjoint(all, g);
    var i :| 0 <= i < |frames| && PiecesOf(g + [p], frames[i]);
    CompleteGroup(g + [p], frames[i]);
    assert IsPiece((g + [p])[|g|], frames[i]) && IsPiece((g + [p])[0], frames[i]);
    assert Disjoint((g + [p])[0], (g + [p])[|g|]);
  }

  lemma PrefixClean(frames: seq<Frame>, arrivals: seq<Packet>, p: Packet)
    requires CleanTraffic(frames, arrivals + [p])
    ensures CleanTraffic(frames, arrivals) && PieceOfSome(frames, p) && |p.payload| < U16_LIMIT && Sane(p)
    ensures p.payload != [] && |p.payload| <= p.header.dataLengthFull
  {
    var all := arrivals + [p];
    assert all[|arrivals|] == p;
    assert forall k :: 0 <= k < |arrivals| ==> all[k] == arrivals[k];
    assert PieceOfSome(frames, all[|arrivals|]);
  }

  /** One more packet of such traffic: it can be stored, and the rule applies. */
  lemma ArrivalFollowsRule(frames: seq<Frame>, arrivals: seq<Packet>, p: Packet) returns (t: nat)
    requires CleanTraffic(frames, arrivals + [p])
    requires Run(arrivals).Some? && Tidy(Run(arrivals).value.slots)
    ensures Run(arrivals + [p]).Some?
    ensures var before, after := Run(arrivals).value, Run(arrivals + [p]).value;
            var s, done := before.slots, before.delivered;
            && |after.delivered| >= |done| && after.delivered[..|done|] == done
            && Goes(s, p, t) && (t == |s| <==> NoneOfFrame(s, p))
            && StepRule(s, p, t, after.slots, after.delivered[|done|..])
            && Received(Joined(s, p, t)) <= p.header.dataLengthFull
            && (t < |s| ==> s[t] != [] && s[t][0].header.dataLengthFull == p.header.dataLengthFull)
  {
    hide Run, Tidy, StepRule, Handle, Acceptable, GroupOk, CleanTraffic, Received;
    var s, done := Run(arrivals).value.slots, Run(arrivals).value.delivered;
    PrefixClean(frames, arrivals, p);
    Extended(frames, arrivals, p);
    forall i | 0 <= i < |s| && OfFrame(s[i], p)
      ensures IsMultipart(p) && p.header.dataLengthFull == s[i][0].header.dataLengthFull
      ensures Received(s[i] + [p]) <= p.header.dataLengthFull
    {
      WholeFrameIsNew(frames, arrivals, p, s[i]);
    }
    t := PlaceOf(s, p);
    HandleFollowsRule(s, p, t);
    var h := Handle(s, p);
    assert (done + h.delivered)[|done|..] == h.delivered;
    if t == |s| {
      CountOne(p);
      assert [] + [p] == [p];
    }
  }

  lemma CountOne(p: Packet)
    ensures Received([p]) == |p.payload|
  {
    assert [p][..0] == [];
  }

  lemma Extended(frames: seq<Frame>, arrivals: seq<Packet>, p: Packet)
    requires CleanTraffic(frames, arrivals + [p]) && Run(arrivals).Some?
    ensures Run(arrivals + [p]).Some? && Acceptable(Run(arrivals).value.slots, p)
    ensures var o := Run(arrivals).value;
            var h := Handle(o.slots, p);
            Run(arrivals + [p]).value == Outcome(h.slots, o.delivered + h.delivered)
  {
    hide Run, Acceptable, Handle;
    RunSucceeds(frames, arrivals + [p]);
    RunStep(arrivals + [p]);
    assert (arrivals + [p])[..|arrivals|] == arrivals;
  }

  /** At every moment every frame has at most one slot, and no slot has its full count. */
  lemma {:induction false} SlotsStayTidy(frames: seq<Frame>, arrivals: seq<Packet>)
    requires CleanTraffic(frames, arrivals)
    ensures Run(arrivals).Some? && Tidy(Run(arrivals).value.slots)
  {
    hide Run, CleanTraffic, Tidy, StepRule;
    if arrivals == [] {
      RunNothing();
      NothingTidy();
    } else {
      var init, p := arrivals[..|arrivals| - 1], arrivals[|arrivals| - 1];
      assert arrivals == init + [p];
      PrefixClean(frames, init, p);
      SlotsStayTidy(frames, init);
      var t := ArrivalFollowsRule(frames, init, p);
      var before, after := Run(init).value, Run(arrivals).value;
      RuleKeepsTidy(before.slots, p, t, after.slots, after.delivered[|before.delivered|..]);
    }
  }

  lemma NothingTidy()
    ensures Tidy([])
  {}

  // ---------------------------------------------------------------- who is handed over, and why

  /** All slots are taken by other frames. */
  predicate Crowded(s: seq<Group>, p: Packet) {
    |s| == SLOT_COUNT && NoneOfFrame(s, p)
  }

  /** The oldest slot besides the one evicted is another frame's, more than two sequence numbers behind. */
  predicate Lagging(s: seq<Group>, p: Packet) {
    var k := if Crowded(s, p) then 1 else 0;
    k < |s| && s[k] != [] && !OfFrame(s[k], p) && s[k][0].header.sequnum + 2 < p.header.sequnum
  }

  /** The groups handed over with `p`, in order: slot 0 if all slots were taken by other frames; the frame of
      `p` if it is complete now; and then the oldest slot if it lags behind that frame. */
  function HandedOver(s: seq<Group>, p: Packet, g: Group): seq<Group> {
    var evicted := if Crowded(s, p) then [s[0]] else [];
    if Received(g) != p.header.dataLengthFull then evicted
    else if Lagging(s, p) then evicted + [g, s[if Crowded(s, p) then 1 else 0]]
    else evicted + [g]
  }

  /** `g` is what has arrived of the frame of `p` since its slot was opened, with `p`. */
  predicate WithPacket(s: seq<Group>, p: Packet, g: Group) {
    if NoneOfFrame(s, p) then g == [p] else exists i :: 0 <= i < |s| && OfFrame(s[i], p) && g == s[i] + [p]
  }

  lemma RuleInWords(s: seq<Group>, p: Packet, t: nat, after: seq<Group>, news: seq<Group>)
    requires Tidy(s) && Goes(s, p, t) && (t == |s| <==> NoneOfFrame(s, p)) && StepRule(s, p, t, after, news)
    ensures WithPacket(s, p, Joined(s, p, t)) && news == HandedOver(s, p, Joined(s, p, t))
  {
    hide Received;
    if t == |s| {
      assert [] + [p] == [p];
    }
  }

  lemma RuleForSlots(s: seq<Group>, p: Packet, t: nat, after: seq<Group>, news: seq<Group>)
    requires Tidy(s) && Goes(s, p, t) && (t == |s| <==> NoneOfFrame(s, p)) && StepRule(s, p, t, after, news)
    ensures var g := Joined(s, p, t);
            && (Received(g) == p.header.dataLengthFull ==> NoneOfFrame(after, p))
            && (Received(g) != p.header.dataLengthFull ==> g in after)
            && (forall h :: h in after && h != g ==> h in s)
            && (forall i :: 0 <= i < |s| && !OfFrame(s[i], p) ==> s[i] in after || s[i] in news)
  {
    hide Received, Tidy;
    RemainingTidy(s, p, t);
    var g, rest := Joined(s, p, t), Remaining(s, t);
    if Received(g) != p.header.dataLengthFull {
      assert after[if t < |s| then t else |rest|] == g;
    }
    forall i | 0 <= i < |s| && !OfFrame(s[i], p)
      ensures s[i] in after || s[i] in news
    {
      if t < |s| {
        assert i != t;
        assert s[i] == rest[if i < t then i else i - 1];
        assert s[t := g][i] == s[i];
      } else if Evicts(s, t) {
        assert i > 0 ==> s[i] == rest[i - 1];
      }
      assert forall j :: 1 <= j < |rest| ==> rest[1..][j - 1] == rest[j];
    }
  }

  /**
    A frame is handed over by the packet that completes it and then is in no slot; an incomplete one stays in
    its slot. Nothing else is handed over, except the oldest slot, to make room or because it lags behind.
    `g` is the frame of `p` as far as it has arrived.
   */
  lemma {:induction false} CompletionExact(frames: seq<Frame>, arrivals: seq<Packet>, p: Packet) returns (g: Group)
    requires CleanTraffic(frames, arrivals + [p])
    ensures Run(arrivals).Some? && Run(arrivals + [p]).Some?
    ensures var before, after := Run(arrivals).value, Run(arrivals + [p]).value;
            var s := before.slots;
            && WithPacket(s, p, g) && Received(g) <= p.header.dataLengthFull
            && after.delivered == before.delivered + HandedOver(s, p, g)
            && (Received(g) == p.header.dataLengthFull ==> NoneOfFrame(after.slots, p))
            && (Received(g) < p.header.dataLengthFull ==> g in after.slots)
            && (forall h :: h in after.slots && h != g ==> h in s)
            && (forall i :: 0 <= i < |s| && !OfFrame(s[i], p) ==> s[i] in after.slots || s[i] in HandedOver(s, p, g))
  {
    hide Run, CleanTraffic, Tidy, StepRule, HandedOver, WithPacket, Received;
    PrefixClean(frames, arrivals, p);
    SlotsStayTidy(frames, arrivals);
    var t := ArrivalFollowsRule(frames, arrivals, p);
    var before, after := Run(arrivals).value, Run(arrivals + [p]).value;
    var news := after.delivered[|before.delivered|..];
    g := Joined(before.slots, p, t);
    RuleInWords(before.slots, p, t, after.slots, news);
    RuleForSlots(before.slots, p, t, after.slots, news);
    assert after.delivered == after.delivered[..|before.delivered|] + news;
  }
}
