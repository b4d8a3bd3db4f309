/**
  From the bytes one sender puts on the wire to the frames the receiver hands over: the packets of successive
  calls of rtp_send_data, as the receiver reads them.
 */
module RtpEndToEnd {
  import opened Words
  import opened Wrappers
  import opened RtpHeader
  import opened Reassembly
  import opened RtpTransfer
  import opened RtpSender

  /** What a sender keeps between calls. */
  datatype Channel = Channel(packetId: byte, ssrc: u32, sequnum: u16, number: u32)

  predicate Proper(jobs: seq<Job>) {
    forall i :: 0 <= i < |jobs| ==> jobs[i].Fits() && jobs[i].data != []
  }

  /** Packets sent for the first frames. */
  function PacketCount(jobs: seq<Job>): nat {
    if jobs == [] then 0 else PacketCount(jobs[..|jobs| - 1]) + PieceCount(|jobs[|jobs| - 1].data|)
  }

  function SequnumAt(ch: Channel, i: nat): u16 { (ch.sequnum + i) % U16_LIMIT }

  /** The frames of successive calls: sequence numbers and packet numbers count up from the sender's. */
  function Sends(ch: Channel, jobs: seq<Job>): (tx: seq<Sent>)
    requires Proper(jobs)
    ensures |tx| == |jobs|
  {
    seq(|jobs|, i requires 0 <= i < |jobs| =>
      Sent(FrameHeader(ch.packetId, ch.ssrc, SequnumAt(ch, i), jobs[i]), jobs[i].data,
           (ch.number + PacketCount(jobs[..i])) % U32_LIMIT))
  }

  /** The bytes successive calls hand to the transport. */
  function Bytes(ch: Channel, jobs: seq<Job>): seq<seq<byte>>
    requires Proper(jobs)
  {
    if jobs == [] then []
    else
      var n := |jobs| - 1;
      var h := FrameHeader(ch.packetId, ch.ssrc, SequnumAt(ch, n), jobs[n]);
      Bytes(ch, jobs[..n]) + WireAll(ch.packetId, Fragments(h, jobs[n].data, (ch.number + PacketCount(jobs[..n])) % U32_LIMIT))
  }

  /** The caller's loop over frames: what `sent` gains is `Bytes`. */
  method SendFrames(s: Sender, jobs: seq<Job>)
    requires Proper(jobs)
    modifies s
    ensures s.sent == old(s.sent) + Bytes(Channel(s.packetId, s.ssrc, old(s.sequnum), old(s.rtpPacketNum)), jobs)
    ensures s.sequnum == (old(s.sequnum) + |jobs|) % U16_LIMIT
    ensures s.rtpPacketNum == (old(s.rtpPacketNum) + PacketCount(jobs)) % U32_LIMIT
  {
    hide WireAll, Fragments, FrameHeader, PieceCount, Stamped, Bytes, PacketCount, SequnumAt;
    ghost var ch := Channel(s.packetId, s.ssrc, s.sequnum, s.rtpPacketNum);
    NoBytes(ch, jobs);
    for i := 0 to |jobs|
      invariant s.sent == old(s.sent) + Bytes(ch, jobs[..i])
      invariant s.sequnum == SequnumAt(ch, i) && s.rtpPacketNum == (ch.number + PacketCount(jobs[..i])) % U32_LIMIT
    {
      BytesNext(ch, jobs, i);
      s.SendData(jobs[i]);
    }
    assert jobs[..|jobs|] == jobs;
    SequnumAfter(ch, |jobs|);
  }

  lemma NoBytes(ch: Channel, jobs: seq<Job>)
    requires Proper(jobs)
    ensures Proper(jobs[..0]) && Bytes(ch, jobs[..0]) == [] && PacketCount(jobs[..0]) == 0 && SequnumAt(ch, 0) == ch.sequnum
  {}

  lemma SequnumAfter(ch: Channel, n: nat)
    ensures SequnumAt(ch, n) == (ch.sequnum + n) % U16_LIMIT
    ensures n > 0 ==> SequnumAt(ch, n) == (SequnumAt(ch, n - 1) + 1) % U16_LIMIT
  {}

  lemma BytesNext(ch: Channel, jobs: seq<Job>, i: nat)
    requires Proper(jobs) && i < |jobs|
    ensures Proper(jobs[..i]) && Proper(jobs[..i + 1])
    ensures var job, number := jobs[i], (ch.number + PacketCount(jobs[..i])) % U32_LIMIT;
            && Bytes(ch, jobs[..i + 1]) == Bytes(ch, jobs[..i]) +
                 WireAll(ch.packetId, Fragments(FrameHeader(ch.packetId, ch.ssrc, SequnumAt(ch, i), job), job.data, number))
            && (ch.number + PacketCount(jobs[..i + 1])) % U32_LIMIT == (number + PieceCount(|job.data|)) % U32_LIMIT
            && SequnumAt(ch, i + 1) == (SequnumAt(ch, i) + 1) % U16_LIMIT
  {
    hide WireAll, Fragments, FrameHeader, PieceCount;
    assert jobs[..i + 1][..i] == jobs[..i];
    Counting(ch.number, PacketCount(jobs[..i]), PieceCount(|jobs[i].data|));
    SequnumAfter(ch, i + 1);
  }

  lemma Counting(a: nat, b: nat, c: nat)
    ensures ((a + b) % U32_LIMIT + c) % U32_LIMIT == (a + (b + c)) % U32_LIMIT
  {}

  // ---------------------------------------------------------------- packets as the receiver reads them

  lemma SendsOk(ch: Channel, jobs: seq<Job>)
    requires Proper(jobs)
    ensures AllSent(Sends(ch, jobs))
  {}

  lemma SendsPrefix(ch: Channel, jobs: seq<Job>, n: nat)
    requires Proper(jobs) && n <= |jobs|
    ensures Proper(jobs[..n]) && Sends(ch, jobs[..n]) == Sends(ch, jobs)[..n]
  {
    forall i | 0 <= i < n
      ensures Sends(ch, jobs[..n])[i] == Sends(ch, jobs)[i]
    {
      assert jobs[..n][..i] == jobs[..i];
    }
  }

  /** The bytes are the packets of all frames, in order. */
  lemma {:induction false} BytesAreWires(ch: Channel, jobs: seq<Job>)
    requires Proper(jobs)
    ensures AllSent(Sends(ch, jobs)) && Bytes(ch, jobs) == WireAll(ch.packetId, InOrder(Sends(ch, jobs)))
  {
    hide FrameHeader, Fragments, PieceCount, WireAll;
    SendsOk(ch, jobs);
    if jobs == [] {
      WireNone(ch.packetId);
    } else {
      var n := |jobs| - 1;
      SendsPrefix(ch, jobs, n);
      BytesAreWires(ch, jobs[..n]);
      WireConcat(ch.packetId, InOrder(Sends(ch, jobs[..n])), Sends(ch, jobs)[n].Pieces());
    }
  }

  lemma WireConcat(packetId: byte, a: seq<Packet>, b: seq<Packet>)
    ensures WireAll(packetId, a + b) == WireAll(packetId, a) + WireAll(packetId, b)
  {
    hide Wire;
  }

  predicate Readable(raws: seq<seq<byte>>) {
    forall i :: 0 <= i < |raws| ==> |raws[i]| > HEADER_SIZE
  }

  function Read(raws: seq<seq<byte>>): (ps: seq<Packet>)
    requires Readable(raws)
    ensures |ps| == |raws|
  {
    seq(|raws|, i requires 0 <= i < |raws| => FromWire(raws[i]))
  }

  lemma ReadWires(packetId: byte, ps: seq<Packet>)
    ensures Readable(WireAll(packetId, ps)) && Read(WireAll(packetId, ps)) == ps
  {
    hide Pack, Unpack;
    forall i | 0 <= i < |ps|
      ensures |WireAll(packetId, ps)[i]| > HEADER_SIZE && FromWire(WireAll(packetId, ps)[i]) == ps[i]
    {
      WireRoundTrip(packetId, ps[i]);
    }
  }

  // ---------------------------------------------------------------- which packet is which

  /** Packets of the frames before frame `f`. */
  function Before(tx: seq<Sent>, f: nat): nat
    requires AllSent(tx) && f <= |tx|
  {
    if f == 0 then 0 else Before(tx, f - 1) + |tx[f - 1].Pieces()|
  }

  lemma {:induction false} InOrderPrefix(tx: seq<Sent>, f: nat)
    requires AllSent(tx) && f <= |tx|
    ensures AllSent(tx[..f]) && |InOrder(tx[..f])| == Before(tx, f) && InOrder(tx[..f]) <= InOrder(tx)
    decreases |tx| - f, f
  {
    hide Fragments, PieceCount;
    assert AllSent(tx[..f]);
    CountBefore(tx, f);
    if f < |tx| {
      InOrderPrefix(tx, f + 1);
      assert tx[..f + 1][..f] == tx[..f];
    } else {
      assert tx[..f] == tx;
    }
  }

  lemma {:induction false} CountBefore(tx: seq<Sent>, f: nat)
    requires AllSent(tx) && f <= |tx|
    ensures AllSent(tx[..f]) && |InOrder(tx[..f])| == Before(tx, f)
    decreases f
  {
    hide Fragments, PieceCount;
    if f > 0 {
      CountBefore(tx, f - 1);
      assert tx[..f][..f - 1] == tx[..f - 1];
    }
  }

  /** Packet number `n` of all that were sent is one piece of one frame. */
  lemma {:induction false} Locate(tx: seq<Sent>, f: nat, n: nat) returns (p: Pick)
    requires AllSent(tx) && f <= |tx| && n < Before(tx, f)
    ensures p.frame < f && PickOk(tx, p) && n == Before(tx, p.frame) + p.piece
    decreases f
  {
    hide Fragments, PieceCount;
    if n < Before(tx, f - 1) {
      p := Locate(tx, f - 1, n);
    } else {
      p := Pick(f - 1, n - Before(tx, f - 1));
    }
  }

  lemma PickIsPacket(tx: seq<Sent>, p: Pick)
    requires AllSent(tx) && PickOk(tx, p)
    ensures var n := Before(tx, p.frame) + p.piece;
            n < |InOrder(tx)| && InOrder(tx)[n] == tx[p.frame].Pieces()[p.piece]
  {
    hide Fragments, PieceCount, InOrder;
    InOrderPrefix(tx, p.frame);
    InOrderPrefix(tx, p.frame + 1);
    assert tx[..p.frame + 1][..p.frame] == tx[..p.frame];
    LastFrame(tx[..p.frame + 1]);
  }

  lemma LastFrame(tx: seq<Sent>)
    requires AllSent(tx) && tx != []
    ensures AllSent(tx[..|tx| - 1]) && InOrder(tx) == InOrder(tx[..|tx| - 1]) + tx[|tx| - 1].Pieces()
  {}

  // ---------------------------------------------------------------- what arrives

  /** Frames whose sequence numbers coincide, 2^16 calls apart, have different time stamps. */
  predicate ToldApart(jobs: seq<Job>) {
    forall i, j :: 0 <= i < j < |jobs| && (j - i) % U16_LIMIT == 0 ==>
      jobs[i].recordTime % U32_LIMIT != jobs[j].recordTime % U32_LIMIT
  }

  /** Up to 2^16 frames need no such promise. */
  lemma FewAreToldApart(jobs: seq<Job>)
    requires |jobs| <= U16_LIMIT
    ensures ToldApart(jobs)
  {}

  function FrameOf(ch: Channel, jobs: seq<Job>, i: nat): Frame
    requires i < |jobs|
  {
    Frame(SequnumAt(ch, i), jobs[i].recordTime % U32_LIMIT, jobs[i].data)
  }

  lemma FramesDiffer(ch: Channel, jobs: seq<Job>)
    requires Proper(jobs) && ToldApart(jobs)
    ensures DistinctFrames(Frames(Sends(ch, jobs)))
    ensures forall i :: 0 <= i < |jobs| ==> Sends(ch, jobs)[i].AsFrame() == FrameOf(ch, jobs, i)
  {
    forall i, j | 0 <= i < j < |jobs|
      ensures SequnumAt(ch, i) != SequnumAt(ch, j) || jobs[i].recordTime % U32_LIMIT != jobs[j].recordTime % U32_LIMIT
    {
      if SequnumAt(ch, i) == SequnumAt(ch, j) {
        SameRemainder(ch.sequnum + i, ch.sequnum + j);
      }
    }
  }

  lemma SameRemainder(a: nat, b: nat)
    requires a <= b && a % U16_LIMIT == b % U16_LIMIT
    ensures (b - a) % U16_LIMIT == 0
  {}

  /** Some of `n` packets, in some order, none twice. */
  predicate Selection(picks: seq<nat>, n: nat) {
    (forall k :: 0 <= k < |picks| ==> picks[k] < n) && forall j, k :: 0 <= j < k < |picks| ==> picks[j] != picks[k]
  }

  function Selected(raws: seq<seq<byte>>, picks: seq<nat>): (r: seq<seq<byte>>)
    requires Selection(picks, |raws|)
    ensures |r| == |picks|
  {
    seq(|picks|, k requires 0 <= k < |picks| => raws[picks[k]])
  }

  lemma {:induction false} LocateAll(tx: seq<Sent>, picks: seq<nat>) returns (ps: seq<Pick>)
    requires AllSent(tx) && forall k :: 0 <= k < |picks| ==> picks[k] < Before(tx, |tx|)
    ensures |ps| == |picks|
    ensures forall k :: 0 <= k < |ps| ==> PickOk(tx, ps[k]) && Before(tx, ps[k].frame) + ps[k].piece == picks[k]
  {
    hide Before, PickOk;
    if picks == [] {
      ps := [];
    } else {
      var rest := LocateAll(tx, picks[1..]);
      var p := Locate(tx, |tx|, picks[0]);
      ps := [p] + rest;
    }
  }

  lemma SelectionArrives(ch: Channel, jobs: seq<Job>, picks: seq<nat>) returns (ps: seq<Pick>)
    requires Proper(jobs) && Selection(picks, |Bytes(ch, jobs)|)
    ensures var tx, raws := Sends(ch, jobs), Selected(Bytes(ch, jobs), picks);
            AllSent(tx) && Arrives(tx, ps) && Readable(raws) && Read(raws) == Arrivals(tx, ps)
  {
    hide Bytes, Sends, InOrder, WireAll, FromWire, Fragments;
    var tx := Sends(ch, jobs);
    BytesAreWires(ch, jobs);
    var all := InOrder(tx);
    ReadWires(ch.packetId, all);
    assert tx[..|tx|] == tx;
    InOrderPrefix(tx, |tx|);
    WireCount(ch.packetId, all);
    ps := LocateAll(tx, picks);
    var raws := Selected(Bytes(ch, jobs), picks);
    forall k | 0 <= k < |picks|
      ensures |raws[k]| > HEADER_SIZE && FromWire(raws[k]) == tx[ps[k].frame].Pieces()[ps[k].piece]
    {
      PickIsPacket(tx, ps[k]);
      assert FromWire(WireAll(ch.packetId, all)[picks[k]]) == Read(WireAll(ch.packetId, all))[picks[k]];
    }
    assert Read(raws) == Arrivals(tx, ps);
  }

  lemma WireCount(packetId: byte, ps: seq<Packet>)
    ensures |WireAll(packetId, ps)| == |ps|
  {}

  predicate FaithfulToSome(ch: Channel, jobs: seq<Job>, g: Group) {
    GroupOk(g) && exists i :: 0 <= i < |jobs| && Faithful(g, FrameOf(ch, jobs, i))
  }

  /** From a sender in any state: of the packets of successive calls, with any frames, any selection in any
      order makes the receiver hand over only messages faithful to one of those frames. */
  lemma {:induction false} LossyWire(ch: Channel, jobs: seq<Job>, picks: seq<nat>)
    requires Proper(jobs) && ToldApart(jobs) && Selection(picks, |Bytes(ch, jobs)|)
    ensures var raws := Selected(Bytes(ch, jobs), picks);
            Readable(raws) && Run(Read(raws)).Some? &&
            forall g :: g in Run(Read(raws)).value.delivered ==> FaithfulToSome(ch, jobs, g)
  {
    hide Run, Faithful, GroupOk, PiecesOf, Bytes, Sends, Arrivals, Arrives, FrameOf;
    var tx := Sends(ch, jobs);
    var ps := SelectionArrives(ch, jobs, picks);
    FramesDiffer(ch, jobs);
    LossyTransfer(tx, ps);
    forall g | g in Run(Arrivals(tx, ps)).value.delivered
      ensures FaithfulToSome(ch, jobs, g)
    {
      var i :| 0 <= i < |tx| && PiecesOf(g, tx[i].AsFrame()) && Faithful(g, tx[i].AsFrame());
      assert Faithful(g, FrameOf(ch, jobs, i));
    }
  }

  /** From a sender in any state: all packets of successive calls, in order, give back exactly the frames. */
  lemma {:induction false} LosslessWire(ch: Channel, jobs: seq<Job>)
    requires Proper(jobs)
    ensures var raws := Bytes(ch, jobs);
            Readable(raws) && Run(Read(raws)).Some? &&
            var r := Run(Read(raws)).value;
            && r.slots == [] && |r.delivered| == |jobs|
            && forall i :: 0 <= i < |jobs| ==> GroupOk(r.delivered[i]) && Restored(MessageOf(r.delivered[i]), ch, jobs, i)
  {
    hide Run, GroupOk, Bytes, InOrder, MessageOf, Fragments, Read;
    var tx := Sends(ch, jobs);
    BytesAreWires(ch, jobs);
    ReadWires(ch.packetId, InOrder(tx));
    LosslessTransfer(tx);
    forall i | 0 <= i < |jobs|
      ensures GroupOk(Groups(tx)[i]) && Restored(MessageOf(Groups(tx)[i]), ch, jobs, i)
    {
      assert MessagesOf(Groups(tx))[i] == MessageOf(Groups(tx)[i]);
      FirstHeader(ch, jobs, i);
    }
  }

  /** The message the callback gets for frame `i`. */
  predicate Restored(m: Delivery, ch: Channel, jobs: seq<Job>, i: nat)
    requires i < |jobs|
  {
    var job := jobs[i];
    && m.data == job.data && m.header.dataLengthFull == m.header.receivedLengthFull == |job.data|
    && m.header.sequnum == SequnumAt(ch, i) && m.header.timestamp == job.recordTime % U32_LIMIT
    && m.header.ssrc == ch.ssrc && m.header.flags == job.flags && m.header.frameRecordTimestamp == job.recordTime
    && m.header.fragmentNum == job.fragmentNum && m.header.encoderBitRateUsed == job.bitRate
    && m.header.clientVideoCaptureDelayMs == job.delay
  }

  lemma FirstHeader(ch: Channel, jobs: seq<Job>, i: nat)
    requires Proper(jobs) && i < |jobs|
    ensures var s := Sends(ch, jobs)[i];
            s.Ok() && GroupOk(s.Pieces()) && Restored(MessageOf(s.Pieces()), ch, jobs, i)
  {
    var s := Sends(ch, jobs)[i];
    WholeFrame(s);
    PrefixReceived(s, |s.Pieces()|);
    CountRange(|s.data|, 0);
    CountRange(|s.data|, |s.Pieces()| - 1);
    hide GroupOk, Received;
    assert s.Pieces()[..|s.Pieces()|] == s.Pieces();
  }
}
