/** The sending side of toxav/rtp.c: one frame becomes one or more lossy packets. */
module RtpSender {
  import opened Words
  import opened RtpHeader
  import opened Reassembly
  import opened RtpTransfer
  import opened Wrappers

  const MAX_CRYPTO_DATA_SIZE: nat := 1400 - (1 + 2 + 4 + 4 + 16)
  /** Payload bytes of a full packet: packet id and header take the rest. */
  const PIECE: nat := MAX_CRYPTO_DATA_SIZE - (HEADER_SIZE + 1)

  /** Packet as given to the lossy transport: packet id, header, payload. */
  function Wire(packetId: byte, p: Packet): seq<byte> {
    [packetId] + Pack(p.header) + p.payload
  }

  function WireAll(packetId: byte, ps: seq<Packet>): seq<seq<byte>> {
    seq(|ps|, i requires 0 <= i < |ps| => Wire(packetId, ps[i]))
  }

  /** What handle_rtp_packet makes of a packet: strip the id, unpack the header. */
  function FromWire(raw: seq<byte>): Packet
    requires |raw| >= 1 + HEADER_SIZE
  {
    Packet(Unpack(raw[1..]), raw[1 + HEADER_SIZE..])
  }

  lemma WireRoundTrip(packetId: byte, p: Packet)
    ensures FromWire(Wire(packetId, p)) == p
  {
    hide Pack, Unpack;
    var raw := Wire(packetId, p);
    assert raw[1..] == Pack(p.header) + p.payload;
    assert raw[1 + HEADER_SIZE..] == p.payload;
    HeaderRoundTrip(p.header, p.payload);
  }

  function PieceCount(length: nat): nat {
    if length == 0 then 1 else (length + PIECE - 1) / PIECE
  }

  function Min(a: nat, b: nat): nat { if a < b then a else b }

  function WithOffset(h: RTPHeader, offset: u32): RTPHeader {
    h.(offsetFull := offset, offsetLower := offset % U16_LIMIT)
  }

  function Numbered(h: RTPHeader, number: u32): RTPHeader {
    h.(rtpPacketNumber := number)
  }

  /** Piece number `k`: bytes [k * PIECE, (k + 1) * PIECE) of the frame, with matching offsets. */
  function Fragment(h: RTPHeader, data: seq<byte>, number: u32, k: nat): Packet
    requires k < PieceCount(|data|) && |data| < U32_LIMIT
  {
    Packet(Numbered(WithOffset(h, k * PIECE), (number + k) % U32_LIMIT),
           data[k * PIECE..Min((k + 1) * PIECE, |data|)])
  }

  function Fragments(h: RTPHeader, data: seq<byte>, number: u32): (ps: seq<Packet>)
    requires |data| < U32_LIMIT
    ensures |ps| == PieceCount(|data|)
  {
    seq(PieceCount(|data|), k requires 0 <= k < PieceCount(|data|) => Fragment(h, data, number, k))
  }

  lemma PieceIndex(length: nat, k: nat)
    ensures k * PIECE < length ==> k < PieceCount(length)
    ensures 0 < length - k * PIECE <= PIECE ==> k == PieceCount(length) - 1
  {}

  lemma FragmentAt(h: RTPHeader, data: seq<byte>, number: u32, k: nat)
    requires |data| < U32_LIMIT && k < PieceCount(|data|) && k * PIECE < |data|
    ensures Fragments(h, data, number)[k] ==
            Packet(Numbered(WithOffset(h, k * PIECE), (number + k) % U32_LIMIT), data[k * PIECE..Min((k + 1) * PIECE, |data|)])
  {}

  lemma OffsetAgain(h: RTPHeader, a: u32, b: u32)
    ensures WithOffset(WithOffset(h, a), b) == WithOffset(h, b)
    ensures h.offsetFull == 0 && h.offsetLower == 0 ==> WithOffset(h, 0) == h
  {}

  lemma NextNumber(number: nat, k: nat)
    ensures ((number + k) % U32_LIMIT + 1) % U32_LIMIT == (number + k + 1) % U32_LIMIT
  {}

  lemma WireNone(packetId: byte)
    ensures WireAll(packetId, []) == []
  {}

  lemma WireSnoc(packetId: byte, ps: seq<Packet>, k: nat)
    requires k < |ps|
    ensures WireAll(packetId, ps[..k + 1]) == WireAll(packetId, ps[..k]) + [Wire(packetId, ps[k])]
  {}

  /** What the caller gives for one frame. */
  datatype Job = Job(data: seq<byte>, recordTime: u64, flags: u64, fragmentNum: i32, bitRate: u32, delay: u32) {
    /** The sum the source computes with the length fits 32 bits. */
    predicate Fits() { |data| + HEADER_SIZE + 1 < U32_LIMIT }
  }

  /** Header of a frame before it is cut into pieces. */
  function FrameHeader(packetId: byte, ssrc: u32, sequnum: u16, job: Job): RTPHeader
    requires job.Fits()
  {
    var length := |job.data|;
    RTPHeader(2, 0, 0, 0, 0, packetId as int % 128,
              sequnum, job.recordTime % U32_LIMIT, ssrc, job.flags,
              0, length, 0,
              job.recordTime, job.fragmentNum, 0, job.bitRate, job.delay, 0,
              0, if length > 0xFFFF then 0xFFFF else length)
  }

  /** What every packet of a frame carries, whichever piece it is. */
  predicate Stamped(raw: seq<byte>, packetId: byte, ssrc: u32, sequnum: u16, number: u32, job: Job) {
    && |raw| > HEADER_SIZE && raw[0] == packetId
    && var h, payload := Unpack(raw[1..]), raw[1 + HEADER_SIZE..];
       && h.dataLengthFull == |job.data| && h.receivedLengthFull == 0
       && h.dataLengthLower == Min(|job.data|, 0xFFFF) && h.offsetLower == h.offsetFull % U16_LIMIT
       && h.rtpPacketNumber == number && h.sequnum == sequnum && h.timestamp == job.recordTime % U32_LIMIT && h.ssrc == ssrc
       && h.frameRecordTimestamp == job.recordTime && h.flags == job.flags && h.fragmentNum == job.fragmentNum
       && h.encoderBitRateUsed == job.bitRate && h.clientVideoCaptureDelayMs == job.delay && h.realFrameNum == 0
       && h.ve == 2 && h.pe == h.xe == h.cc == h.ma == 0 && h.pt == packetId as int % 128
       && h.offsetFull + |payload| <= |job.data| && payload == job.data[h.offsetFull..h.offsetFull + |payload|]
  }

  lemma FragmentStamped(packetId: byte, ssrc: u32, sequnum: u16, job: Job, number: u32, k: nat)
    requires job.Fits() && k < PieceCount(|job.data|)
    ensures Stamped(Wire(packetId, Fragments(FrameHeader(packetId, ssrc, sequnum, job), job.data, number)[k]),
                    packetId, ssrc, sequnum, (number + k) % U32_LIMIT, job)
  {
    hide Pack, Unpack;
    var p := Fragments(FrameHeader(packetId, ssrc, sequnum, job), job.data, number)[k];
    var raw := Wire(packetId, p);
    WireRoundTrip(packetId, p);
    assert raw[1 + HEADER_SIZE..] == p.payload;
    if job.data != [] {
      CountRange(|job.data|, k);
    }
  }

  class Sender {
    const packetId: byte
    const ssrc: u32
    var sequnum: u16
    var rtpPacketNum: u32
    /** Packets handed to the lossy transport. */
    var sent: seq<seq<byte>>

    constructor (packetId: byte, ssrc: u32)
      ensures this.packetId == packetId && this.ssrc == ssrc
      ensures sequnum == 0 && rtpPacketNum == 0 && sent == []
    {
      this.packetId, this.ssrc := packetId, ssrc;
      sequnum, rtpPacketNum, sent := 0, 0, [];
    }

    method SendPacket(header: RTPHeader, payload: seq<byte>)
      modifies `rtpPacketNum, `sent
      ensures sent == old(sent) + [Wire(packetId, Packet(Numbered(header, old(rtpPacketNum)), payload))]
      ensures rtpPacketNum == (old(rtpPacketNum) + 1) % U32_LIMIT
    {
      sent := sent + [[packetId] + Pack(Numbered(header, rtpPacketNum)) + payload];
      rtpPacketNum := (rtpPacketNum + 1) % U32_LIMIT;
    }

    /** The loop that cuts a frame too long for one packet, and its remainder. */
    method SendPieces(h: RTPHeader, data: seq<byte>)
      requires |data| + HEADER_SIZE + 1 >= MAX_CRYPTO_DATA_SIZE && |data| + HEADER_SIZE + 1 < U32_LIMIT
      requires h.offsetFull == 0 && h.offsetLower == 0
      modifies `rtpPacketNum, `sent
      ensures sent == old(sent) + WireAll(packetId, Fragments(h, data, old(rtpPacketNum)))
      ensures rtpPacketNum == (old(rtpPacketNum) + PieceCount(|data|)) % U32_LIMIT
    {
      hide Wire, WireAll, Fragments, Fragment, PieceCount, WithOffset, Numbered;
      ghost var num, fs := rtpPacketNum, Fragments(h, data, rtpPacketNum);
      var length, header, offset := |data|, h, 0;
      ghost var k := 0;
      PieceIndex(length, 0);
      OffsetAgain(h, 0, 0);
      WireNone(packetId);
      while (length - offset) + HEADER_SIZE + 1 > MAX_CRYPTO_DATA_SIZE
        invariant offset == k * PIECE < length
        invariant k < PieceCount(length)
        invariant header == WithOffset(h, offset)
        invariant rtpPacketNum == (num + k) % U32_LIMIT
        invariant sent == old(sent) + WireAll(packetId, fs[..k])
      {
        FragmentAt(h, data, num, k);
        SendPacket(header, data[offset..offset + PIECE]);
        WireSnoc(packetId, fs, k);
        NextNumber(num, k);
        OffsetAgain(h, offset, offset + PIECE);
        offset := offset + PIECE;
        header := WithOffset(header, offset);
        k := k + 1;
        PieceIndex(length, k);
      }
      var piece := length - offset;
      PieceIndex(length, k);
      if piece != 0 {
        FragmentAt(h, data, num, k);
        SendPacket(header, data[offset..offset + piece]);
        WireSnoc(packetId, fs, k);
        NextNumber(num, k);
        assert fs[..k + 1] == fs;
      }
    }

    /** rtp_send_data: what goes out is exactly the fragments of the frame, in order, and every packet
        carries what the receiver needs to put it back. */
    method SendData(job: Job)
      requires job.Fits()
      modifies this
      ensures sent == old(sent) + WireAll(packetId, Fragments(FrameHeader(packetId, ssrc, old(sequnum), job), job.data, old(rtpPacketNum)))
      ensures forall i :: |old(sent)| <= i < |sent| ==>
                Stamped(sent[i], packetId, ssrc, old(sequnum), (old(rtpPacketNum) + i - |old(sent)|) % U32_LIMIT, job)
      ensures sequnum == (old(sequnum) + 1) % U16_LIMIT
      ensures rtpPacketNum == (old(rtpPacketNum) + PieceCount(|job.data|)) % U32_LIMIT
    {
      hide Wire, Pack, Stamped;
      var data, header := job.data, FrameHeader(packetId, ssrc, sequnum, job);
      ghost var number := rtpPacketNum;
      if MAX_CRYPTO_DATA_SIZE > |data| + HEADER_SIZE + 1 {
        assert PieceCount(|data|) == 1;
        assert data[0..|data|] == data;
        SendPacket(header, data);
      } else {
        SendPieces(header, data);
      }
      forall i | |old(sent)| <= i < |sent|
        ensures Stamped(sent[i], packetId, ssrc, sequnum, (number + i - |old(sent)|) % U32_LIMIT, job)
      {
        FragmentStamped(packetId, ssrc, sequnum, job, number, i - |old(sent)|);
      }
      sequnum := (sequnum + 1) % U16_LIMIT;
    }
  }

  // ---------------------------------------------------------------- the pieces tile the frame

  /** A frame as it was sent: header before cutting, bytes, number of its first packet. */
  datatype Sent = Sent(h: RTPHeader, data: seq<byte>, number: u32) {
    predicate Ok() { 0 < |data| < U32_LIMIT && h.dataLengthFull == |data| }

    function Pieces(): (ps: seq<Packet>)
      requires Ok()
      ensures |ps| == PieceCount(|data|)
    {
      Fragments(h, data, number)
    }

    function AsFrame(): Frame { Frame(h.sequnum, h.timestamp, data) }
  }

  /** Every piece is a non-empty part of the frame that fits one packet; together they lie end to
      end from 0 to the length of the frame. */
  lemma {:induction false} PiecesTile(s: Sent)
    requires s.Ok()
    ensures var ps, n := s.Pieces(), |s.data|;
            && |ps| > 0 && ps[0].Start() == 0 && ps[|ps| - 1].End() == n
            && (forall k :: 0 <= k < |ps| ==> IsPiece(ps[k], s.AsFrame()) && |ps[k].payload| <= PIECE)
            && (forall k {:trigger ps[k].End()} :: 0 <= k < |ps| - 1 ==> ps[k].End() == ps[k + 1].Start())
  {
    var ps := s.Pieces();
    forall k | 0 <= k < |ps|
      ensures IsPiece(ps[k], s.AsFrame()) && |ps[k].payload| <= PIECE
      ensures ps[k].Start() == k * PIECE && ps[k].End() == Min((k + 1) * PIECE, |s.data|)
    {
      CountRange(|s.data|, k);
      FragmentAt(s.h, s.data, s.number, k);
    }
    CountRange(|s.data|, |ps| - 1);
    forall k {:trigger ps[k].End()} | 0 <= k < |ps| - 1
      ensures ps[k].End() == ps[k + 1].Start()
    {
      CountRange(|s.data|, k + 1);
    }
  }

  lemma CountRange(length: nat, k: nat)
    requires length > 0
    ensures PieceCount(length) > 0
    ensures k < PieceCount(length) <==> k * PIECE < length
    ensures k == PieceCount(length) - 1 ==> length <= (k + 1) * PIECE
  {}

  /** No packet exceeds what the transport takes. */
  lemma {:induction false} PacketSize(s: Sent, packetId: byte, k: nat)
    requires s.Ok() && k < |s.Pieces()|
    ensures |Wire(packetId, s.Pieces()[k])| <= MAX_CRYPTO_DATA_SIZE
  {
    PiecesTile(s);
  }

  lemma PieceStart(s: Sent, k: nat)
    requires s.Ok() && k < |s.Pieces()|
    ensures s.Pieces()[k].Start() == k * PIECE && s.Pieces()[k].End() == Min((k + 1) * PIECE, |s.data|)
  {
    CountRange(|s.data|, k);
    FragmentAt(s.h, s.data, s.number, k);
  }

  lemma PiecesDisjoint(s: Sent, j: nat, k: nat)
    requires s.Ok() && j < |s.Pieces()| && k < |s.Pieces()| && j != k
    ensures Disjoint(s.Pieces()[j], s.Pieces()[k])
  {
    hide Sent.Pieces;
    PieceStart(s, j);
    PieceStart(s, k);
    if j < k { NextStart(j, k); } else { NextStart(k, j); }
  }

  lemma NextStart(j: nat, k: nat)
    requires j < k
    ensures (j + 1) * PIECE <= k * PIECE
  {}

  // ---------------------------------------------------------------- end to end, lossy

  /** Which piece of which frame. */
  datatype Pick = Pick(frame: nat, piece: nat)

  predicate AllSent(tx: seq<Sent>) {
    forall i :: 0 <= i < |tx| ==> tx[i].Ok()
  }

  predicate PickOk(tx: seq<Sent>, p: Pick)
    requires AllSent(tx)
  {
    p.frame < |tx| && p.piece < |tx[p.frame].Pieces()|
  }

  /** Packets that get through, in order of arrival: any of those sent, none twice. */
  predicate Arrives(tx: seq<Sent>, picks: seq<Pick>)
    requires AllSent(tx)
  {
    && (forall k :: 0 <= k < |picks| ==> PickOk(tx, picks[k]))
    && (forall j, k :: 0 <= j < k < |picks| ==> picks[j] != picks[k])
  }

  function Arrivals(tx: seq<Sent>, picks: seq<Pick>): (ps: seq<Packet>)
    requires AllSent(tx) && Arrives(tx, picks)
    ensures |ps| == |picks|
  {
    seq(|picks|, k requires 0 <= k < |picks| => assert PickOk(tx, picks[k]); tx[picks[k].frame].Pieces()[picks[k].piece])
  }

  function Frames(tx: seq<Sent>): (fs: seq<Frame>)
    ensures |fs| == |tx|
  {
    seq(|tx|, i requires 0 <= i < |tx| => tx[i].AsFrame())
  }

  lemma {:induction false} ArrivalsAreTraffic(tx: seq<Sent>, picks: seq<Pick>)
    requires AllSent(tx) && Arrives(tx, picks) && DistinctFrames(Frames(tx))
    ensures Traffic(Frames(tx), Arrivals(tx, picks)) && NoOverlap(Arrivals(tx, picks))
  {
    var fs, ps := Frames(tx), Arrivals(tx, picks);
    forall k | 0 <= k < |ps|
      ensures PickOk(tx, picks[k]) && IsPiece(ps[k], fs[picks[k].frame])
      ensures PieceOfSome(fs, ps[k]) && |ps[k].payload| < U16_LIMIT
    {
      assert PickOk(tx, picks[k]);
      PiecesTile(tx[picks[k].frame]);
    }
    forall j, k | 0 <= j < k < |ps| && SameFrame(ps[j].header, ps[k].header)
      ensures Disjoint(ps[j], ps[k])
    {
      assert IsPiece(ps[j], fs[picks[j].frame]) && IsPiece(ps[k], fs[picks[k].frame]);
      assert picks[j].frame == picks[k].frame;
      PiecesDisjoint(tx[picks[j].frame], picks[j].piece, picks[k].piece);
    }
  }

  /** End to end: whatever subset of the packets of distinct frames arrives, in whatever order,
      the receiver never fails and each message it delivers is faithful to a frame that was sent. */
  lemma {:induction false} LossyTransfer(tx: seq<Sent>, picks: seq<Pick>)
    requires AllSent(tx) && Arrives(tx, picks) && DistinctFrames(Frames(tx))
    ensures var r := Run(Arrivals(tx, picks));
            r.Some? && forall g :: g in r.value.delivered ==>
              GroupOk(g) && exists i :: 0 <= i < |tx| && PiecesOf(g, tx[i].AsFrame()) && Faithful(g, tx[i].AsFrame())
  {
    hide Run, Faithful, GroupOk, PiecesOf, Traffic, NoOverlap, Arrivals;
    ArrivalsAreTraffic(tx, picks);
    DeliveredFaithfully(Frames(tx), Arrivals(tx, picks));
    forall g | g in Run(Arrivals(tx, picks)).value.delivered
      ensures GroupOk(g) && exists i :: 0 <= i < |tx| && PiecesOf(g, tx[i].AsFrame()) && Faithful(g, tx[i].AsFrame())
    {
      var i :| 0 <= i < |tx| && PiecesOf(g, Frames(tx)[i]) && Faithful(g, Frames(tx)[i]);
      assert Frames(tx)[i] == tx[i].AsFrame();
    }
  }

  // ---------------------------------------------------------------- end to end, lossless

  /** All packets of all frames, in the order they are sent. */
  function InOrder(tx: seq<Sent>): seq<Packet>
    requires AllSent(tx)
  {
    if tx == [] then [] else InOrder(tx[..|tx| - 1]) + tx[|tx| - 1].Pieces()
  }

  function Groups(tx: seq<Sent>): (gs: seq<Group>)
    requires AllSent(tx)
    ensures |gs| == |tx|
  {
    seq(|tx|, i requires 0 <= i < |tx| => tx[i].Pieces())
  }

  /** The first `j` pieces add up to the offset where piece `j` starts. */
  lemma {:induction false} PrefixReceived(s: Sent, j: nat)
    requires s.Ok() && j <= |s.Pieces()|
    ensures Received(s.Pieces()[..j]) == Min(j * PIECE, |s.data|)
  {
    var ps := s.Pieces();
    if j > 0 {
      PrefixReceived(s, j - 1);
      PieceStart(s, j - 1);
      CountRange(|s.data|, j - 1);
      assert ps[..j][..j - 1] == ps[..j - 1];
    }
  }

  lemma PrefixOk(s: Sent, j: nat)
    requires s.Ok() && 0 < j <= |s.Pieces()|
    ensures GroupOk(s.Pieces()[..j])
  {
    hide Fragments, Received, GroupOk;
    PiecesTile(s);
    PrefixReceived(s, j);
    hide Sent.Pieces;
    assert forall i :: 0 <= i < j ==> IsPiece(s.Pieces()[..j][i], s.AsFrame());
    PiecesAreOk(s.Pieces()[..j], s.AsFrame());
  }

  lemma PiecesAreOk(g: Group, f: Frame)
    requires g != [] && Received(g) < U32_LIMIT && PiecesOf(g, f)
    ensures GroupOk(g)
  {
    hide Received;
  }

  /** What makes piece `j` fit the pieces before it. */
  lemma {:induction false} PieceFacts(s: Sent, j: nat)
    requires s.Ok() && j < |s.Pieces()|
    ensures var ps := s.Pieces();
            && Sane(ps[j]) && 0 < |ps[j].payload| < U16_LIMIT && ps[j].End() <= ps[j].header.dataLengthFull
            && ps[j].header.dataLengthFull == |s.data|
            && (|ps| > 1 <==> IsMultipart(ps[j]))
            && Received(ps[..j]) + |ps[j].payload| == Min((j + 1) * PIECE, |s.data|)
            && (j + 1 == |ps| <==> Min((j + 1) * PIECE, |s.data|) == |s.data|)
            && (j > 0 ==> GroupOk(ps[..j]) && Extends(ps[..j], ps[j]))
  {
    PiecesTile(s);
    PrefixReceived(s, j);
    PieceStart(s, j);
    CountRange(|s.data|, j);
    CountRange(|s.data|, j + 1);
    CountRange(|s.data|, 1);
    hide Fragments, Received, GroupOk;
    assert IsPiece(s.Pieces()[j], s.AsFrame()) && IsPiece(s.Pieces()[0], s.AsFrame());
    if j > 0 {
      PrefixOk(s, j);
    }
  }

  /** Piece `j` after those before it goes to slot 0; the last one completes the frame. */
  predicate StepInOrder(ps: seq<Packet>, j: nat)
    requires j < |ps|
  {
    var slots := if j == 0 then [] else [ps[..j]];
    && SlotsOk(slots) && Acceptable(slots, ps[j])
    && Handle(slots, ps[j]) == if j + 1 < |ps| then Outcome([ps[..j + 1]], []) else Outcome([], [ps])
  }

  lemma PieceInOrder(s: Sent, j: nat)
    requires s.Ok() && j < |s.Pieces()|
    ensures StepInOrder(s.Pieces(), j)
  {
    var ps := s.Pieces();
    PieceFacts(s, j);
    hide Fragments, Received, GroupOk, Handle, Acceptable, SlotsOk, PieceCount, Sane, Extends;
    assert ps[..j] + [ps[j]] == ps[..j + 1];
    assert j + 1 == |ps| ==> ps[..j + 1] == ps;
    if j == 0 {
      FirstPiece(ps[0]);
      assert ps[..1] == [ps[0]];
    } else {
      NextPiece(ps[..j], ps[j]);
    }
  }

  function SoFar(done: seq<Group>, ps: seq<Packet>, j: nat): Outcome
    requires j <= |ps|
  {
    if j == 0 then Outcome([], done)
    else if j < |ps| then Outcome([ps[..j]], done)
    else Outcome([], done + [ps])
  }

  predicate ReachedPiece(sofar: seq<Packet>, done: seq<Group>, ps: seq<Packet>, j: nat) {
    j < |ps| && StepInOrder(ps, j) && Run(sofar) == Some(SoFar(done, ps, j))
  }

  lemma {:induction false} NextSoFar(sofar: seq<Packet>, done: seq<Group>, ps: seq<Packet>, j: nat)
    requires ReachedPiece(sofar, done, ps, j)
    ensures Run(sofar + [ps[j]]) == Some(SoFar(done, ps, j + 1))
  {
    hide Run, Handle, Acceptable, SlotsOk;
    RunSnoc(sofar, ps[j]);
    assert done + [] == done;
  }

  lemma {:induction false} OneFrameInOrder(before: seq<Packet>, done: seq<Group>, ps: seq<Packet>, j: nat)
    requires ps != [] && j <= |ps| && forall k :: 0 <= k < |ps| ==> StepInOrder(ps, k)
    requires Run(before) == Some(Outcome([], done))
    ensures Run(before + ps[..j]) == Some(SoFar(done, ps, j))
  {
    hide StepInOrder, Run;
    if j == 0 {
      assert before + ps[..0] == before;
    } else {
      OneFrameInOrder(before, done, ps, j - 1);
      NextSoFar(before + ps[..j - 1], done, ps, j - 1);
      assert before + ps[..j - 1] + [ps[j - 1]] == before + ps[..j];
    }
  }

  lemma WholeFrame(s: Sent)
    requires s.Ok()
    ensures GroupOk(s.Pieces()) && MessageOf(s.Pieces()).data == s.data
  {
    var ps := s.Pieces();
    PiecesTile(s);
    PrefixOk(s, |ps|);
    PrefixReceived(s, |ps|);
    CountRange(|s.data|, |ps| - 1);
    hide Fragments, GroupOk;
    assert ps[..|ps|] == ps;
    forall j, k | 0 <= j < k < |ps|
      ensures Disjoint(ps[j], ps[k])
    {
      PiecesDisjoint(s, j, k);
    }
    assert PiecesOf(ps, s.AsFrame());
    CompleteGroup(ps, s.AsFrame());
  }

  lemma {:induction false} RunInOrder(tx: seq<Sent>)
    requires AllSent(tx)
    ensures Run(InOrder(tx)) == Some(Outcome([], Groups(tx)))
  {
    hide Run, Fragments, PieceCount, StepInOrder;
    if tx == [] {
      RunNothing();
    } else {
      var init, s := tx[..|tx| - 1], tx[|tx| - 1];
      RunInOrder(init);
      var ps := s.Pieces();
      CountRange(|s.data|, 0);
      forall k | 0 <= k < |ps|
        ensures StepInOrder(ps, k)
      {
        PieceInOrder(s, k);
      }
      OneFrameInOrder(InOrder(init), Groups(init), ps, |ps|);
      assert ps[..|ps|] == ps;
      assert Groups(tx) == Groups(init) + [ps];
    }
  }

  /** Round trip: packets of any frames sent one after the other and arriving all in order are
      delivered as exactly those frames, in order, and nothing is left in the work buffer. */
  lemma {:induction false} LosslessTransfer(tx: seq<Sent>)
    requires AllSent(tx)
    ensures Run(InOrder(tx)) == Some(Outcome([], Groups(tx)))
    ensures AllOk(Groups(tx))
    ensures forall i :: 0 <= i < |tx| ==> MessagesOf(Groups(tx))[i].data == tx[i].data
  {
    RunInOrder(tx);
    hide Run, GroupOk, Fragments, MessageOf;
    forall i | 0 <= i < |tx|
      ensures Groups(tx)[i] != [] && GroupOk(Groups(tx)[i]) && MessageOf(Groups(tx)[i]).data == tx[i].data
    {
      CountRange(|tx[i].data|, 0);
      WholeFrame(tx[i]);
    }
  }
}
