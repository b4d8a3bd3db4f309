/**
  What an incoming message does to a call, written down case by case and independently of the handlers, and
  what it means for the other side: every failure ends the call at both ends.
 */
module MsiMeaning {
  import opened Words
  import opened Wrappers
  import opened MsiCodec
  import opened MsiProtocol

  /** The call is gone and nothing is said about it. */
  predicate Gone(after: Option<Call>, sent: seq<MSIMessage>) {
    after.None? && sent == []
  }

  /** The call is gone and the peer is told why. */
  predicate Failed(after: Option<Call>, sent: seq<MSIMessage>, e: MSIError) {
    after.None? && sent == [MSIMessage(Some(Pop), Some(e), None)]
  }

  predicate Kept(before: Option<Call>, after: Option<Call>, sent: seq<MSIMessage>) {
    after == before && sent == []
  }

  /** The error a failed callback reports. */
  function WhyNot(c: Option<Call>): MSIError {
    if c.Some? && c.value.error != NoError then c.value.error else Handle
  }

  predicate InState(c: Option<Call>, s: CallState) { c.Some? && c.value.state == s }

  /** An INIT: rings without a call, establishes a call both wanted, is answered again in an established one,
      and is an error while ringing. */
  predicate InitMeans(before: Option<Call>, caps: byte, ok: bool, after: Option<Call>, sent: seq<MSIMessage>) {
    && (before.None? && ok ==> after == Some(Call(Requested, caps, 0, NoError)) && sent == [])
    && (InState(before, Requesting) && ok ==>
          && after == Some(Call(Active, caps, before.value.selfCaps, before.value.error))
          && sent == [MSIMessage(Some(Push), None, Some(before.value.selfCaps))])
    && ((before.None? || InState(before, Requesting)) && !ok ==> Failed(after, sent, WhyNot(before)))
    && (InState(before, Active) ==> after == before && sent == [MSIMessage(Some(Push), None, Some(before.value.selfCaps))])
    && (InState(before, Requested) ==> Failed(after, sent, InvalidState))
  }

  /** A PUSH: answers a call that was requested, changes the capabilities of an established one. */
  predicate PushMeans(before: Option<Call>, caps: byte, ok: bool, after: Option<Call>, sent: seq<MSIMessage>) {
    && (before.None? || InState(before, Requested) ==> Kept(before, after, sent))
    && (InState(before, Active) && before.value.peerCaps == caps ==> Kept(before, after, sent))
    && ((InState(before, Active) && before.value.peerCaps != caps) || InState(before, Requesting) ==>
          if ok then after == Some(Call(Active, caps, before.value.selfCaps, before.value.error)) && sent == []
          else Failed(after, sent, WhyNot(before)))
  }

  /** Everything a parsed message does. */
  predicate Means(before: Option<Call>, m: MSIMessage, ok: bool, after: Option<Call>, sent: seq<MSIMessage>) {
    && (m.request == Some(Pop) ==> Gone(after, sent))
    && (m.request == Some(Init) ==>
          match m.capabilities
          case None => Failed(after, sent, InvalidMessage)
          case Some(caps) => InitMeans(before, caps, ok, after, sent))
    && (m.request == Some(Push) ==>
          match m.capabilities
          case None => if before.None? then Gone(after, sent) else Failed(after, sent, InvalidMessage)
          case Some(caps) => PushMeans(before, caps, ok, after, sent))
  }

  /** Bytes that denote a message do what the message means; bytes that denote none are answered with an
      error, and no bytes at all with nothing. */
  lemma PacketMeans(before: Option<Call>, data: seq<byte>, ok: bool)
    requires NotInactive(before)
    ensures var r := HandlePacket(before, data, ok);
            && (forall m :: Denotes(data, m) ==> Means(before, m, ok, r.call, r.sent))
            && ((forall m :: !Denotes(data, m)) ==>
                  r.call == before && r.sent == if data == [] then [] else [MSIMessage(Some(Pop), Some(InvalidMessage), None)])
  {
    hide Denotes, Parse;
    forall m
      ensures Denotes(data, m) <==> Parse(data) == Some(m)
    {
      ParseExact(data, m);
    }
    if Parse(data).Some? {
      var m := Parse(data).value;
      assert Denotes(data, m);
      ParsedNonempty(data);
      MessageMeans(before, m, ok);
    }
  }

  lemma ParsedNonempty(data: seq<byte>)
    requires Parse(data).Some?
    ensures data != [] && Parse(data).value.request.Some?
  {}

  lemma MessageMeans(before: Option<Call>, m: MSIMessage, ok: bool)
    requires NotInactive(before) && m.request.Some?
    ensures var r := HandleMessage(before, m, ok); Means(before, m, ok, r.call, r.sent)
  {}

  // ---------------------------------------------------------------- both ends

  /** The bytes of a POP, with or without an error, leave the peer without a call and are not answered. */
  lemma PopEndsPeer(peer: Option<Call>, error: Option<MSIError>, ok: bool)
    requires NotInactive(peer)
    ensures var m := MSIMessage(Some(Pop), error, None);
            SendBytes(m).Some? && Gone(HandlePacket(peer, SendBytes(m).value, ok).call, HandlePacket(peer, SendBytes(m).value, ok).sent)
  {
    hide HandlePacket, Parse, Denotes;
    var m := MSIMessage(Some(Pop), error, None);
    MessageRoundTrip(m);
    ParseExact(SendBytes(m).value, m);
    PacketMeans(peer, SendBytes(m).value, ok);
  }

  /** Whenever handling a message ends with an error, the call is gone here, and delivering what was sent
      makes it go at the other end. */
  lemma FailureEndsBoth(before: Option<Call>, m: MSIMessage, ok: bool, peer: Option<Call>, peerOk: bool)
    requires NotInactive(before) && NotInactive(peer) && m.request.Some?
    requires exists x :: x in HandleMessage(before, m, ok).sent && x.error.Some?
    ensures var r := HandleMessage(before, m, ok);
            && r.call.None? && |r.sent| == 1 && SendBytes(r.sent[0]).Some?
            && HandlePacket(peer, SendBytes(r.sent[0]).value, peerOk).call.None?
  {
    hide HandlePacket;
    MessageMeans(before, m, ok);
    hide HandleMessage;
    var r := HandleMessage(before, m, ok);
    var e :| r.sent == [MSIMessage(Some(Pop), Some(e), None)];
    PopEndsPeer(peer, Some(e), peerOk);
  }

  /** A peer that lost its call can call again and gets back into the established one: the INIT is answered
      with the capabilities, and the answer makes it active with them. */
  lemma ReinviteResyncs(n: Net, caps: byte)
    requires InState(n.a, Active) && n.b == Some(Call(Requesting, 0, caps, NoError))
    requires n.ab == [] && n.ba == [MSIMessage(Some(Init), None, Some(caps))]
    ensures var k := Next(Next(n, Step(true, Receive)), Step(false, Receive));
            && k.ab == k.ba == [] && k.a == n.a
            && k.b == Some(Call(Active, n.a.value.selfCaps, caps, NoError))
  {
    hide HandlePacket, HandleMessage;
    MessageMeans(n.a, n.ba[0], true);
    ReceiveIsHandle(n);
    var n1 := Next(n, Step(true, Receive));
    assert n1 == Net(n.a, n.b, [MSIMessage(Some(Push), None, Some(n.a.value.selfCaps))], []);
    MessageMeans(n1.b, n1.ab[0], true);
    ReceiveIsHandle(n1.Flip());
  }
}
