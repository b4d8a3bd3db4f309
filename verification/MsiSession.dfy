/**
  The entry points of toxav/msi.c on the heap container: each is proved to do to the call of one friend
  exactly what `MsiProtocol` says, and nothing to any other call.
 */
module MsiSession {
  import opened Words
  import opened Wrappers
  import opened MsiCodec
  import opened MsiProtocol
  import opened MsiMeaning
  import opened CallTable

  function CallOf(m: map<nat, Call>, f: nat): Option<Call> {
    if f in m then Some(m[f]) else None
  }

  function Put(m: map<nat, Call>, f: nat, c: Option<Call>): map<nat, Call> {
    if c.Some? then m[f := c.value] else m - {f}
  }

  function To(f: nat, ms: seq<MSIMessage>): (s: seq<Sent>)
    ensures |s| == |ms|
  {
    seq(|ms|, i requires 0 <= i < |ms| => Sent(f, ms[i]))
  }

  predicate NoneInactive(m: map<nat, Call>) {
    forall f :: f in m ==> !m[f].state.Inactive?
  }

  /** Calls and log after `r` was carried out for friend `f`. */
  ghost predicate Did(m: map<nat, Call>, log: seq<Sent>, f: nat, r: Result, m': map<nat, Call>, log': seq<Sent>) {
    m' == Put(m, f, r.call) && log' == log + To(f, r.sent)
  }

  ghost predicate Replied(m: map<nat, Call>, log: seq<Sent>, f: nat, r: Reply, m': map<nat, Call>, log': seq<Sent>, status: int) {
    match r
    case Refused => status == -1 && m' == m && log' == log
    case Done(c, sent) => status == 0 && m' == Put(m, f, c) && log' == log + To(f, sent)
  }

  lemma PutKeeps(m: map<nat, Call>, f: nat, c: Option<Call>)
    requires NoneInactive(m) && NotInactive(c)
    ensures NoneInactive(Put(m, f, c))
  {}

  lemma ToOne(f: nat, m: MSIMessage)
    ensures To(f, [m]) == [Sent(f, m)] && To(f, []) == []
  {}

  // ---------------------------------------------------------------- requests of the user

  method MsiInvite(s: MSISession, f: nat, caps: byte) returns (status: int)
    requires s.Valid() && NoneInactive(s.Calls())
    modifies s, s.repr
    ensures s.Valid() && fresh(s.repr - old(s.repr)) && NoneInactive(s.Calls())
    ensures Replied(old(s.Calls()), old(s.sent), f, Invite(CallOf(old(s.Calls()), f), caps), s.Calls(), s.sent, status)
    ensures status == if f in old(s.Calls()) then -1 else 0
    ensures status == 0 ==>
              && s.Calls() == old(s.Calls())[f := Call(Requesting, 0, caps, NoError)]
              && s.sent == old(s.sent) + [Sent(f, MSIMessage(Some(Init), None, Some(caps)))]
    ensures status == -1 ==> s.Calls() == old(s.Calls()) && s.sent == old(s.sent)
  {
    hide MSISession.Valid, MSISession.Calls, MSISession.T, At;
    var existing := s.GetCall(f);
    if existing != null {
      return -1;
    }
    var temp := s.AddCall(f);
    s.Send(f, InitMessage(caps));
    ToOne(f, InitMessage(caps));
    s.SetRecord(temp, NEW_CALL.(selfCaps := caps, state := Requesting));
    return 0;
  }

  method MsiHangup(s: MSISession, call: MSICall) returns (status: int)
    requires s.Valid() && NoneInactive(s.Calls()) && At(s.T(), call.friendNumber) == call
    modifies s, s.repr
    ensures s.Valid() && fresh(s.repr - old(s.repr)) && NoneInactive(s.Calls())
    ensures Replied(old(s.Calls()), old(s.sent), call.friendNumber, Hangup(CallOf(old(s.Calls()), call.friendNumber)),
                    s.Calls(), s.sent, status)
    ensures status == 0 && s.Calls() == old(s.Calls()) - {call.friendNumber}
    ensures s.sent == old(s.sent) + [Sent(call.friendNumber, MSIMessage(Some(Pop), None, None))]
  {
    hide MSISession.Valid, MSISession.Calls, MSISession.T, At;
    Recorded(s, call);
    if call.state == Inactive {
      return -1;
    }
    s.Send(call.friendNumber, POP_MESSAGE);
    ToOne(call.friendNumber, POP_MESSAGE);
    s.DropCall(call);
    return 0;
  }

  method MsiAnswer(s: MSISession, call: MSICall, caps: byte) returns (status: int)
    requires s.Valid() && NoneInactive(s.Calls()) && At(s.T(), call.friendNumber) == call
    modifies s, s.repr
    ensures s.Valid() && fresh(s.repr - old(s.repr)) && NoneInactive(s.Calls())
    ensures Replied(old(s.Calls()), old(s.sent), call.friendNumber, Answer(CallOf(old(s.Calls()), call.friendNumber), caps),
                    s.Calls(), s.sent, status)
    ensures status == if old(call.state) == Requested then 0 else -1
    ensures status == 0 ==>
              && s.Calls() == old(s.Calls())[call.friendNumber := Call(Active, old(call.peerCaps), caps, old(call.error))]
              && s.sent == old(s.sent) + [Sent(call.friendNumber, MSIMessage(Some(Push), None, Some(caps)))]
    ensures status == -1 ==> s.Calls() == old(s.Calls()) && s.sent == old(s.sent)
  {
    hide MSISession.Valid, MSISession.Calls, MSISession.T, At;
    Recorded(s, call);
    if call.state != Requested {
      return -1;
    }
    s.Send(call.friendNumber, PushMessage(caps));
    ToOne(call.friendNumber, PushMessage(caps));
    s.SetRecord(call, Call(Active, call.peerCaps, caps, call.error));
    return 0;
  }

  method MsiChangeCapabilities(s: MSISession, call: MSICall, caps: byte) returns (status: int)
    requires s.Valid() && NoneInactive(s.Calls()) && At(s.T(), call.friendNumber) == call
    modifies s, s.repr
    ensures s.Valid() && fresh(s.repr - old(s.repr)) && NoneInactive(s.Calls())
    ensures Replied(old(s.Calls()), old(s.sent), call.friendNumber,
                    ChangeCapabilities(CallOf(old(s.Calls()), call.friendNumber), caps), s.Calls(), s.sent, status)
    ensures status == if old(call.state) == Active then 0 else -1
    ensures status == 0 ==>
              && s.Calls() == old(s.Calls())[call.friendNumber := Call(Active, old(call.peerCaps), caps, old(call.error))]
              && s.sent == old(s.sent) + [Sent(call.friendNumber, MSIMessage(Some(Push), None, Some(caps)))]
    ensures status == -1 ==> s.Calls() == old(s.Calls()) && s.sent == old(s.sent)
  {
    hide MSISession.Valid, MSISession.Calls, MSISession.T, At;
    Recorded(s, call);
    if call.state != Active {
      return -1;
    }
    s.SetRecord(call, Call(call.state, call.peerCaps, caps, call.error));
    s.Send(call.friendNumber, PushMessage(caps));
    ToOne(call.friendNumber, PushMessage(caps));
    return 0;
  }

  lemma Recorded(s: MSISession, call: MSICall)
    requires s.Valid() && At(s.T(), call.friendNumber) == call
    ensures call in s.repr && call.friendNumber in s.Calls() && s.Calls()[call.friendNumber] == RecordOf(call)
  {}

  // ---------------------------------------------------------------- ending calls from our side

  /** check_peer_offline_status: the call of a friend who went offline is cancelled, and nobody is told. */
  method CheckPeerOffline(s: MSISession, f: nat, offline: bool) returns (cancelled: bool)
    requires s.Valid() && NoneInactive(s.Calls())
    modifies s, s.repr
    ensures s.Valid() && fresh(s.repr - old(s.repr)) && NoneInactive(s.Calls())
    ensures cancelled == offline && s.sent == old(s.sent)
    ensures s.Calls() == if offline then old(s.Calls()) - {f} else old(s.Calls())
  {
    hide MSISession.Valid, MSISession.Calls, MSISession.T, At;
    if !offline {
      return false;
    }
    var call := s.GetCall(f);
    if call != null {
      s.DropCall(call);
    }
    return true;
  }

  /** msi_kill: one POP per call, in ascending order of friend number, and no call is left. */
  method MsiKill(s: MSISession)
    requires s.Valid()
    modifies s, s.repr
    ensures s.Valid() && s.Calls() == map[] && s.calls == null
    ensures s.sent == old(s.sent) + Pops(old(Occupied(s.T(), 0)))
  {
    hide MSISession.Valid, MSISession.T, NextFrom, PrevBelow, Occupied, At;
    PopsGrow([], 0);
    if s.calls != null {
      ghost var done: seq<nat>, all := [], Occupied(s.T(), 0);
      HeadCall(s);
      var it := s.GetCall(s.callsHead);
      while it != null
        invariant s.Valid() && fresh(s.repr - old(s.repr))
        invariant it == First(s.T())
        invariant s.sent == old(s.sent) + Pops(done) && done + Occupied(s.T(), 0) == all
        decreases |Occupied(s.T(), 0)|
      {
        ghost var t := s.T();
        FirstCall(s);
        s.Send(it.friendNumber, POP_MESSAGE);
        var temp := it;
        it := it.next;
        s.KillCall(temp);
        FirstGone(t, s.T());
        PopsGrow(done, temp.friendNumber);
        done := done + [temp.friendNumber];
      }
    }
    NoneLeft(s);
  }

  /** A POP to each of `fs`, in order. */
  function Pops(fs: seq<nat>): (s: seq<Sent>)
    ensures |s| == |fs|
  {
    seq(|fs|, i requires 0 <= i < |fs| => Sent(fs[i], POP_MESSAGE))
  }

  lemma PopsGrow(fs: seq<nat>, f: nat)
    ensures Pops([]) == [] && Pops(fs + [f]) == Pops(fs) + [Sent(f, POP_MESSAGE)]
  {}

  // ---------------------------------------------------------------- incoming packets

  /** The FAILURE exit of a handler. */
  method FailCall(s: MSISession, call: MSICall, error: MSIError)
    requires s.Valid() && At(s.T(), call.friendNumber) == call
    modifies s, s.repr
    ensures s.Valid() && fresh(s.repr - old(s.repr))
    ensures s.Calls() == old(s.Calls()) - {call.friendNumber}
    ensures s.sent == old(s.sent) + To(call.friendNumber, [ErrorMessage(error)])
  {
    hide MSISession.Valid, MSISession.Calls, MSISession.T, At;
    s.Send(call.friendNumber, ErrorMessage(error));
    ToOne(call.friendNumber, ErrorMessage(error));
    s.DropCall(call);
  }

  /** invoke_callback: the error a failed callback leaves behind. */
  function CallbackError(e: MSIError): MSIError {
    if e == NoError then Handle else e
  }

  method HandleInitOn(s: MSISession, call: MSICall, m: MSIMessage, callbackOk: bool)
    requires s.Valid() && At(s.T(), call.friendNumber) == call
    modifies s, s.repr
    ensures s.Valid() && fresh(s.repr - old(s.repr))
    ensures Did(old(s.Calls()), old(s.sent), call.friendNumber, HandleInit(old(RecordOf(call)), m, callbackOk), s.Calls(), s.sent)
  {
    hide MSISession.Valid, MSISession.Calls, MSISession.T, At;
    Recorded(s, call);
    ToOne(call.friendNumber, PushMessage(call.selfCaps));
    if m.capabilities.None? {
      FailCall(s, call, InvalidMessage);
      return;
    }
    match call.state {
      case Inactive =>
        s.SetRecord(call, Call(Requested, m.capabilities.value, call.selfCaps, call.error));
        if !callbackOk { FailCall(s, call, CallbackError(call.error)); }
      case Requesting =>
        s.SetRecord(call, Call(Active, m.capabilities.value, call.selfCaps, call.error));
        if !callbackOk {
          FailCall(s, call, CallbackError(call.error));
        } else {
          s.Send(call.friendNumber, PushMessage(call.selfCaps));
        }
      case Active =>
        s.Send(call.friendNumber, PushMessage(call.selfCaps));
      case Requested =>
        FailCall(s, call, InvalidState);
    }
  }

  method HandlePushOn(s: MSISession, call: MSICall, m: MSIMessage, callbackOk: bool)
    requires s.Valid() && At(s.T(), call.friendNumber) == call
    modifies s, s.repr
    ensures s.Valid() && fresh(s.repr - old(s.repr))
    ensures Did(old(s.Calls()), old(s.sent), call.friendNumber, HandlePush(old(RecordOf(call)), m, callbackOk), s.Calls(), s.sent)
  {
    hide MSISession.Valid, MSISession.Calls, MSISession.T, At;
    Recorded(s, call);
    ToOne(call.friendNumber, m);
    if m.capabilities.None? {
      FailCall(s, call, InvalidMessage);
      return;
    }
    match call.state {
      case Active =>
        if call.peerCaps != m.capabilities.value {
          s.SetRecord(call, Call(call.state, m.capabilities.value, call.selfCaps, call.error));
          if !callbackOk { FailCall(s, call, CallbackError(call.error)); }
        }
      case Requesting =>
        s.SetRecord(call, Call(Active, m.capabilities.value, call.selfCaps, call.error));
        if !callbackOk { FailCall(s, call, CallbackError(call.error)); }
      case Inactive =>
      case Requested =>
    }
  }

  /** handle_pop: always kills the call; an inactive one cannot occur. */
  method HandlePopOn(s: MSISession, call: MSICall, m: MSIMessage)
    requires s.Valid() && At(s.T(), call.friendNumber) == call && !call.state.Inactive?
    modifies s, s.repr
    ensures s.Valid() && fresh(s.repr - old(s.repr))
    ensures Did(old(s.Calls()), old(s.sent), call.friendNumber, HandlePop(old(RecordOf(call)), m), s.Calls(), s.sent)
    ensures s.Calls() == old(s.Calls()) - {call.friendNumber} && s.sent == old(s.sent)
  {
    hide MSISession.Valid, MSISession.Calls, MSISession.T, At;
    ToOne(call.friendNumber, m);
    s.DropCall(call);
  }

  /** The steps of handle_msi_packet. */
  method Dispatch(s: MSISession, f: nat, data: seq<byte>, callbackOk: bool)
    requires s.Valid() && NoneInactive(s.Calls())
    modifies s, s.repr
    ensures s.Valid() && fresh(s.repr - old(s.repr)) && NoneInactive(s.Calls())
    ensures Did(old(s.Calls()), old(s.sent), f, HandlePacket(CallOf(old(s.Calls()), f), data, callbackOk), s.Calls(), s.sent)
    ensures !HandlePacket(CallOf(old(s.Calls()), f), data, callbackOk).aborted
  {
    hide MSISession.Valid, MSISession.Calls, MSISession.T, At, Parse, HandleInit, HandlePush, HandlePop;
    ghost var calls0, before := s.Calls(), CallOf(s.Calls(), f);
    PacketKeepsActive(before, data, callbackOk);
    PutKeeps(calls0, f, HandlePacket(before, data, callbackOk).call);
    if data == [] {
      ToOne(f, POP_MESSAGE);
      return;
    }
    var parsed := MsgParseIn(data);
    if parsed.None? {
      s.Send(f, ErrorMessage(InvalidMessage));
      ToOne(f, ErrorMessage(InvalidMessage));
      return;
    }
    var m := parsed.value;
    ParsedRequest(data);
    var call := s.GetCall(f);
    if call == null {
      if m.request.value != Init {
        ToOne(f, m);
        return;
      }
      call := s.AddCall(f);
    }
    Recorded(s, call);
    match m.request.value {
      case Init => HandleInitOn(s, call, m, callbackOk);
      case Push => HandlePushOn(s, call, m, callbackOk);
      case Pop => HandlePopOn(s, call, m);
    }
  }

  /** handle_msi_packet on the bytes behind the packet id. */
  method HandleMsiPacket(s: MSISession, f: nat, data: seq<byte>, callbackOk: bool)
    requires s.Valid() && NoneInactive(s.Calls())
    modifies s, s.repr
    ensures s.Valid() && fresh(s.repr - old(s.repr)) && NoneInactive(s.Calls())
    ensures Did(old(s.Calls()), old(s.sent), f, HandlePacket(CallOf(old(s.Calls()), f), data, callbackOk), s.Calls(), s.sent)
    ensures !HandlePacket(CallOf(old(s.Calls()), f), data, callbackOk).aborted
    ensures Concerns(old(s.Calls()), old(s.sent), f, s.Calls(), s.sent)
    ensures forall m :: Denotes(data, m) ==>
              Means(CallOf(old(s.Calls()), f), m, callbackOk, CallOf(s.Calls(), f), NewMessages(old(s.sent), s.sent))
    ensures forall m :: Denotes(data, m) && m.request == Some(Pop) ==>
              s.Calls() == old(s.Calls()) - {f} && s.sent == old(s.sent)
    ensures (forall m :: !Denotes(data, m)) ==>
              && s.Calls() == old(s.Calls())
              && s.sent == old(s.sent) + if data == [] then [] else [Sent(f, MSIMessage(Some(Pop), Some(InvalidMessage), None))]
  {
    hide MSISession.Valid, MSISession.Calls, MSISession.T, HandlePacket, Denotes, Means, Concerns, NewMessages;
    MeansHere(s.Calls(), s.sent, f, data, callbackOk);
    Dispatch(s, f, data, callbackOk);
  }

  /** Only the call with friend `f` changed, and only messages to that friend were added. */
  predicate Concerns(m: map<nat, Call>, log: seq<Sent>, f: nat, m': map<nat, Call>, log': seq<Sent>) {
    && m' - {f} == m - {f}
    && log <= log' && forall i :: |log| <= i < |log'| ==> log'[i].to == f
  }

  function NewMessages(log: seq<Sent>, log': seq<Sent>): seq<MSIMessage> {
    if log <= log' then seq(|log'| - |log|, i requires 0 <= i < |log'| - |log| => log'[|log| + i].message) else []
  }

  /** The effect of a packet on the container, in terms of its meaning. */
  lemma MeansHere(m: map<nat, Call>, log: seq<Sent>, f: nat, data: seq<byte>, ok: bool)
    requires NoneInactive(m)
    ensures var r := HandlePacket(CallOf(m, f), data, ok);
            var m', log' := Put(m, f, r.call), log + To(f, r.sent);
            && Concerns(m, log, f, m', log') && CallOf(m', f) == r.call
            && (forall x :: Denotes(data, x) ==> Means(CallOf(m, f), x, ok, CallOf(m', f), NewMessages(log, log')))
            && (forall x :: Denotes(data, x) && x.request == Some(Pop) ==> m' == m - {f} && log' == log)
            && ((forall x :: !Denotes(data, x)) ==>
                  && m' == m
                  && log' == log + if data == [] then [] else [Sent(f, MSIMessage(Some(Pop), Some(InvalidMessage), None))])
  {
    hide Denotes, HandlePacket, InitMeans, PushMeans;
    var before := CallOf(m, f);
    var r := HandlePacket(before, data, ok);
    var log' := log + To(f, r.sent);
    PacketMeans(before, data, ok);
    assert NewMessages(log, log') == r.sent;
    ToOne(f, MSIMessage(Some(Pop), Some(InvalidMessage), None));
  }

  lemma PacketKeepsActive(call: Option<Call>, data: seq<byte>, ok: bool)
    requires NotInactive(call)
    ensures NotInactive(HandlePacket(call, data, ok).call) && !HandlePacket(call, data, ok).aborted
  {
    hide HandlePacket;
    ReactKeepsActive(call, PacketEvent(data, ok));
  }

  lemma ParsedRequest(data: seq<byte>)
    requires Parse(data).Some?
    ensures Parse(data).value.request.Some?
  {}
}
