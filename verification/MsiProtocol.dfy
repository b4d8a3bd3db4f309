/**
  Call signalling of toxav/msi.c as a state machine: what one peer does to its call record on each
  request, packet and timeout, and what two peers do to each other over FIFO lossless channels.
 */
module MsiProtocol {
  import opened Words
  import opened Wrappers
  import opened MsiCodec

  datatype CallState = Inactive | Active | Requesting | Requested

  datatype Call = Call(state: CallState, peerCaps: byte, selfCaps: byte, error: MSIError)

  /** A record fresh from calloc. */
  const NEW_CALL := Call(Inactive, 0, 0, NoError)

  /** The call with a friend after a step, the messages sent to that friend, and whether the process
      was aborted. */
  datatype Result = Result(call: Option<Call>, sent: seq<MSIMessage>, aborted: bool)

  function InitMessage(caps: byte): MSIMessage { MSIMessage(Some(Init), None, Some(caps)) }
  function PushMessage(caps: byte): MSIMessage { MSIMessage(Some(Push), None, Some(caps)) }
  const POP_MESSAGE := MSIMessage(Some(Pop), None, None)
  function ErrorMessage(e: MSIError): MSIMessage { MSIMessage(Some(Pop), Some(e), None) }

  // ---------------------------------------------------------------- incoming messages

  /** invoke_callback: a failed callback leaves an error in the call. */
  function AfterCallback(c: Call, ok: bool): Call {
    if ok || c.error != NoError then c else c.(error := Handle)
  }

  /** The FAILURE exits: send the error, drop the call. */
  function Fail(c: Call): Result {
    Result(None, [ErrorMessage(c.error)], false)
  }

  function HandleInit(c: Call, m: MSIMessage, callbackOk: bool): Result {
    if m.capabilities.None? then Fail(c.(error := InvalidMessage))
    else
      match c.state
      case Inactive =>
        var d := c.(peerCaps := m.capabilities.value, state := Requested);
        if callbackOk then Result(Some(d), [], false) else Fail(AfterCallback(d, false))
      case Requesting =>
        var d := c.(peerCaps := m.capabilities.value, state := Active);
        if callbackOk then Result(Some(d), [PushMessage(d.selfCaps)], false) else Fail(AfterCallback(d, false))
      case Active => Result(Some(c), [PushMessage(c.selfCaps)], false)
      case Requested => Fail(c.(error := InvalidState))
  }

  function HandlePush(c: Call, m: MSIMessage, callbackOk: bool): Result {
    if m.capabilities.None? then Fail(c.(error := InvalidMessage))
    else
      match c.state
      case Active =>
        if c.peerCaps == m.capabilities.value then Result(Some(c), [], false)
        else
          var d := c.(peerCaps := m.capabilities.value);
          if callbackOk then Result(Some(d), [], false) else Fail(AfterCallback(d, false))
      case Requesting =>
        var d := c.(peerCaps := m.capabilities.value, state := Active);
        if callbackOk then Result(Some(d), [], false) else Fail(AfterCallback(d, false))
      case Inactive => Result(Some(c), [], false)
      case Requested => Result(Some(c), [], false)
  }

  function HandlePop(c: Call, m: MSIMessage): Result {
    if m.error.Some? then Result(None, [], false)
    else if c.state.Inactive? then Result(Some(c), [], true)
    else Result(None, [], false)
  }

  /** handle_msi_packet after parsing. */
  function HandleMessage(call: Option<Call>, m: MSIMessage, callbackOk: bool): Result
    requires m.request.Some?
  {
    if call.None? && m.request.value != Init then Result(None, [], false)
    else
      var c := if call.Some? then call.value else NEW_CALL;
      match m.request.value
      case Init => HandleInit(c, m, callbackOk)
      case Push => HandlePush(c, m, callbackOk)
      case Pop => HandlePop(c, m)
  }

  /** handle_msi_packet on the bytes after the packet id; without any it does nothing. */
  function HandlePacket(call: Option<Call>, data: seq<byte>, callbackOk: bool): Result {
    if data == [] then Result(call, [], false)
    else
      match Parse(data)
      case None => Result(call, [ErrorMessage(InvalidMessage)], false)
      case Some(m) => HandleMessage(call, m, callbackOk)
  }

  // ---------------------------------------------------------------- requests of the user

  /** A request either changes the call and sends messages, or is refused with -1. */
  datatype Reply = Done(call: Option<Call>, sent: seq<MSIMessage>) | Refused

  function Invite(call: Option<Call>, caps: byte): Reply {
    if call.Some? then Refused
    else Done(Some(NEW_CALL.(selfCaps := caps, state := Requesting)), [InitMessage(caps)])
  }

  function Hangup(call: Option<Call>): Reply {
    if call.None? || call.value.state.Inactive? then Refused else Done(None, [POP_MESSAGE])
  }

  function Answer(call: Option<Call>, caps: byte): Reply {
    if call.None? || call.value.state != Requested then Refused
    else Done(Some(call.value.(selfCaps := caps, state := Active)), [PushMessage(caps)])
  }

  function ChangeCapabilities(call: Option<Call>, caps: byte): Reply {
    if call.None? || call.value.state != Active then Refused
    else Done(Some(call.value.(selfCaps := caps)), [PushMessage(caps)])
  }

  // ---------------------------------------------------------------- no stored call is inactive

  /** Anything that can happen to the call with one friend. */
  datatype Event =
    | PacketEvent(data: seq<byte>, callbackOk: bool)
    | InviteEvent(caps: byte)
    | HangupEvent
    | AnswerEvent(caps: byte)
    | ChangeEvent(caps: byte)
    | OfflineEvent

  function AfterReply(call: Option<Call>, r: Reply): Result {
    match r
    case Refused => Result(call, [], false)
    case Done(c, sent) => Result(c, sent, false)
  }

  function React(call: Option<Call>, e: Event): Result {
    match e
    case PacketEvent(data, ok) => HandlePacket(call, data, ok)
    case InviteEvent(caps) => AfterReply(call, Invite(call, caps))
    case HangupEvent => AfterReply(call, Hangup(call))
    case AnswerEvent(caps) => AfterReply(call, Answer(call, caps))
    case ChangeEvent(caps) => AfterReply(call, ChangeCapabilities(call, caps))
    case OfflineEvent => Result(None, [], false)
  }

  predicate NotInactive(call: Option<Call>) {
    call.Some? ==> !call.value.state.Inactive?
  }

  lemma ReactKeepsActive(call: Option<Call>, e: Event)
    requires NotInactive(call)
    ensures NotInactive(React(call, e).call) && !React(call, e).aborted
  {}

  /** The call after any sequence of events; stops at an abort. */
  function RunEvents(es: seq<Event>): Result {
    if es == [] then Result(None, [], false)
    else
      var r := RunEvents(es[..|es| - 1]);
      if r.aborted then r else React(r.call, es[|es| - 1])
  }

  /** In every run, with malformed packets, errors, failing callbacks, hangups and timeouts, no stored
      call is inactive, and the abort for that case is never reached. */
  lemma {:induction false} NeverInactive(es: seq<Event>)
    ensures NotInactive(RunEvents(es).call) && !RunEvents(es).aborted
  {
    hide React;
    if es != [] {
      NeverInactive(es[..|es| - 1]);
      ReactKeepsActive(RunEvents(es[..|es| - 1]).call, es[|es| - 1]);
    }
  }

  // ---------------------------------------------------------------- two peers

  /** Two peers and the messages on their way from one to the other. */
  datatype Net = Net(a: Option<Call>, b: Option<Call>, ab: seq<MSIMessage>, ba: seq<MSIMessage>) {
    function Flip(): Net { Net(b, a, ba, ab) }
  }

  /** A step of peer a, or the delivery of the next message to it; peer b's steps are those of the
      flipped net. */
  datatype Move = DoInvite(caps: byte) | DoAnswer(caps: byte) | DoChange(caps: byte) | Receive

  function Request(n: Net, r: Reply): Net {
    match r
    case Refused => n
    case Done(c, sent) => n.(a := c, ab := n.ab + sent)
  }

  /** A move of peer a, callbacks succeeding; messages travel as the bytes they are printed to. */
  function MoveA(n: Net, m: Move): Net {
    match m
    case DoInvite(caps) => Request(n, Invite(n.a, caps))
    case DoAnswer(caps) => Request(n, Answer(n.a, caps))
    case DoChange(caps) => Request(n, ChangeCapabilities(n.a, caps))
    case Receive =>
      if n.ba == [] || SendBytes(n.ba[0]).None? then n
      else
        var r := HandlePacket(n.a, SendBytes(n.ba[0]).value, true);
        n.(a := r.call, ab := n.ab + r.sent, ba := n.ba[1..])
  }

  datatype Step = Step(byA: bool, move: Move)

  function Next(n: Net, s: Step): Net {
    if s.byA then MoveA(n, s.move) else MoveA(n.Flip(), s.move).Flip()
  }

  function Run(steps: seq<Step>): Net {
    if steps == [] then Net(None, None, [], [])
    else Next(Run(steps[..|steps| - 1]), steps[|steps| - 1])
  }

  predicate IsPush(m: MSIMessage) { m.capabilities.Some? && m == PushMessage(m.capabilities.value) }

  predicate AllPush(ch: seq<MSIMessage>) { forall i :: 0 <= i < |ch| ==> IsPush(ch[i]) }

  predicate In(c: Option<Call>, s: CallState) { c.Some? && c.value.state == s && c.value.error == NoError }

  /** What the receiver of a channel believes, or will believe once it is empty, is what the sender has. */
  predicate Agree(from: Call, to: Call, ch: seq<MSIMessage>) {
    if ch == [] then to.peerCaps == from.selfCaps
    else ch[|ch| - 1].capabilities == Some(from.selfCaps)
  }

  predicate NoCall(n: Net) { n.a.None? && n.b.None? && n.ab == n.ba == [] }

  /** The invite of peer a is on its way. */
  predicate Calling(n: Net) {
    In(n.a, Requesting) && n.b.None? && n.ab == [InitMessage(n.a.value.selfCaps)] && n.ba == [] && n.a.value.peerCaps == 0
  }

  /** So are the invites of both. */
  predicate Crossing(n: Net) {
    && In(n.a, Requesting) && In(n.b, Requesting)
    && n.ab == [InitMessage(n.a.value.selfCaps)] && n.ba == [InitMessage(n.b.value.selfCaps)]
  }

  predicate Ringing(n: Net) {
    && In(n.a, Requesting) && In(n.b, Requested) && n.ab == n.ba == []
    && n.b.value.peerCaps == n.a.value.selfCaps && n.a.value.peerCaps == n.b.value.selfCaps
  }

  predicate BothAgree(n: Net)
    requires n.a.Some? && n.b.Some?
  {
    Agree(n.a.value, n.b.value, n.ab) && Agree(n.b.value, n.a.value, n.ba)
  }

  /** The answer of peer b is on its way. */
  predicate Answered(n: Net) {
    In(n.a, Requesting) && In(n.b, Active) && n.ab == [] && n.ba != [] && AllPush(n.ba) && BothAgree(n)
  }

  /** Peer b has received the invite of peer a, which has yet to receive the one of peer b. */
  predicate Crossed(n: Net) {
    && In(n.a, Requesting) && In(n.b, Active) && n.ab == []
    && |n.ba| >= 2 && n.ba[0] == InitMessage(n.ba[0].capabilities.GetOr(0)) && AllPush(n.ba[1..]) && BothAgree(n)
  }

  predicate Talking(n: Net) {
    In(n.a, Active) && In(n.b, Active) && AllPush(n.ab) && AllPush(n.ba) && BothAgree(n)
  }

  /** The configurations in which peer a is at most as far as peer b. */
  predicate Half(n: Net) {
    NoCall(n) || Calling(n) || Crossing(n) || Ringing(n) || Answered(n) || Crossed(n) || Talking(n)
  }

  predicate Reachable(n: Net) { Half(n) || Half(n.Flip()) }

  /** A printed message is handled as the message it was. */
  lemma ReceiveIsHandle(n: Net)
    requires n.ba != [] && n.ba[0].request.Some?
    ensures var r := HandleMessage(n.a, n.ba[0], true);
            MoveA(n, Receive) == n.(a := r.call, ab := n.ab + r.sent, ba := n.ba[1..])
  {
    hide Parse, HandleMessage;
    MessageRoundTrip(n.ba[0]);
    assert |SendBytes(n.ba[0]).value| > 0;
  }

  lemma InviteKeeps(n: Net, caps: byte)
    requires Reachable(n)
    ensures Reachable(MoveA(n, DoInvite(caps)))
  {
    if n.a.None? {
      hide Ringing, Answered, Crossed, Talking, BothAgree;
      var k := MoveA(n, DoInvite(caps));
      assert NoCall(n) || Calling(n.Flip()) by { OnlyTwoWithoutCall(n); }
      assert k.ab == [InitMessage(caps)];
      if NoCall(n) { assert Calling(k); } else { assert Crossing(k); }
    }
  }

  lemma OnlyTwoWithoutCall(n: Net)
    requires Reachable(n) && n.a.None?
    ensures NoCall(n) || Calling(n.Flip())
  {}

  lemma AnswerKeeps(n: Net, caps: byte)
    requires Reachable(n)
    ensures Reachable(MoveA(n, DoAnswer(caps)))
  {
    if n.a.Some? && n.a.value.state == Requested {
      assert Ringing(n.Flip());
      var k := MoveA(n, DoAnswer(caps));
      assert k.ab == [PushMessage(caps)];
      assert Answered(k.Flip());
    }
  }

  /** One more PUSH with the sender's new capabilities. */
  lemma PushAppended(from: Call, to: Call, ch: seq<MSIMessage>, caps: byte)
    ensures var more := ch + [PushMessage(caps)];
            && Agree(from.(selfCaps := caps), to, more) && |more| == |ch| + 1 && (ch != [] ==> more[0] == ch[0])
            && (AllPush(ch) ==> AllPush(more)) && (ch != [] && AllPush(ch[1..]) ==> AllPush(more[1..]))
  {
    var more := ch + [PushMessage(caps)];
    assert more[|more| - 1] == PushMessage(caps);
    if ch != [] {
      assert more[1..] == ch[1..] + [PushMessage(caps)];
    }
  }

  lemma ChangeKeeps(n: Net, caps: byte)
    requires Reachable(n)
    ensures Reachable(MoveA(n, DoChange(caps)))
  {
    if n.a.Some? && n.a.value.state == Active {
      hide AllPush, NoCall, Calling, Crossing, Ringing;
      ActiveAndWhat(n);
      var k := MoveA(n, DoChange(caps));
      assert k == n.(a := Some(n.a.value.(selfCaps := caps)), ab := n.ab + [PushMessage(caps)]);
      PushAppended(n.a.value, n.b.value, n.ab, caps);
      if Talking(n) {
        assert Talking(k);
      } else if Answered(n.Flip()) {
        assert Answered(k.Flip());
      } else {
        assert Crossed(k.Flip());
      }
    }
  }

  lemma ActiveAndWhat(n: Net)
    requires Reachable(n) && n.a.Some? && n.a.value.state == Active
    ensures n.b.Some? && (Talking(n) || Answered(n.Flip()) || Crossed(n.Flip()))
  {}

  lemma RequestKeeps(n: Net, m: Move)
    requires Reachable(n) && !m.Receive?
    ensures Reachable(MoveA(n, m))
  {
    hide Reachable, MoveA;
    match m {
      case DoInvite(caps) => InviteKeeps(n, caps);
      case DoAnswer(caps) => AnswerKeeps(n, caps);
      case DoChange(caps) => ChangeKeeps(n, caps);
    }
  }

  /** The first message on its way to peer a is an INIT or a PUSH, never an error. */
  lemma HeadIsPlain(n: Net)
    requires Reachable(n) && n.ba != []
    ensures IsPush(n.ba[0]) || n.ba[0] == InitMessage(n.ba[0].capabilities.GetOr(0))
  {}

  /** When something is on its way to peer a. */
  lemma ReceiveWhen(n: Net)
    requires Reachable(n) && n.ba != []
    ensures Calling(n.Flip()) || Crossing(n) || Answered(n) || Crossed(n) || Talking(n)
  {}

  /** What is left of a channel after its first message. */
  lemma Shorter(from: Call, to: Call, to': Call, ch: seq<MSIMessage>)
    requires ch != [] && Agree(from, to, ch) && ch[0].capabilities.Some? && to'.peerCaps == ch[0].capabilities.value
    ensures Agree(from, to', ch[1..]) && (AllPush(ch) ==> AllPush(ch[1..]))
  {}

  lemma AnswerArrives(n: Net)
    requires n.ba != [] && n.ba[0].request.Some? && (Answered(n) || Talking(n))
    ensures Talking(MoveA(n, Receive))
  {
    hide MoveA;
    ReceiveIsHandle(n);
    assert IsPush(n.ba[0]);
    var k := MoveA(n, Receive);
    assert n.ab + [] == n.ab;
    Shorter(n.b.value, n.a.value, k.a.value, n.ba);
  }

  lemma InviteArrives(n: Net)
    requires n.ba != [] && n.ba[0].request.Some? && Crossed(n)
    ensures Talking(MoveA(n, Receive))
  {
    hide MoveA, AllPush;
    ReceiveIsHandle(n);
    var k := MoveA(n, Receive);
    assert k.ab == [PushMessage(n.a.value.selfCaps)];
    OnePush(n.a.value.selfCaps);
    Shorter(n.b.value, n.a.value, k.a.value, n.ba);
  }

  lemma OnePush(caps: byte)
    ensures AllPush([PushMessage(caps)])
  {}

  lemma FirstInviteArrives(n: Net)
    requires n.ba != [] && n.ba[0].request.Some? && (Calling(n.Flip()) || Crossing(n))
    ensures Ringing(MoveA(n, Receive).Flip()) || Crossed(MoveA(n, Receive).Flip())
  {
    hide MoveA;
    ReceiveIsHandle(n);
    var k := MoveA(n, Receive);
    if Crossing(n) {
      assert k.ab == [InitMessage(n.a.value.selfCaps), PushMessage(n.a.value.selfCaps)];
      assert k.ab[1..] == [PushMessage(n.a.value.selfCaps)];
    }
  }

  lemma ReceiveKeeps(n: Net)
    requires Reachable(n) && n.ba != []
    ensures Reachable(MoveA(n, Receive))
  {
    hide MoveA, Calling, Crossing, Answered, Crossed, Talking, Ringing;
    ReceiveWhen(n);
    HeadIsPlain(n);
    if Answered(n) || Talking(n) {
      AnswerArrives(n);
    } else if Crossed(n) {
      InviteArrives(n);
    } else {
      FirstInviteArrives(n);
    }
  }

  lemma MoveKeeps(n: Net, m: Move)
    requires Reachable(n)
    ensures Reachable(MoveA(n, m))
  {
    hide Reachable;
    if m.Receive? {
      if n.ba != [] { ReceiveKeeps(n); }
    } else {
      RequestKeeps(n, m);
    }
  }

  /** Every step of either peer keeps the configuration among the listed ones. */
  lemma NextKeeps(n: Net, s: Step)
    requires Reachable(n)
    ensures Reachable(Next(n, s))
  {
    hide Half, MoveA;
    MoveKeeps(n, s.move);
    MoveKeeps(n.Flip(), s.move);
  }

  lemma {:induction false} RunReachable(steps: seq<Step>)
    ensures Reachable(Run(steps))
  {
    hide Next, Reachable;
    if steps == [] {
      StartReachable();
    } else {
      RunReachable(steps[..|steps| - 1]);
      NextKeeps(Run(steps[..|steps| - 1]), steps[|steps| - 1]);
    }
  }

  lemma StartReachable()
    ensures Reachable(Net(None, None, [], []))
  {}

  predicate NoErrors(ch: seq<MSIMessage>) {
    forall i :: 0 <= i < |ch| ==> ch[i].error.None? && ch[i].request != Some(Pop)
  }

  /** Both ends agree on the state of the call and on what the other can do. */
  predicate Quiet(n: Net) {
    || (n.a.None? && n.b.None?)
    || (n.a.Some? && n.b.Some?
        && (n.a.value.state, n.b.value.state) in {(Requesting, Requested), (Requested, Requesting), (Active, Active)}
        && n.a.value.peerCaps == n.b.value.selfCaps && n.b.value.peerCaps == n.a.value.selfCaps)
  }

  /** Main theorem: over any run of invites, simultaneous ones included, answers, capability changes and
      deliveries, no error message is ever on its way, and whenever nothing is on its way the peers
      agree. */
  lemma {:induction false} CallsAgree(steps: seq<Step>)
    ensures var n := Run(steps);
            && NoErrors(n.ab) && NoErrors(n.ba)
            && (n.ab == n.ba == [] ==> Quiet(n))
  {
    RunReachable(steps);
    ReachableIsFine(Run(steps));
  }

  lemma ReachableIsFine(n: Net)
    requires Reachable(n)
    ensures NoErrors(n.ab) && NoErrors(n.ba)
    ensures n.ab == n.ba == [] ==> Quiet(n)
  {
    HalfIsFine(n);
    HalfIsFine(n.Flip());
  }

  lemma HalfIsFine(n: Net)
    ensures Half(n) ==> NoErrors(n.ab) && NoErrors(n.ba) && (n.ab == n.ba == [] ==> Quiet(n))
  {
    if Half(n) {
      assert n.ba != [] ==> forall i :: 1 <= i < |n.ba| ==> n.ba[i] == n.ba[1..][i - 1];
    }
  }

  // ---------------------------------------------------------------- agreement is reached

  /** An INIT may still cause one PUSH in return; a PUSH causes nothing. */
  function Pending(ch: seq<MSIMessage>): nat {
    if ch == [] then 0 else (if ch[0].request == Some(Init) then 2 else 1) + Pending(ch[1..])
  }

  lemma {:induction false} PendingConcat(a: seq<MSIMessage>, b: seq<MSIMessage>)
    ensures Pending(a + b) == Pending(a) + Pending(b)
  {
    if a == [] {
      assert a + b == b;
    } else {
      assert (a + b)[1..] == a[1..] + b;
      PendingConcat(a[1..], b);
    }
  }

  function Work(n: Net): nat { Pending(n.ab) + Pending(n.ba) }

  /** Every delivery brings the peers closer to silence. */
  lemma ReceiveShrinks(n: Net)
    requires Reachable(n) && n.ba != []
    ensures Work(MoveA(n, Receive)) < Work(n)
  {
    hide HandlePacket, Half;
    HeadIsPlain(n);
    ReceiveIsHandle(n);
    var r := HandleMessage(n.a, n.ba[0], true);
    PendingConcat(n.ab, r.sent);
    NoAnswerToErrors(n);
    assert r.sent == [] || (|r.sent| == 1 && r.sent[1..] == []);
  }

  lemma NoAnswerToErrors(n: Net)
    requires Reachable(n) && n.ba != []
    ensures n.ba[0].request.Some?
    ensures var sent := HandleMessage(n.a, n.ba[0], true).sent;
            sent == [] || (|sent| == 1 && IsPush(sent[0]) && n.ba[0].request == Some(Init))
  {}

  function RunFrom(n: Net, steps: seq<Step>): Net
    decreases |steps|
  {
    if steps == [] then n else RunFrom(Next(n, steps[0]), steps[1..])
  }

  predicate OnlyDeliveries(steps: seq<Step>) {
    forall i :: 0 <= i < |steps| ==> steps[i].move.Receive?
  }

  /** From every reachable configuration, delivering what is on its way leads, in a bounded number of
      deliveries, to silence and agreement. */
  lemma {:induction false} Settles(n: Net) returns (steps: seq<Step>)
    requires Reachable(n)
    ensures OnlyDeliveries(steps) && |steps| <= Work(n)
    ensures var k := RunFrom(n, steps); k.ab == k.ba == [] && Quiet(k)
    decreases Work(n)
  {
    hide Half, MoveA, HandlePacket, Quiet, Reachable;
    if n.ab == n.ba == [] {
      steps := [];
      ReachableIsFine(n);
    } else {
      var s := Step(n.ba != [], Receive);
      if n.ba != [] { ReceiveShrinks(n); } else { FlipReachable(n); ReceiveShrinks(n.Flip()); }
      NextKeeps(n, s);
      var more := Settles(Next(n, s));
      steps := [s] + more;
      assert steps[1..] == more;
    }
  }

  lemma FlipReachable(n: Net)
    requires Reachable(n)
    ensures Reachable(n.Flip())
  {
    hide Half;
  }
}
