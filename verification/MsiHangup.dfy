/**
  Hangups in the two-peer protocol of toxav/msi.c. Messages carry no call identity, so a message of a call
  that was hung up can be taken for one of the next call. This module says exactly when that happens, and
  that runs in which it is avoided keep the peers in agreement.
 */
module MsiHangup {
  import opened Words
  import opened Wrappers
  import opened MsiCodec
  import opened MsiProtocol

  const START := Net(None, None, [], [])

  predicate Silent(n: Net) { n.ab == n.ba == [] }

  predicate IsInit(m: MSIMessage) { m.request == Some(Init) }

  predicate NoInit(ch: seq<MSIMessage>) { forall i :: 0 <= i < |ch| ==> !IsInit(ch[i]) }

  predicate OnlyInits(ch: seq<MSIMessage>) { forall i :: 0 <= i < |ch| ==> IsInit(ch[i]) }

  lemma NotOnlyInits(ch: seq<MSIMessage>, i: nat)
    requires i < |ch| && !IsInit(ch[i])
    ensures !OnlyInits(ch)
  {}

  /** Peer a hangs up. */
  function HungUp(n: Net): Net {
    MsiProtocol.Request(n, Hangup(n.a))
  }

  /** Peer a hangs up and invites again at once. */
  function Redialed(n: Net, caps: byte): Net {
    MoveA(HungUp(n), DoInvite(caps))
  }

  // ---------------------------------------------------------------- deliveries come to an end

  /** A message a peer sends: an INIT or PUSH with capabilities, or a POP. */
  predicate Plain(m: MSIMessage) {
    m.request.Some? && (m.request != Some(Pop) ==> m.capabilities.Some?)
  }

  predicate AllPlain(ch: seq<MSIMessage>) { forall i :: 0 <= i < |ch| ==> Plain(ch[i]) }

  predicate PlainNet(n: Net) {
    AllPlain(n.ab) && AllPlain(n.ba) && NotInactive(n.a) && NotInactive(n.b)
  }

  /** One delivery to peer a: only an INIT is answered, and never with an INIT. */
  lemma Delivered(n: Net)
    requires PlainNet(n) && n.ba != []
    ensures var k := MoveA(n, Receive);
            var r := HandleMessage(n.a, n.ba[0], true);
            && k == n.(a := r.call, ab := n.ab + r.sent, ba := n.ba[1..]) && PlainNet(k)
            && (r.sent == [] || (|r.sent| == 1 && IsInit(n.ba[0]) && Plain(r.sent[0]) && !IsInit(r.sent[0])))
  {
    hide HandlePacket;
    assert Plain(n.ba[0]);
    ReceiveIsHandle(n);
  }

  lemma DeliveryShrinks(n: Net)
    requires PlainNet(n) && n.ba != []
    ensures Work(MoveA(n, Receive)) < Work(n)
  {
    hide MoveA, HandleMessage;
    Delivered(n);
    var sent := HandleMessage(n.a, n.ba[0], true).sent;
    PendingConcat(n.ab, sent);
    assert sent == [] || sent[1..] == [];
  }

  /** Every step delivers a message that is on its way. */
  predicate Delivers(n: Net, steps: seq<Step>)
    decreases |steps|
  {
    steps == [] || (
      && steps[0].move.Receive? && (if steps[0].byA then n.ba else n.ab) != []
      && Delivers(Next(n, steps[0]), steps[1..]))
  }

  /** From any configuration at all, deliveries end after a bounded number of steps, in any order. */
  lemma {:induction false} DeliveriesEnd(n: Net, steps: seq<Step>)
    requires PlainNet(n) && Delivers(n, steps)
    ensures |steps| <= Work(n)
    decreases |steps|
  {
    hide MoveA;
    if steps != [] {
      var from := if steps[0].byA then n else n.Flip();
      Delivered(from);
      DeliveryShrinks(from);
      DeliveriesEnd(Next(n, steps[0]), steps[1..]);
    }
  }

  lemma ReachableIsPlain(n: Net)
    requires Reachable(n)
    ensures PlainNet(n)
  {
    HalfIsPlain(n);
    HalfIsPlain(n.Flip());
  }

  lemma HalfIsPlain(n: Net)
    ensures Half(n) ==> PlainNet(n)
  {
    if Half(n) && n.ba != [] {
      assert forall i :: 1 <= i < |n.ba| ==> n.ba[i] == n.ba[1..][i - 1];
    }
  }

  // ---------------------------------------------------------------- after a hangup

  predicate PushOrPop(m: MSIMessage) { IsPush(m) || m == POP_MESSAGE }

  /** What peer a had sent before it hung up: PUSHes, the first message perhaps an INIT that peer b awaits. */
  predicate Before(b: Option<Call>, w: seq<MSIMessage>) {
    forall i :: 0 <= i < |w| ==>
      IsPush(w[i]) || (i == 0 && IsInit(w[0]) && w[0].error.None? && w[0].capabilities.Some? && (b.None? || b.value.state == Requesting))
  }

  /** Peer a has hung up, and nothing on its way to it can make it think otherwise; peer b is about to hear
      of it or has forgotten the call. */
  predicate Closing(n: Net) {
    && n.a.None? && (forall i :: 0 <= i < |n.ba| ==> PushOrPop(n.ba[i])) && NotInactive(n.b)
    && if n.ab == [] then n.b.None?
       else n.ab[|n.ab| - 1] == POP_MESSAGE && Before(n.b, n.ab[..|n.ab| - 1])
  }

  lemma ClosingIsPlain(n: Net)
    requires Closing(n)
    ensures PlainNet(n)
  {
    if n.ab != [] {
      assert forall i :: 0 <= i < |n.ab| - 1 ==> n.ab[i] == n.ab[..|n.ab| - 1][i];
    }
  }

  /** Hanging up while no INIT is on its way starts the closing. */
  lemma {:induction false} HangupCloses(n: Net)
    requires Reachable(n) && n.a.Some? && NoInit(n.ba)
    ensures Closing(HungUp(n))
  {
    hide MoveA;
    var k := HungUp(n);
    ReachableIsPlain(n);
    assert k == n.(a := None, ab := n.ab + [POP_MESSAGE]);
    assert k.ab[..|k.ab| - 1] == n.ab;
    ReachableChannels(n);
  }

  lemma ReachableChannels(n: Net)
    requires Reachable(n)
    ensures Before(n.b, n.ab)
    ensures NoInit(n.ba) ==> AllPush(n.ba)
  {
    if n.ab != [] {
      assert forall i :: 1 <= i < |n.ab| ==> n.ab[i] == n.ab[1..][i - 1];
    }
    if n.ba != [] {
      assert forall i :: 1 <= i < |n.ba| ==> n.ba[i] == n.ba[1..][i - 1];
    }
  }

  lemma {:induction false} ClosingReceivesA(n: Net)
    requires Closing(n) && n.ba != []
    ensures Closing(MoveA(n, Receive))
  {
    hide MoveA;
    ClosingIsPlain(n);
    Delivered(n);
    assert PushOrPop(n.ba[0]);
    assert n.ab + [] == n.ab;
  }

  lemma {:induction false} ClosingReceivesB(n: Net)
    requires Closing(n) && n.ab != []
    ensures Closing(MoveA(n.Flip(), Receive).Flip())
  {
    hide MoveA, HandleInit, HandlePush;
    ClosingIsPlain(n);
    Delivered(n.Flip());
    var r := HandleMessage(n.b, n.ab[0], true);
    var w := n.ab[..|n.ab| - 1];
    if w == [] {
      assert n.ab[0] == POP_MESSAGE && r.call == None && r.sent == [];
      assert n.ba + [] == n.ba;
    } else {
      assert w[0] == n.ab[0] && n.ab[1..][..|n.ab| - 2] == w[1..];
      OneBefore(n.b, w);
    }
  }

  lemma OneBefore(b: Option<Call>, w: seq<MSIMessage>)
    requires w != [] && Before(b, w)
    ensures w[0].request.Some?
    ensures var r := HandleMessage(b, w[0], true);
            Before(r.call, w[1..]) && (r.sent == [] || (|r.sent| == 1 && IsPush(r.sent[0])))
  {
    assert IsPush(w[0]) || IsInit(w[0]);
    assert forall i :: 1 <= i < |w| ==> IsPush(w[i]);
  }

  // ---------------------------------------------------------------- runs with hangups

  /** A move of the protocol, or a hangup. */
  datatype Deed = Do(move: Move) | HangUp

  datatype DeedStep = DeedStep(byA: bool, deed: Deed)

  function DeedA(n: Net, d: Deed): Net {
    match d
    case Do(m) => MoveA(n, m)
    case HangUp => HungUp(n)
  }

  function NextDeed(n: Net, s: DeedStep): Net {
    if s.byA then DeedA(n, s.deed) else DeedA(n.Flip(), s.deed).Flip()
  }

  function RunDeeds(steps: seq<DeedStep>): Net {
    if steps == [] then START else NextDeed(RunDeeds(steps[..|steps| - 1]), steps[|steps| - 1])
  }

  /** Peer a hangs up only while no INIT is on its way to it, and starts a call only while nothing but
      INITs are on their way. */
  predicate PoliteA(n: Net, d: Deed) {
    match d
    case HangUp => NoInit(n.ba)
    case Do(DoInvite(_)) => n.a.Some? || (n.ab == [] && OnlyInits(n.ba))
    case Do(_) => true
  }

  predicate Polite(n: Net, s: DeedStep) {
    PoliteA(if s.byA then n else n.Flip(), s.deed)
  }

  predicate PoliteRun(steps: seq<DeedStep>) {
    steps == [] || (
      && PoliteRun(steps[..|steps| - 1])
      && Polite(RunDeeds(steps[..|steps| - 1]), steps[|steps| - 1]))
  }

  predicate Sound(n: Net) {
    Reachable(n) || Closing(n) || Closing(n.Flip())
  }

  lemma ClosedIsStart(n: Net)
    requires Closing(n) && Silent(n)
    ensures n == START && Reachable(n)
  {}

  lemma FlipSound(n: Net)
    ensures Sound(n) <==> Sound(n.Flip())
  {}

  lemma {:induction false} PoliteRunIsSound(steps: seq<DeedStep>)
    requires PoliteRun(steps)
    ensures Sound(RunDeeds(steps))
  {
    hide Sound, DeedA, Polite;
    if steps == [] {
      ClosedIsStart(START);
      StartSound();
    } else {
      var n, s := RunDeeds(steps[..|steps| - 1]), steps[|steps| - 1];
      PoliteRunIsSound(steps[..|steps| - 1]);
      NextSound(n, s);
    }
  }

  lemma StartSound()
    ensures Sound(START)
  {}

  /** Every polite step of either peer keeps the net sound. */
  lemma {:induction false} NextSound(n: Net, s: DeedStep)
    requires Sound(n) && Polite(n, s)
    ensures Sound(NextDeed(n, s))
    decreases if s.byA then 0 else 1
  {
    hide Reachable, HandlePacket, OnlyInits, Before, PushOrPop, NoInit;
    if !s.byA {
      FlipSound(n);
      NextSound(n.Flip(), DeedStep(true, s.deed));
      FlipSound(DeedA(n.Flip(), s.deed));
    } else {
      match s.deed {
        case HangUp => HangUpSound(n);
        case Do(Receive) => ReceiveSound(n);
        case Do(DoInvite(caps)) => InviteSound(n, caps);
        case Do(DoAnswer(caps)) => PushSound(n, DoAnswer(caps));
        case Do(DoChange(caps)) => PushSound(n, DoChange(caps));
      }
    }
  }

  lemma HangUpSound(n: Net)
    requires Sound(n) && NoInit(n.ba)
    ensures Sound(HungUp(n))
  {
    hide Reachable;
    if n.a.Some? {
      if Closing(n.Flip()) {
        assert Closing(HungUp(n).Flip());
      } else {
        HangupCloses(n);
      }
    }
  }

  lemma ReceiveSound(n: Net)
    requires Sound(n)
    ensures Sound(MoveA(n, Receive))
  {
    hide Reachable, Closing, HandlePacket;
    if n.ba != [] {
      if Closing(n) {
        ClosingReceivesA(n);
      } else if Closing(n.Flip()) {
        ClosingReceivesB(n.Flip());
      } else {
        ReceiveKeeps(n);
      }
    }
  }

  lemma InviteSound(n: Net, caps: byte)
    requires Sound(n) && (n.a.Some? || (n.ab == [] && OnlyInits(n.ba)))
    ensures Sound(MoveA(n, DoInvite(caps)))
  {
    hide Reachable, OnlyInits, HandlePacket;
    if n.a.None? {
      if n.ba != [] && (Closing(n) || Closing(n.Flip())) {
        NotOnlyInits(n.ba, if Closing(n) then 0 else |n.ba| - 1);
      } else if Closing(n) {
        ClosedIsStart(n);
        RequestKeeps(n, DoInvite(caps));
      } else if Closing(n.Flip()) {
        ClosedIsStart(n.Flip());
        RequestKeeps(n, DoInvite(caps));
      } else {
        RequestKeeps(n, DoInvite(caps));
      }
    }
  }

  lemma PushSound(n: Net, m: Move)
    requires Sound(n) && (m.DoAnswer? || m.DoChange?)
    ensures Sound(MoveA(n, m))
  {
    hide Reachable, HandlePacket;
    if !Closing(n) && !Closing(n.Flip()) {
      RequestKeeps(n, m);
    }
  }

  predicate ErrorFree(ch: seq<MSIMessage>) { forall i :: 0 <= i < |ch| ==> ch[i].error.None? }

  /** Over any number of calls, hung up by either peer or both at once, no error is ever on its way and the
      peers agree whenever nothing is, provided every hangup and every invite is polite. */
  lemma {:induction false} PoliteRunsAgree(steps: seq<DeedStep>)
    requires PoliteRun(steps)
    ensures var n := RunDeeds(steps);
            && ErrorFree(n.ab) && ErrorFree(n.ba)
            && (Silent(n) ==> Quiet(n))
  {
    hide RunDeeds, PoliteRun;
    PoliteRunIsSound(steps);
    SoundIsFine(RunDeeds(steps));
  }

  lemma {:induction false} SoundIsFine(n: Net)
    requires Sound(n)
    ensures ErrorFree(n.ab) && ErrorFree(n.ba) && (Silent(n) ==> Quiet(n))
  {
    hide Reachable;
    if Reachable(n) {
      ReachableIsFine(n);
    } else if Closing(n) {
      ClosingIsFine(n);
    } else {
      ClosingIsFine(n.Flip());
    }
  }

  lemma ClosingIsFine(n: Net)
    requires Closing(n)
    ensures ErrorFree(n.ab) && ErrorFree(n.ba) && (Silent(n) ==> n == START)
  {
    if n.ab != [] {
      assert forall i :: 0 <= i < |n.ab| - 1 ==> n.ab[i] == n.ab[..|n.ab| - 1][i];
    }
  }

  function AsDeeds(steps: seq<Step>): (ds: seq<DeedStep>)
    ensures |ds| == |steps|
  {
    seq(|steps|, i requires 0 <= i < |steps| => DeedStep(steps[i].byA, Do(steps[i].move)))
  }

  /** Runs without hangups are polite, so the theorem extends the one about them. */
  lemma {:induction false} HangupFreeIsPolite(steps: seq<Step>)
    ensures PoliteRun(AsDeeds(steps)) && RunDeeds(AsDeeds(steps)) == Run(steps)
  {
    hide Reachable, MoveA;
    if steps != [] {
      var init, s := steps[..|steps| - 1], steps[|steps| - 1];
      HangupFreeIsPolite(init);
      assert AsDeeds(steps)[..|steps| - 1] == AsDeeds(init);
      RunReachable(init);
      FlipReachable(Run(init));
      MovesArePolite(if s.byA then Run(init) else Run(init).Flip(), s.move);
    }
  }

  lemma {:induction false} MovesArePolite(n: Net, m: Move)
    requires Reachable(n)
    ensures PoliteA(n, Do(m))
  {
    if n.a.None? {
      OnlyTwoWithoutCall(n);
    }
  }

  // ---------------------------------------------------------------- exactly when a hangup is safe

  lemma DeliveryIsNext(n: Net, s: Step)
    requires s.move.Receive? && PlainNet(n)
    ensures (if s.byA then n.ba else n.ab) == [] ==> Next(n, s) == n
  {}

  lemma {:induction false} ClosingDrains(n: Net, steps: seq<Step>)
    requires Closing(n) && OnlyDeliveries(steps)
    ensures Closing(RunFrom(n, steps))
    decreases |steps|
  {
    hide Closing, MoveA;
    if steps != [] {
      var s := steps[0];
      ClosingIsPlain(n);
      DeliveryIsNext(n, s);
      if s.byA && n.ba != [] { ClosingReceivesA(n); }
      if !s.byA && n.ab != [] { ClosingReceivesB(n); }
      ClosingDrains(Next(n, s), steps[1..]);
    }
  }

  /** Peer a has hung up, but an INIT of the old call will make its phone ring, or does already. */
  predicate Haunted(n: Net) {
    && (if n.a.None? then n.ba != [] && n.ba[0] == InitMessage(n.ba[0].capabilities.GetOr(0)) && AllPush(n.ba[1..])
        else n.a.value.state == Requested && AllPush(n.ba))
    && (|| (n.ab == [] && n.b.None?)
        || (n.ab == [POP_MESSAGE] && n.b.Some? && !n.b.value.state.Inactive?)
        || (|n.ab| == 2 && n.ab[1] == POP_MESSAGE && n.ab[0] == InitMessage(n.ab[0].capabilities.GetOr(0)) && In(n.b, Requesting)))
  }

  lemma HauntedIsPlain(n: Net)
    requires Haunted(n)
    ensures PlainNet(n)
  {
    if n.ba != [] {
      assert forall i :: 1 <= i < |n.ba| ==> n.ba[i] == n.ba[1..][i - 1];
    }
  }

  lemma HauntedReceivesA(n: Net)
    requires Haunted(n) && n.ba != []
    ensures Haunted(MoveA(n, Receive))
  {
    hide MoveA;
    HauntedIsPlain(n);
    Delivered(n);
    assert n.ab + [] == n.ab;
  }

  lemma HauntedReceivesB(n: Net)
    requires Haunted(n) && n.ab != []
    ensures Haunted(MoveA(n.Flip(), Receive).Flip())
  {
    hide MoveA;
    HauntedIsPlain(n);
    Delivered(n.Flip());
    var sent := HandleMessage(n.b, n.ab[0], true).sent;
    assert n.ba + [] == n.ba;
    if n.ba != [] {
      assert (n.ba + sent)[1..] == n.ba[1..] + sent;
    }
  }

  lemma {:induction false} HauntedDrains(n: Net, steps: seq<Step>)
    requires Haunted(n) && OnlyDeliveries(steps)
    ensures Haunted(RunFrom(n, steps))
    decreases |steps|
  {
    hide Haunted, MoveA;
    if steps != [] {
      var s := steps[0];
      HauntedIsPlain(n);
      DeliveryIsNext(n, s);
      if s.byA && n.ba != [] { HauntedReceivesA(n); }
      if !s.byA && n.ab != [] { HauntedReceivesB(n); }
      HauntedDrains(Next(n, s), steps[1..]);
    }
  }

  /** An INIT can be on its way only to a peer that is itself calling. */
  lemma InitMeansCalling(n: Net)
    requires Reachable(n) && n.a.Some? && !NoInit(n.ba)
    ensures In(n.a, Requesting) && (Crossing(n) || Crossed(n))
  {
    ReachableWithCall(n);
  }

  lemma ReachableWithCall(n: Net)
    requires Reachable(n) && n.a.Some?
    ensures Crossing(n) || Crossed(n) || NoInit(n.ba)
  {}

  lemma HangupHaunts(n: Net)
    requires Reachable(n) && n.a.Some? && !NoInit(n.ba)
    ensures Haunted(HungUp(n))
  {
    InitMeansCalling(n);
    var k := HungUp(n);
    assert k == n.(a := None, ab := n.ab + [POP_MESSAGE]);
    if Crossing(n) {
      assert n.ba[1..] == [];
    }
  }

  /** After a hangup, whatever the order of deliveries, the peers are back at the start once nothing is on
      its way, if and only if no INIT was on its way to the peer that hung up. */
  lemma {:induction false} HangupExact(n: Net, steps: seq<Step>)
    requires Reachable(n) && n.a.Some? && OnlyDeliveries(steps) && Silent(RunFrom(HungUp(n), steps))
    ensures Quiet(RunFrom(HungUp(n), steps)) <==> NoInit(n.ba)
    ensures NoInit(n.ba) <==> RunFrom(HungUp(n), steps) == START
  {
    hide Reachable, HungUp, RunFrom, NoInit;
    var k := RunFrom(HungUp(n), steps);
    if NoInit(n.ba) {
      HangupCloses(n);
      ClosingDrains(HungUp(n), steps);
    } else {
      HangupHaunts(n);
      HauntedDrains(HungUp(n), steps);
    }
  }

  /** A call that is established or ringing can always be hung up. */
  lemma {:induction false} EstablishedHangupIsSafe(n: Net, steps: seq<Step>)
    requires Reachable(n) && n.a.Some? && n.a.value.state != Requesting
    requires OnlyDeliveries(steps) && Silent(RunFrom(HungUp(n), steps))
    ensures RunFrom(HungUp(n), steps) == START
  {
    hide RunFrom, HungUp, Reachable;
    HangupExact(n, steps);
    if !NoInit(n.ba) {
      InitMeansCalling(n);
    }
  }

  // ---------------------------------------------------------------- exactly when redialing is safe

  /** How much peer b has seen: some of the old call still on its way, the POP, or the new INIT too. */
  datatype Stage = Old(w: seq<MSIMessage>) | Gone | Rung

  /** Nothing will come back from peer b before it has seen the new INIT. */
  predicate Redialing(n: Net, caps: byte, stage: Stage) {
    && n.a == Some(Call(Requesting, 0, caps, NoError)) && n.ba == []
    && match stage
       case Old(w) => n.ab == w + [POP_MESSAGE, InitMessage(caps)] && NotInactive(n.b) && Unanswered(n.b, w)
       case Gone => n.b.None? && n.ab == [InitMessage(caps)]
       case Rung => n.b == Some(Call(Requested, caps, 0, NoError)) && n.ab == []
  }

  /** Peer b answers none of `w`. */
  predicate Unanswered(b: Option<Call>, w: seq<MSIMessage>) {
    AllPush(w) || (b.None? && |w| == 1 && w[0] == InitMessage(w[0].capabilities.GetOr(0)))
  }

  lemma RedialingIsPlain(n: Net, caps: byte, stage: Stage)
    requires Redialing(n, caps, stage)
    ensures PlainNet(n)
  {}

  lemma OneUnanswered(b: Option<Call>, w: seq<MSIMessage>)
    requires w != [] && Unanswered(b, w)
    ensures w[0].request.Some?
    ensures var r := HandleMessage(b, w[0], true); r.sent == [] && Unanswered(r.call, w[1..])
  {
    assert IsPush(w[0]) || |w| == 1;
  }

  lemma RedialingReceives(n: Net, caps: byte, stage: Stage) returns (stage': Stage)
    requires Redialing(n, caps, stage) && n.ab != []
    ensures Redialing(MoveA(n.Flip(), Receive).Flip(), caps, stage')
  {
    hide MoveA, HandlePush, Unanswered;
    RedialingIsPlain(n, caps, stage);
    Delivered(n.Flip());
    assert n.ba + [] == n.ba;
    match stage {
      case Old(w) =>
        if w == [] {
          assert n.ab[0] == POP_MESSAGE && n.ab[1..] == [InitMessage(caps)];
          stage' := Gone;
        } else {
          assert n.ab[0] == w[0] && n.ab[1..] == w[1..] + [POP_MESSAGE, InitMessage(caps)];
          OneUnanswered(n.b, w);
          stage' := Old(w[1..]);
        }
      case Gone =>
        assert n.ab[0] == InitMessage(caps) && n.ab[1..] == [];
        stage' := Rung;
      case Rung =>
        assert false;
    }
  }

  lemma {:induction false} RedialingDrains(n: Net, caps: byte, stage: Stage, steps: seq<Step>) returns (stage': Stage)
    requires Redialing(n, caps, stage) && OnlyDeliveries(steps)
    ensures Redialing(RunFrom(n, steps), caps, stage')
    decreases |steps|
  {
    hide MoveA, Unanswered;
    stage' := stage;
    if steps != [] {
      var s := steps[0];
      RedialingIsPlain(n, caps, stage);
      DeliveryIsNext(n, s);
      if !s.byA && n.ab != [] {
        stage' := RedialingReceives(n, caps, stage);
      }
      stage' := RedialingDrains(Next(n, s), caps, stage', steps[1..]);
    }
  }

  predicate InitOrPush(m: MSIMessage) { IsPush(m) || m == InitMessage(m.capabilities.GetOr(0)) }

  /** Something of the old call will be taken for the answer to the new invite, or has been; `p` are the
      PUSHes peer a has sent since. */
  predicate Mistaken(n: Net, caps: byte, stage: Stage, p: seq<MSIMessage>) {
    && n.a.Some? && (n.a.value.state == Active || n.a.value.state == Requesting)
    && (forall i :: 0 <= i < |n.ba| ==> InitOrPush(n.ba[i]))
    && (n.a.value.state == Active || n.ba != [] || (stage.Old? && stage.w != [] && IsInit(stage.w[0])))
    && AllPush(p)
    && match stage
       case Old(w) => n.ab == w + ([POP_MESSAGE, InitMessage(caps)] + p) && Awaits(n.b, w)
       case Gone => n.b.None? && n.ab == [InitMessage(caps)] + p
       case Rung => n.b.Some? && n.b.value.state == Requested && n.ab == p
  }

  /** The part of the old call peer b has yet to see. */
  predicate Awaits(b: Option<Call>, w: seq<MSIMessage>) {
    && b.Some? && !b.value.state.Inactive?
    && (|| AllPush(w)
        || (w != [] && w[0] == InitMessage(w[0].capabilities.GetOr(0)) && AllPush(w[1..]) && b.value.state == Requesting))
  }

  lemma MistakenIsPlain(n: Net, caps: byte, stage: Stage, p: seq<MSIMessage>)
    requires Mistaken(n, caps, stage, p)
    ensures PlainNet(n)
  {
    if stage.Old? && stage.w != [] {
      assert forall i :: 1 <= i < |stage.w| ==> stage.w[i] == stage.w[1..][i - 1];
    }
  }

  lemma MistakenReceivesA(n: Net, caps: byte, stage: Stage, p: seq<MSIMessage>) returns (p': seq<MSIMessage>)
    requires Mistaken(n, caps, stage, p) && n.ba != []
    ensures Mistaken(MoveA(n, Receive), caps, stage, p')
  {
    hide MoveA;
    MistakenIsPlain(n, caps, stage, p);
    Delivered(n);
    assert InitOrPush(n.ba[0]);
    var sent := HandleMessage(n.a, n.ba[0], true).sent;
    p' := p + sent;
    if stage.Old? {
      assert n.ab + sent == stage.w + ([POP_MESSAGE, InitMessage(caps)] + p');
    }
  }

  lemma MistakenReceivesB(n: Net, caps: byte, stage: Stage, p: seq<MSIMessage>) returns (stage': Stage, p': seq<MSIMessage>)
    requires Mistaken(n, caps, stage, p) && n.ab != []
    ensures Mistaken(MoveA(n.Flip(), Receive).Flip(), caps, stage', p')
  {
    hide MoveA;
    MistakenIsPlain(n, caps, stage, p);
    Delivered(n.Flip());
    assert n.ba + [] == n.ba;
    match stage {
      case Old(w) =>
        if w == [] {
          assert n.ab[0] == POP_MESSAGE && n.ab[1..] == [InitMessage(caps)] + p;
          stage', p' := Gone, p;
        } else {
          assert n.ab[0] == w[0] && n.ab[1..] == w[1..] + ([POP_MESSAGE, InitMessage(caps)] + p);
          stage', p' := Old(w[1..]), p;
        }
      case Gone =>
        assert n.ab[0] == InitMessage(caps) && n.ab[1..] == p;
        stage', p' := Rung, p;
      case Rung =>
        stage', p' := Rung, p[1..];
    }
  }

  lemma {:induction false} MistakenDrains(n: Net, caps: byte, stage: Stage, p: seq<MSIMessage>, steps: seq<Step>)
    returns (stage': Stage, p': seq<MSIMessage>)
    requires Mistaken(n, caps, stage, p) && OnlyDeliveries(steps)
    ensures Mistaken(RunFrom(n, steps), caps, stage', p')
    decreases |steps|
  {
    hide Mistaken, MoveA;
    stage', p' := stage, p;
    if steps != [] {
      var s := steps[0];
      MistakenIsPlain(n, caps, stage, p);
      DeliveryIsNext(n, s);
      if s.byA && n.ba != [] {
        p' := MistakenReceivesA(n, caps, stage, p);
      }
      if !s.byA && n.ab != [] {
        stage', p' := MistakenReceivesB(n, caps, stage, p);
      }
      stage', p' := MistakenDrains(Next(n, s), caps, stage', p', steps[1..]);
    }
  }

  /** Peer a can hang up and call again at once: nothing is on its way to it, and peer b is not about to
      answer an INIT of the old call. */
  predicate CanRedial(n: Net) {
    n.ba == [] && (n.b.None? || NoInit(n.ab))
  }

  lemma RedialShape(n: Net, caps: byte)
    requires Reachable(n) && n.a.Some?
    ensures Redialed(n, caps) ==
            n.(a := Some(Call(Requesting, 0, caps, NoError)), ab := n.ab + [POP_MESSAGE, InitMessage(caps)])
  {
    ReachableIsPlain(n);
    assert n.ab + [POP_MESSAGE] + [InitMessage(caps)] == n.ab + [POP_MESSAGE, InitMessage(caps)];
  }

  lemma RedialStarts(n: Net, caps: byte)
    requires Reachable(n) && n.a.Some? && CanRedial(n)
    ensures Redialing(Redialed(n, caps), caps, Old(n.ab))
  {
    hide Redialed, Reachable;
    RedialShape(n, caps);
    ReachableIsPlain(n);
    ChannelToB(n);
  }

  /** What is on its way to peer b. */
  lemma ChannelToB(n: Net)
    requires Reachable(n) && n.a.Some?
    ensures if n.b.None? then |n.ab| == 1 && n.ba == [] && n.ab[0] == InitMessage(n.ab[0].capabilities.GetOr(0))
            else Awaits(n.b, n.ab) && (NoInit(n.ab) ==> AllPush(n.ab))
    ensures NoInit(n.ab) || (n.ab != [] && IsInit(n.ab[0]))
    ensures forall i :: 0 <= i < |n.ba| ==> InitOrPush(n.ba[i])
  {
    if n.ba != [] {
      assert forall i :: 1 <= i < |n.ba| ==> n.ba[i] == n.ba[1..][i - 1];
    }
    if n.ab != [] {
      assert forall i :: 1 <= i < |n.ab| ==> n.ab[i] == n.ab[1..][i - 1];
    }
  }

  lemma RedialMistaken(n: Net, caps: byte)
    requires Reachable(n) && n.a.Some? && !CanRedial(n)
    ensures Mistaken(Redialed(n, caps), caps, Old(n.ab), [])
  {
    hide Redialed, Reachable;
    RedialShape(n, caps);
    ChannelToB(n);
    assert [POP_MESSAGE, InitMessage(caps)] + [] == [POP_MESSAGE, InitMessage(caps)];
  }

  /** After a hangup and an immediate new invite, whatever the order of deliveries, the peers agree once
      nothing is on its way if and only if nothing was on its way to the caller and the other peer was not
      about to answer an INIT of the old call. */
  lemma {:induction false} RedialExact(n: Net, caps: byte, steps: seq<Step>)
    requires Reachable(n) && n.a.Some? && OnlyDeliveries(steps) && Silent(RunFrom(Redialed(n, caps), steps))
    ensures Quiet(RunFrom(Redialed(n, caps), steps)) <==> n.ba == [] && !(n.b.Some? && !NoInit(n.ab))
  {
    hide Reachable, Redialed, RunFrom, NoInit;
    if CanRedial(n) {
      RedialStarts(n, caps);
      var stage := RedialingDrains(Redialed(n, caps), caps, Old(n.ab), steps);
    } else {
      RedialMistaken(n, caps);
      var stage, p := MistakenDrains(Redialed(n, caps), caps, Old(n.ab), [], steps);
    }
  }

  // ---------------------------------------------------------------- the failing cases are real

  const CROSSING := Net(Some(Call(Requesting, 0, 1, NoError)), Some(Call(Requesting, 0, 2, NoError)),
                        [InitMessage(1)], [InitMessage(2)])

  lemma {:induction false} CrossingIsReached()
    ensures Run([Step(true, DoInvite(1)), Step(false, DoInvite(2))]) == CROSSING
  {
    hide HandlePacket;
    var invites := [Step(true, DoInvite(1)), Step(false, DoInvite(2))];
    assert invites[..1] == [Step(true, DoInvite(1))] && invites[..1][..0] == [];
    assert Run([]) == START;
    assert Run(invites[..1]) == Next(START, invites[0]);
  }

  /** The effect of one delivery, for messages as they are sent. */
  lemma Handed(n: Net, byA: bool)
    requires PlainNet(n) && (if byA then n.ba else n.ab) != []
    ensures if byA then var r := HandleMessage(n.a, n.ba[0], true);
                        Next(n, Step(true, Receive)) == n.(a := r.call, ab := n.ab + r.sent, ba := n.ba[1..])
            else var r := HandleMessage(n.b, n.ab[0], true);
                 Next(n, Step(false, Receive)) == n.(b := r.call, ba := n.ba + r.sent, ab := n.ab[1..])
  {
    hide MoveA, HandleMessage;
    Delivered(if byA then n else n.Flip());
  }

  /** Both invite, and peer a hangs up before either invite arrives: peer a ends up ringing for a call that
      peer b has forgotten. */
  lemma {:induction false} CrossedHangupBreaksAgreement()
    ensures var n := Run([Step(true, DoInvite(1)), Step(false, DoInvite(2))]);
            var steps := [Step(true, Receive), Step(false, Receive), Step(false, Receive), Step(true, Receive)];
            var k := RunFrom(HungUp(n), steps);
            Reachable(n) && Silent(k) && In(k.a, Requested) && k.b.None? && !Quiet(k)
  {
    hide Reachable, Run, RunFrom, Next;
    var a, b := Step(true, Receive), Step(false, Receive);
    RunReachable([Step(true, DoInvite(1)), Step(false, DoInvite(2))]);
    CrossingIsReached();
    var k0 := Net(None, CROSSING.b, [InitMessage(1), POP_MESSAGE], [InitMessage(2)]);
    assert HungUp(CROSSING) == k0;
    var k1 := Net(Some(Call(Requested, 2, 0, NoError)), CROSSING.b, k0.ab, []);
    assert Next(k0, a) == k1 by { Handed(k0, true); }
    var k2 := Net(k1.a, Some(Call(Active, 1, 2, NoError)), [POP_MESSAGE], [PushMessage(2)]);
    assert Next(k1, b) == k2 by { Handed(k1, false); }
    var k3 := Net(k1.a, None, [], [PushMessage(2)]);
    assert Next(k2, b) == k3 by { Handed(k2, false); }
    assert Next(k3, a) == Net(k1.a, None, [], []) by { Handed(k3, true); }
    FourSteps(k0, a, b, b, a);
  }

  lemma FourSteps(n: Net, s1: Step, s2: Step, s3: Step, s4: Step)
    ensures RunFrom(n, [s1, s2, s3, s4]) == Next(Next(Next(Next(n, s1), s2), s3), s4)
  {
    hide Next, RunFrom;
    var n1 := Next(n, s1);
    var n2 := Next(n1, s2);
    var n3 := Next(n2, s3);
    assert [s1, s2, s3, s4] == [s1] + ([s2] + ([s3] + ([s4] + [])));
    FirstStep(n, s1, [s2] + ([s3] + ([s4] + [])));
    FirstStep(n1, s2, [s3] + ([s4] + []));
    FirstStep(n2, s3, [s4] + []);
    FirstStep(n3, s4, []);
  }

  lemma FirstStep(n: Net, s: Step, rest: seq<Step>)
    ensures RunFrom(n, [s] + rest) == RunFrom(Next(n, s), rest) && RunFrom(n, []) == n
    ensures RunFrom(Next(n, s), []) == Next(n, s)
  {
    assert ([s] + rest)[1..] == rest;
  }

  /** A run with a hangup: the callee has answered, but before the answer arrives the caller hangs up
      and invites again; then everything is delivered. */
  function HangupRun(): Net {
    var invited := MoveA(START, DoInvite(1));
    var ringing := MoveA(invited.Flip(), Receive);
    var answered := MoveA(ringing, DoAnswer(2)).Flip();
    var again := Redialed(answered, 1);
    var late := MoveA(again, Receive).Flip();
    MoveA(MoveA(late, Receive), Receive).Flip()
  }

  /** Messages carry no call identity, so agreement does not extend to runs with hangups: the late
      answer is taken for an answer to the second invite. */
  lemma {:induction false} HangupBreaksAgreement()
    ensures HangupRun().ab == HangupRun().ba == [] && !Quiet(HangupRun())
  {
    hide HandlePacket;
    var invited := Net(Some(Call(Requesting, 0, 1, NoError)), None, [InitMessage(1)], []);
    assert MoveA(START, DoInvite(1)) == invited;
    ReceiveIsHandle(invited.Flip());
    var answered := MoveA(MoveA(invited.Flip(), Receive), DoAnswer(2)).Flip();
    assert answered == Net(Some(Call(Requesting, 0, 1, NoError)), Some(Call(Active, 1, 2, NoError)), [], [PushMessage(2)]);
    var again := Redialed(answered, 1);
    assert again == Net(Some(Call(Requesting, 0, 1, NoError)), answered.b, [POP_MESSAGE, InitMessage(1)], [PushMessage(2)]);
    ReceiveIsHandle(again);
    var late := MoveA(again, Receive).Flip();
    assert late == Net(answered.b, Some(Call(Active, 2, 1, NoError)), [], [POP_MESSAGE, InitMessage(1)]);
    ReceiveIsHandle(late);
    var popped := MoveA(late, Receive);
    assert popped == Net(None, late.b, [], [InitMessage(1)]);
    ReceiveIsHandle(popped);
  }
}
