/**
  The five-state token ring of super_donators/grencez_tok5.c. Process `i` reads the pipe its predecessor
  writes; every message is the new value of its writer. One round of a process's loop (read, act, write)
  is one step. The number of processes, their initial values and the order of steps are arbitrary.
 */
module TokenRing {

  type Val = v: int | 0 <= v <= 4

  // ---------------------------------------------------------------- the guarded actions

  /** Some action of process `i` with value `x` fires on message `v`. */
  predicate Enabled(i: nat, v: Val, x: Val) {
    if i == 0 then (v == 0 && x == 0) || (v == 1 && x <= 1) || (v > 1 && x > 1)
    else (v == 0 && x > 1) || (v == 1 && x != 1) || (v >= 2 && x <= 1)
  }

  function Act(i: nat, v: Val, x: Val): (y: Val)
    requires Enabled(i, v, x)
  {
    if i == 0 then
      if v == 0 then 1 else if v == 1 then 2 else 0
    else
      if v == 0 then x / 4 else if v == 1 then 1 else if v == 2 then 2 + x else 4
  }

  /** Having acted on a message, a process would not act on it again. */
  lemma ActDisablesItself(i: nat, v: Val, x: Val)
    requires Enabled(i, v, x)
    ensures !Enabled(i, v, Act(i, v, x))
  {}

  // ---------------------------------------------------------------- values and pipes

  /** `pipes[i]` is what process `i` has still to read, oldest first. */
  datatype State = State(x: seq<Val>, pipes: seq<seq<Val>>)

  predicate WellFormed(s: State) {
    |s.x| == |s.pipes| >= 1
  }

  function Pred(i: nat, n: nat): (j: nat)
    requires i < n
    ensures j < n && Succ(j, n) == i
  {
    if i == 0 then n - 1 else i - 1
  }

  function Succ(i: nat, n: nat): (j: nat)
    requires i < n
    ensures j < n
  {
    if i == n - 1 then 0 else i + 1
  }

  predicate CanReceive(s: State, i: nat) {
    WellFormed(s) && i < |s.x| && s.pipes[i] != []
  }

  predicate Fires(s: State, i: nat)
    requires CanReceive(s, i)
  {
    Enabled(i, s.pipes[i][0], s.x[i])
  }

  /** One round of the loop of process `i`. */
  function Receive(s: State, i: nat): (s': State)
    requires CanReceive(s, i)
    ensures WellFormed(s') && |s'.x| == |s.x|
  {
    var v, read := s.pipes[i][0], s.pipes[i := s.pipes[i][1..]];
    if Enabled(i, v, s.x[i]) then
      var y, j := Act(i, v, s.x[i]), Succ(i, |s.x|);
      State(s.x[i := y], read[j := read[j] + [y]])
    else
      State(s.x, read)
  }

  // ---------------------------------------------------------------- counting messages

  /** Messages in the first `j` pipes. */
  function Sum(pipes: seq<seq<Val>>, j: nat): nat
    requires j <= |pipes|
  {
    if j == 0 then 0 else Sum(pipes, j - 1) + |pipes[j - 1]|
  }

  function Messages(s: State): nat {
    Sum(s.pipes, |s.pipes|)
  }

  lemma {:induction false} SumUpdate(pipes: seq<seq<Val>>, i: nat, q: seq<Val>, j: nat)
    requires i < |pipes| && j <= |pipes|
    ensures Sum(pipes[i := q], j) == Sum(pipes, j) + if i < j then |q| - |pipes[i]| else 0
  {
    if j > 0 {
      SumUpdate(pipes, i, q, j - 1);
    }
  }

  lemma {:induction false} SumMonotone(pipes: seq<seq<Val>>, i: nat, j: nat)
    requires i <= j <= |pipes|
    ensures Sum(pipes, i) <= Sum(pipes, j)
  {
    if i < j {
      SumMonotone(pipes, i, j - 1);
    }
  }

  /** A message that fires is replaced by one, any other is lost. */
  lemma ReceiveCounts(s: State, i: nat)
    requires CanReceive(s, i)
    ensures Messages(Receive(s, i)) == Messages(s) - if Fires(s, i) then 0 else 1
  {
    var n := |s.x|;
    SumUpdate(s.pipes, i, s.pipes[i][1..], n);
    var read := s.pipes[i := s.pipes[i][1..]];
    if Fires(s, i) {
      var j := Succ(i, n);
      SumUpdate(read, j, read[j] + [Act(i, s.pipes[i][0], s.x[i])], n);
    }
  }

  // ---------------------------------------------------------------- the invariant

  /** The newest message of a pipe is the writer's value; the reader of an empty pipe has nothing to do. */
  predicate InvAt(s: State, i: nat)
    requires WellFormed(s) && i < |s.x|
  {
    var from := s.x[Pred(i, |s.x|)];
    if s.pipes[i] == [] then !Enabled(i, from, s.x[i]) else s.pipes[i][|s.pipes[i]| - 1] == from
  }

  predicate Inv(s: State) {
    WellFormed(s) && forall i :: 0 <= i < |s.x| ==> InvAt(s, i)
  }

  lemma ReceiveKeepsInv(s: State, i: nat)
    requires Inv(s) && CanReceive(s, i)
    ensures Inv(Receive(s, i))
  {
    var s' := Receive(s, i);
    assert InvAt(s, i);
    if Fires(s, i) {
      ActDisablesItself(i, s.pipes[i][0], s.x[i]);
    }
    forall k | 0 <= k < |s.x|
      ensures InvAt(s', k)
    {
      assert InvAt(s, k);
    }
  }

  /** Process `i` would not act on its predecessor's current value. */
  predicate Idle(s: State, i: nat)
    requires WellFormed(s) && i < |s.x|
  {
    !Enabled(i, s.x[Pred(i, |s.x|)], s.x[i])
  }

  /** What the idleness of processes 1 to `i` says about their values. */
  lemma {:induction false} IdleChain(s: State, i: nat)
    requires WellFormed(s) && i < |s.x|
    requires forall k :: 1 <= k <= i ==> Idle(s, k)
    ensures s.x[0] > 1 ==> s.x[i] > 1
    ensures s.x[0] == 1 ==> s.x[i] == 1
    ensures s.x[0] == 0 ==> s.x[i] <= 1
  {
    if i > 0 {
      IdleChain(s, i - 1);
      assert Idle(s, i);
    }
  }

  /** Whatever the values, some process would act on its predecessor's value. */
  lemma SomeoneCanAct(s: State) returns (i: nat)
    requires WellFormed(s)
    ensures i < |s.x| && !Idle(s, i)
  {
    if forall k :: 1 <= k < |s.x| ==> Idle(s, k) {
      IdleChain(s, |s.x| - 1);
      return 0;
    }
    i :| 1 <= i < |s.x| && !Idle(s, i);
  }

  lemma {:induction false} SumAtLeast(pipes: seq<seq<Val>>, i: nat, j: nat)
    requires i < j <= |pipes|
    ensures Sum(pipes, j) >= |pipes[i]|
  {
    SumMonotone(pipes, i + 1, j);
  }

  /** There is a message, and it waits where an action can fire. */
  lemma NeverEmpty(s: State) returns (i: nat)
    requires Inv(s)
    ensures Messages(s) >= 1
    ensures i < |s.x| && s.pipes[i] != [] && !Idle(s, i)
  {
    i := SomeoneCanAct(s);
    assert InvAt(s, i);
    SumAtLeast(s.pipes, i, |s.pipes|);
  }

  // ---------------------------------------------------------------- one message

  lemma {:induction false} SumOfTwo(pipes: seq<seq<Val>>, i: nat, k: nat, j: nat)
    requires i < j <= |pipes| && k < j && i != k
    ensures Sum(pipes, j) >= |pipes[i]| + |pipes[k]|
  {
    if i == j - 1 {
      SumAtLeast(pipes, k, j - 1);
    } else if k == j - 1 {
      SumAtLeast(pipes, i, j - 1);
    } else {
      SumOfTwo(pipes, i, k, j - 1);
    }
  }

  /** The only message of the ring waits for process `i`. */
  predicate TokenAt(s: State, i: nat) {
    && Inv(s) && i < |s.x| && |s.pipes[i]| == 1
    && forall k :: 0 <= k < |s.x| && k != i ==> s.pipes[k] == []
  }

  lemma OneMessage(s: State) returns (i: nat)
    requires Inv(s) && Messages(s) == 1
    ensures TokenAt(s, i)
  {
    i := NeverEmpty(s);
    SumAtLeast(s.pipes, i, |s.pipes|);
    forall k | 0 <= k < |s.x| && k != i
      ensures s.pipes[k] == []
    {
      SumOfTwo(s.pipes, i, k, |s.pipes|);
    }
  }

  /** With one message, only its reader can move; it acts, and the message goes to its successor. */
  lemma TokenMoves(s: State, i: nat, k: nat)
    requires TokenAt(s, i) && CanReceive(s, k)
    ensures k == i && Fires(s, i) && TokenAt(Receive(s, i), Succ(i, |s.x|))
  {
    var h := NeverEmpty(s);
    assert InvAt(s, i);
    ReceiveKeepsInv(s, i);
  }

  // ---------------------------------------------------------------- starting up, and runs

  /** A process sends its initial value before it first reads. */
  datatype Ring = Ring(x: seq<Val>, pipes: seq<seq<Val>>, started: seq<bool>)

  datatype Step = Begin(i: nat) | Round(i: nat)

  predicate RingOk(r: Ring) {
    && |r.x| == |r.pipes| == |r.started| >= 1
    && forall i :: 0 <= i < |r.x| && !r.started[Pred(i, |r.x|)] ==> r.pipes[i] == []
  }

  function Initial(x: seq<Val>): (r: Ring) {
    Ring(x, seq(|x|, _ => []), seq(|x|, _ => false))
  }

  predicate Possible(r: Ring, e: Step) {
    RingOk(r) &&
    match e
    case Begin(i) => i < |r.x| && !r.started[i]
    case Round(i) => i < |r.x| && r.started[i] && r.pipes[i] != []
  }

  function Do(r: Ring, e: Step): Ring
    requires Possible(r, e)
  {
    match e
    case Begin(i) =>
      var j := Succ(i, |r.x|);
      Ring(r.x, r.pipes[j := r.pipes[j] + [r.x[i]]], r.started[i := true])
    case Round(i) =>
      var s := Receive(State(r.x, r.pipes), i);
      Ring(s.x, s.pipes, r.started)
  }

  /** The ring with the first message of every process counted as sent. */
  function Filled(r: Ring): (s: State)
    requires RingOk(r)
    ensures WellFormed(s) && |s.x| == |r.x|
  {
    State(r.x, seq(|r.x|, i requires 0 <= i < |r.x| =>
      var p := Pred(i, |r.x|);
      if r.started[p] then r.pipes[i] else [r.x[p]]))
  }

  /** Messages in the pipes, and those of processes that have yet to send their first. */
  function Tokens(r: Ring): nat
    requires RingOk(r)
  {
    Messages(Filled(r))
  }

  /** Once every process has begun, the tokens are the messages in the pipes. */
  lemma TokensAreMessages(r: Ring)
    requires RingOk(r) && forall i :: 0 <= i < |r.x| ==> r.started[i]
    ensures Tokens(r) == Sum(r.pipes, |r.pipes|)
  {
    assert Filled(r).pipes == r.pipes;
  }

  lemma BeginIsSilent(r: Ring, i: nat)
    requires Possible(r, Begin(i))
    ensures RingOk(Do(r, Begin(i))) && Filled(Do(r, Begin(i))) == Filled(r)
  {
    var r' := Do(r, Begin(i));
    assert r.pipes[Succ(i, |r.x|)] == [] && Pred(Succ(i, |r.x|), |r.x|) == i;
    forall k | 0 <= k < |r.x|
      ensures Filled(r').pipes[k] == Filled(r).pipes[k]
    {
      assert Pred(k, |r.x|) == i <==> k == Succ(i, |r.x|);
    }
    assert Filled(r').pipes == Filled(r).pipes;
  }

  lemma RoundIsReceive(r: Ring, i: nat)
    requires Possible(r, Round(i))
    ensures CanReceive(Filled(r), i) && Filled(r).pipes[i] == r.pipes[i]
    ensures RingOk(Do(r, Round(i))) && Filled(Do(r, Round(i))) == Receive(Filled(r), i)
  {
    var r' := Do(r, Round(i));
    assert r.started[Pred(i, |r.x|)];
    assert Pred(Succ(i, |r.x|), |r.x|) == i;
    assert Filled(r').pipes == Receive(Filled(r), i).pipes;
  }

  lemma {:induction false} SumOfOnes(pipes: seq<seq<Val>>, j: nat)
    requires j <= |pipes| && forall i :: 0 <= i < |pipes| ==> |pipes[i]| == 1
    ensures Sum(pipes, j) == j
  {
    if j > 0 {
      SumOfOnes(pipes, j - 1);
    }
  }

  lemma InitialOk(x: seq<Val>)
    requires |x| >= 1
    ensures RingOk(Initial(x)) && Inv(Filled(Initial(x))) && Tokens(Initial(x)) == |x|
  {
    var s := Filled(Initial(x));
    SumOfOnes(s.pipes, |s.pipes|);
  }

  predicate IsRun(r: Ring, es: seq<Step>)
    decreases |es|
  {
    es == [] || (Possible(r, es[0]) && IsRun(Do(r, es[0]), es[1..]))
  }

  function Run(r: Ring, es: seq<Step>): Ring
    requires IsRun(r, es)
    decreases |es|
  {
    if es == [] then r else Run(Do(r, es[0]), es[1..])
  }

  /** Reachable rings keep the invariant, and no step adds a token. */
  lemma StepKeeps(r: Ring, e: Step)
    requires RingOk(r) && Inv(Filled(r)) && Possible(r, e)
    ensures var r' := Do(r, e);
            && RingOk(r') && |r'.x| == |r.x| && Inv(Filled(r'))
            && 1 <= Tokens(r') <= Tokens(r)
  {
    match e
    case Begin(i) =>
      BeginIsSilent(r, i);
      var j := NeverEmpty(Filled(r));
    case Round(i) =>
      RoundIsReceive(r, i);
      ReceiveCounts(Filled(r), i);
      ReceiveKeepsInv(Filled(r), i);
      var j := NeverEmpty(Filled(Do(r, e)));
  }

  /** In every run the number of tokens never grows and never reaches zero. */
  lemma {:induction false} RunKeeps(r: Ring, es: seq<Step>)
    requires RingOk(r) && Inv(Filled(r)) && IsRun(r, es)
    ensures var r' := Run(r, es);
            && RingOk(r') && |r'.x| == |r.x| && Inv(Filled(r'))
            && 1 <= Tokens(r') <= Tokens(r)
    decreases |es|
  {
    if es == [] {
      var j := NeverEmpty(Filled(r));
    } else {
      StepKeeps(r, es[0]);
      RunKeeps(Do(r, es[0]), es[1..]);
    }
  }

  /** From any initial values, at any point of any run there are between one and `|x|` tokens. */
  lemma AlwaysSomeToken(x: seq<Val>, es: seq<Step>)
    requires |x| >= 1 && IsRun(Initial(x), es)
    ensures var r := Run(Initial(x), es); RingOk(r) && 1 <= Tokens(r) <= |x|
  {
    InitialOk(x);
    RunKeeps(Initial(x), es);
  }

  /** Some process can always move: the ring never gets stuck. */
  lemma NeverStuck(r: Ring) returns (e: Step)
    requires RingOk(r) && Inv(Filled(r))
    ensures Possible(r, e)
  {
    var i := NeverEmpty(Filled(r));
    var p := Pred(i, |r.x|);
    if !r.started[p] {
      return Begin(p);
    }
    if !r.started[i] {
      return Begin(i);
    }
    return Round(i);
  }

  // ---------------------------------------------------------------- circulation

  /** The processes that do a round in a run, in order. */
  function Rounds(es: seq<Step>): (who: seq<nat>) {
    if es == [] then [] else
      match es[0]
      case Begin(_) => Rounds(es[1..])
      case Round(i) => [i] + Rounds(es[1..])
  }

  function RingOrder(i: nat, n: nat, len: nat): (who: seq<nat>)
    requires i < n
    ensures |who| == len
    decreases len
  {
    if len == 0 then [] else [i] + RingOrder(Succ(i, n), n, len - 1)
  }

  /** Every round in a run fires an action. */
  predicate AllFire(r: Ring, es: seq<Step>)
    requires IsRun(r, es)
    decreases |es|
  {
    es == [] || (
      && (es[0].Round? ==> Fires(State(r.x, r.pipes), es[0].i))
      && AllFire(Do(r, es[0]), es[1..]))
  }

  /** With one token there is one forever; every round acts, and the processes act in ring order. */
  lemma {:induction false} Circulates(r: Ring, i: nat, es: seq<Step>)
    requires RingOk(r) && TokenAt(Filled(r), i) && IsRun(r, es)
    ensures RingOk(Run(r, es)) && Tokens(Run(r, es)) == 1
    ensures AllFire(r, es) && Rounds(es) == RingOrder(i, |r.x|, |Rounds(es)|)
    decreases |es|
  {
    if es == [] {
      OneToken(Filled(r), i);
    } else {
      match es[0]
      case Begin(k) =>
        BeginIsSilent(r, k);
        Circulates(Do(r, es[0]), i, es[1..]);
      case Round(k) =>
        RoundIsReceive(r, k);
        TokenMoves(Filled(r), i, k);
        Circulates(Do(r, es[0]), Succ(i, |r.x|), es[1..]);
    }
  }

  lemma OneToken(s: State, i: nat)
    requires TokenAt(s, i)
    ensures Messages(s) == 1
  {
    SumSingle(s.pipes, i, |s.pipes|);
  }

  lemma {:induction false} SumSingle(pipes: seq<seq<Val>>, i: nat, j: nat)
    requires i < |pipes| && |pipes[i]| == 1 && j <= |pipes|
    requires forall k :: 0 <= k < |pipes| && k != i ==> pipes[k] == []
    ensures Sum(pipes, j) == if i < j then 1 else 0
  {
    if j > 0 {
      SumSingle(pipes, i, j - 1);
    }
  }

  lemma RingOrderStep(i: nat, n: nat, len: nat, m: nat)
    requires i < n && m < len
    ensures RingOrder(i, n, len)[m] == if m == 0 then i else RingOrder(Succ(i, n), n, len - 1)[m - 1]
  {}

  /** In ring order the first `n` rounds go once round the ring, starting with process `i`. */
  lemma {:induction false} RingOrderAt(i: nat, n: nat, len: nat, m: nat)
    requires i < n && m < len && m < n
    ensures RingOrder(i, n, len)[m] == if i + m < n then i + m else i + m - n
    decreases len
  {
    hide RingOrder;
    RingOrderStep(i, n, len, m);
    if m > 0 {
      RingOrderAt(Succ(i, n), n, len - 1, m - 1);
    }
  }

  /** And every round repeats `n` rounds later: each process acts once in every `n`. */
  lemma {:induction false} RingOrderRepeats(i: nat, n: nat, len: nat, m: nat)
    requires i < n <= m < len
    ensures RingOrder(i, n, len)[m] == RingOrder(i, n, len)[m - n]
    decreases len
  {
    hide RingOrder;
    var next := Succ(i, n);
    RingOrderStep(i, n, len, m);
    RingOrderStep(i, n, len, m - n);
    if m == n {
      RingOrderAt(next, n, len - 1, n - 1);
    } else {
      RingOrderRepeats(next, n, len - 1, m - 1);
    }
  }
}
