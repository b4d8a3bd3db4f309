/**
  Convergence of the token ring: whatever the initial values and the order of steps, every run with enough
  rounds is left with exactly one message. Between two losses the values taken by the processes form a
  table as in `TokenTable`, whatever the schedule, so a loss must come while two messages are left.
 */
module TokenConvergence {
  import opened TokenRing
  import opened TokenTable

  // ---------------------------------------------------------------- schedules

  /** `who` can do rounds in this order. */
  predicate IsSchedule(s: State, who: seq<nat>)
    decreases |who|
  {
    who == [] || (CanReceive(s, who[0]) && IsSchedule(Receive(s, who[0]), who[1..]))
  }

  function After(s: State, who: seq<nat>): State
    requires IsSchedule(s, who)
    decreases |who|
  {
    if who == [] then s else After(Receive(s, who[0]), who[1..])
  }

  predicate NoneLost(s: State, who: seq<nat>)
    requires IsSchedule(s, who)
    decreases |who|
  {
    who == [] || (Fires(s, who[0]) && NoneLost(Receive(s, who[0]), who[1..]))
  }

  // ---------------------------------------------------------------- traces

  /** Everything ever in the pipe of process `i`, if `y` lists the values of each process so far. */
  function Written(s0: State, y: Rows, i: nat): seq<Val>
    requires WellFormed(s0) && |y| == |s0.x| && i < |y| && y[Pred(i, |y|)] != []
  {
    s0.pipes[i] + y[Pred(i, |y|)][1..]
  }

  predicate TraceAt(s0: State, y: Rows, s: State, i: nat)
    requires WellFormed(s0) && WellFormed(s) && |y| == |s0.x| == |s.x| && i < |y|
  {
    && y[i] != [] && y[Pred(i, |y|)] != []
    && y[i][|y[i]| - 1] == s.x[i]
    && |y[i]| - 1 <= |Written(s0, y, i)| && s.pipes[i] == Written(s0, y, i)[|y[i]| - 1..]
    && forall r :: 1 <= r < |y[i]| ==> Acts(i, Written(s0, y, i)[r - 1], y[i][r - 1], y[i][r])
  }

  /** From `s0` to `s` without a loss, process `i` took the values `y[i]`. */
  predicate Trace(s0: State, y: Rows, s: State) {
    && WellFormed(s0) && WellFormed(s) && |y| == |s0.x| == |s.x|
    && forall i :: 0 <= i < |y| ==> TraceAt(s0, y, s, i)
  }

  lemma TraceStart(s: State)
    requires WellFormed(s)
    ensures var y := seq(|s.x|, i requires 0 <= i < |s.x| => [s.x[i]]); Trace(s, y, s)
  {}

  lemma TraceStep(s0: State, y: Rows, s: State, i: nat)
    requires Trace(s0, y, s) && CanReceive(s, i) && Fires(s, i)
    ensures var s' := Receive(s, i); Trace(s0, y[i := y[i] + [s'.x[i]]], s')
  {
    var s' := Receive(s, i);
    var y' := y[i := y[i] + [s'.x[i]]];
    forall k | 0 <= k < |y|
      ensures TraceAt(s0, y', s', k)
    {
      TraceStepAt(s0, y, s, i, k);
    }
  }

  lemma WrittenGrows(s0: State, y: Rows, i: nat, v: Val, k: nat)
    requires WellFormed(s0) && |y| == |s0.x| && i < |y| && k < |y| && y[Pred(k, |y|)] != []
    ensures Written(s0, y[i := y[i] + [v]], k) == Written(s0, y, k) + if k == Succ(i, |y|) then [v] else []
  {
    assert Pred(k, |y|) == i <==> k == Succ(i, |y|);
  }

  lemma TraceStepAt(s0: State, y: Rows, s: State, i: nat, k: nat)
    requires Trace(s0, y, s) && CanReceive(s, i) && Fires(s, i) && k < |y|
    ensures var s' := Receive(s, i); TraceAt(s0, y[i := y[i] + [s'.x[i]]], s', k)
  {
    hide Written, Enabled, Act;
    var s' := Receive(s, i);
    assert TraceAt(s0, y, s, k);
    WrittenGrows(s0, y, i, s'.x[i], k);
    if k == i {
      assert Written(s0, y, i)[|y[i]| - 1] == s.pipes[i][0];
    }
  }

  lemma {:induction false} Extend(s0: State, y: Rows, s: State, who: seq<nat>) returns (y': Rows)
    requires Trace(s0, y, s) && IsSchedule(s, who) && NoneLost(s, who)
    ensures Trace(s0, y', After(s, who)) && |y'| == |y| && Sum(y', |y'|) == Sum(y, |y|) + |who|
    decreases |who|
  {
    if who == [] {
      return y;
    }
    var i, s' := who[0], Receive(s, who[0]);
    TraceStep(s0, y, s, i);
    SumUpdate(y, i, y[i] + [s'.x[i]], |y|);
    y' := Extend(s0, y[i := y[i] + [s'.x[i]]], s', who[1..]);
  }

  // ---------------------------------------------------------------- all processes move

  /** Messages that were in the pipes between process 0 and process `i`. */
  function Shift(s: State, i: nat): nat
    requires WellFormed(s) && i < |s.x|
  {
    if i == 0 then 0 else Shift(s, i - 1) + |s.pipes[i]|
  }

  lemma {:induction false} ShiftSum(s: State, i: nat)
    requires WellFormed(s) && i < |s.x|
    ensures Shift(s, i) + |s.pipes[0]| == Sum(s.pipes, i + 1) <= Messages(s)
  {
    SumMonotone(s.pipes, i + 1, |s.pipes|);
    if i > 0 {
      ShiftSum(s, i - 1);
    }
  }

  lemma {:induction false} InStep(s0: State, y: Rows, s: State, i: nat)
    requires Trace(s0, y, s) && i < |y|
    ensures |y[i]| + Shift(s, i) == |y[0]| + Shift(s0, i)
  {
    assert TraceAt(s0, y, s, i);
    if i > 0 {
      InStep(s0, y, s, i - 1);
    }
  }

  lemma SameCount(s0: State, y: Rows, s: State)
    requires Trace(s0, y, s)
    ensures Messages(s) == Messages(s0)
  {
    var n := |y|;
    assert TraceAt(s0, y, s, 0);
    InStep(s0, y, s, n - 1);
    ShiftSum(s, n - 1);
    ShiftSum(s0, n - 1);
  }

  /** The product, by repeated addition. */
  function Times(n: nat, a: nat): nat {
    if n == 0 then 0 else Times(n - 1, a) + a
  }

  lemma {:induction false} TimesMonotone(n: nat, a: nat, b: nat)
    requires a <= b
    ensures Times(n, a) <= Times(n, b)
  {
    if n > 0 {
      TimesMonotone(n - 1, a, b);
    }
  }

  lemma {:induction false} TimesIsProduct(n: nat, a: nat)
    ensures Times(n, a) == n * a
  {
    if n > 0 {
      TimesIsProduct(n - 1, a);
      assert n * a == (n - 1) * a + a;
    }
  }

  lemma {:induction false} SumBound(y: Rows, j: nat, bound: nat)
    requires j <= |y| && forall i :: 0 <= i < j ==> |y[i]| <= bound
    ensures Sum(y, j) <= Times(j, bound)
  {
    if j > 0 {
      SumBound(y, j - 1, bound);
    }
  }

  /** No process is more than `k` rounds ahead of process 0 or behind it. */
  lemma Abreast(s0: State, y: Rows, s: State, i: nat)
    requires Trace(s0, y, s) && i < |y|
    ensures |y[0]| - Messages(s0) <= |y[i]| <= |y[0]| + Messages(s0)
  {
    InStep(s0, y, s, i);
    ShiftSum(s0, i);
    ShiftSum(s, i);
    SameCount(s0, y, s);
  }

  lemma EveryoneMoves(s0: State, y: Rows, s: State, m: nat)
    requires Trace(s0, y, s) && Sum(y, |y|) > Times(|y|, m + 2 * Messages(s0))
    ensures forall i :: 0 <= i < |y| ==> |y[i]| > m
  {
    var k := Messages(s0);
    forall i | 0 <= i < |y|
      ensures |y[i]| <= |y[0]| + k && |y[0]| <= |y[i]| + k
    {
      Abreast(s0, y, s, i);
    }
    SumBound(y, |y|, |y[0]| + k);
    if |y[0]| <= m + k {
      TimesMonotone(|y|, |y[0]| + k, m + 2 * k);
    }
  }

  // ---------------------------------------------------------------- from traces to tables

  predicate LongEnough(s0: State, y: Rows, h: nat)
    requires WellFormed(s0) && |y| == |s0.x|
  {
    forall i :: 0 <= i < |y| ==> |y[i]| > Shift(s0, i) + h
  }

  function TableOf(s0: State, y: Rows, h: nat): (u: Rows)
    requires WellFormed(s0) && |y| == |s0.x| && LongEnough(s0, y, h)
    ensures Sized(u, h) && |u| == |y|
    ensures forall i, n :: 0 <= i < |u| && 0 <= n <= h ==> u[i][n] == y[i][Shift(s0, i) + n]
  {
    seq(|y|, i requires 0 <= i < |y| => y[i][Shift(s0, i)..Shift(s0, i) + h + 1])
  }

  lemma CellsFollow(s0: State, y: Rows, s: State, h: nat, i: nat, n: nat)
    requires Trace(s0, y, s) && LongEnough(s0, y, h) && 1 <= i < |y| && 1 <= n <= h
    ensures CellOk(TableOf(s0, y, h), h, i, n)
  {
    var u, r := TableOf(s0, y, h), Shift(s0, i) + n;
    assert TraceAt(s0, y, s, i);
    assert Acts(i, Written(s0, y, i)[r - 1], y[i][r - 1], y[i][r]);
    assert u[i][n - 1] == y[i][r - 1];
  }

  lemma FirstRowFollows(s0: State, y: Rows, s: State, h: nat, n: nat)
    requires Trace(s0, y, s) && LongEnough(s0, y, h) && Messages(s0) < n <= h
    ensures FirstOk(TableOf(s0, y, h), Messages(s0), h, n)
  {
    hide Enabled, Act, Sum;
    var u, last := TableOf(s0, y, h), |y| - 1;
    assert TraceAt(s0, y, s, 0);
    ShiftSum(s0, last);
    assert Acts(0, Written(s0, y, 0)[n - 1], y[0][n - 1], y[0][n]);
    assert Written(s0, y, 0)[n - 1] == y[last][n - |s0.pipes[0]|];
    assert u[last][n - Messages(s0)] == y[last][n - |s0.pipes[0]|];
    assert u[0][n - 1] == y[0][n - 1] && u[0][n] == y[0][n];
  }

  /** A trace is a table, read along the messages. */
  lemma {:induction false} TraceIsTable(s0: State, y: Rows, s: State, h: nat)
    requires Trace(s0, y, s) && LongEnough(s0, y, h)
    ensures Table(TableOf(s0, y, h), Messages(s0), h)
  {
    hide TraceAt, CellOk, FirstOk, Sized;
    var u := TableOf(s0, y, h);
    forall i, n | 1 <= i < |u| && 1 <= n <= h
      ensures CellOk(u, h, i, n)
    {
      CellsFollow(s0, y, s, h, i, n);
    }
    forall n | Messages(s0) < n <= h
      ensures FirstOk(u, Messages(s0), h, n)
    {
      FirstRowFollows(s0, y, s, h, n);
    }
  }

  // ---------------------------------------------------------------- losses come

  /** Rounds within which a ring of `n` processes with two or more messages loses one. */
  function Patience(n: nat): nat {
    Times(n, Horizon(n) + 3 * n)
  }

  /** `who` can do that many rounds, starting with at least two messages. */
  predicate LongSchedule(s: State, who: seq<nat>) {
    WellFormed(s) && IsSchedule(s, who) && 2 <= Messages(s) <= |s.x| && |who| >= Patience(|s.x|)
  }

  lemma {:induction false} SomethingIsLost(s: State, who: seq<nat>)
    requires LongSchedule(s, who)
    ensures !NoneLost(s, who)
  {
    if NoneLost(s, who) {
      var n, k, h := |s.x|, Messages(s), Horizon(|s.x|);
      var y0: Rows := seq(n, i requires 0 <= i < n => [s.x[i]]);
      TraceStart(s);
      SumOfOnes(y0, n);
      var y := Extend(s, y0, s, who);
      TimesMonotone(n, (h + k) + 2 * k, h + 3 * n);
      EveryoneMoves(s, y, After(s, who), h + k);
      forall i | 0 <= i < n
        ensures |y[i]| > Shift(s, i) + h
      {
        ShiftSum(s, i);
      }
      TraceIsTable(s, y, After(s, who), h);
      NoTable(TableOf(s, y, h), k, h);
    }
  }

  lemma {:induction false} Append(s: State, a: seq<nat>, b: seq<nat>)
    requires IsSchedule(s, a + b)
    ensures IsSchedule(s, a) && IsSchedule(After(s, a), b) && After(s, a + b) == After(After(s, a), b)
    decreases |a|
  {
    if a == [] {
      assert a + b == b;
    } else {
      assert (a + b)[0] == a[0] && (a + b)[1..] == a[1..] + b;
      Append(Receive(s, a[0]), a[1..], b);
    }
  }

  lemma {:induction false} AfterKeeps(s: State, who: seq<nat>)
    requires Inv(s) && IsSchedule(s, who)
    ensures var s' := After(s, who);
            && Inv(s') && |s'.x| == |s.x| && 1 <= Messages(s') <= Messages(s)
            && (NoneLost(s, who) || Messages(s') < Messages(s))
    decreases |who|
  {
    if who == [] {
      var i := NeverEmpty(s);
    } else {
      ReceiveCounts(s, who[0]);
      ReceiveKeepsInv(s, who[0]);
      AfterKeeps(Receive(s, who[0]), who[1..]);
    }
  }

  /** With enough rounds one message is left, whoever does them. */
  lemma {:induction false} Converges(s: State, who: seq<nat>, k: nat)
    requires Inv(s) && IsSchedule(s, who) && Messages(s) <= k + 1 <= |s.x| && |who| >= Times(k, Patience(|s.x|))
    ensures Messages(After(s, who)) == 1
    decreases k
  {
    hide Patience, IsSchedule, InvAt, After, NoneLost, Messages;
    AfterKeeps(s, who);
    if k > 0 && Messages(s) > 1 {
      var w := Patience(|s.x|);
      var first, rest := who[..w], who[w..];
      assert who == first + rest;
      Append(s, first, rest);
      SomethingIsLost(s, first);
      AfterKeeps(s, first);
      Converges(After(s, first), rest, k - 1);
    }
  }

  // ---------------------------------------------------------------- runs of the ring

  /** Apart from first sends, a run is a schedule. */
  lemma {:induction false} RunIsSchedule(r: Ring, es: seq<Step>)
    requires RingOk(r) && IsRun(r, es)
    ensures IsSchedule(Filled(r), Rounds(es)) && RingOk(Run(r, es))
    ensures Filled(Run(r, es)) == After(Filled(r), Rounds(es))
    decreases |es|
  {
    if es != [] {
      match es[0] {
        case Begin(i) => BeginIsSilent(r, i);
        case Round(i) => RoundIsReceive(r, i);
      }
      RunIsSchedule(Do(r, es[0]), es[1..]);
    }
  }

  function Waiting(started: seq<bool>): nat {
    if started == [] then 0 else (if started[0] then 0 else 1) + Waiting(started[1..])
  }

  lemma {:induction false} OneLessWaiting(started: seq<bool>, i: nat)
    requires i < |started| && !started[i]
    ensures Waiting(started[i := true]) == Waiting(started) - 1
  {
    if i > 0 {
      OneLessWaiting(started[1..], i - 1);
      assert started[i := true][1..] == started[1..][i - 1 := true];
    } else {
      assert started[0 := true][1..] == started[1..];
    }
  }

  lemma {:induction false} WaitingBound(started: seq<bool>)
    ensures Waiting(started) <= |started|
  {
    if started != [] {
      WaitingBound(started[1..]);
    }
  }

  /** Every process sends first only once; all other steps are rounds. */
  lemma {:induction false} MostStepsAreRounds(r: Ring, es: seq<Step>)
    requires RingOk(r) && IsRun(r, es)
    ensures |es| <= |Rounds(es)| + Waiting(r.started)
    decreases |es|
  {
    if es != [] {
      match es[0] {
        case Begin(i) =>
          BeginIsSilent(r, i);
          OneLessWaiting(r.started, i);
        case Round(i) =>
          RoundIsReceive(r, i);
      }
      MostStepsAreRounds(Do(r, es[0]), es[1..]);
    }
  }

  /** Steps after which a ring of `n` processes has stabilized. */
  function StepsToStabilize(n: nat): nat {
    if n == 0 then 0 else n + Times(n - 1, Patience(n))
  }

  /** That is cubic in the number of processes. */
  lemma StabilizesInCubicTime(n: nat)
    ensures Patience(n) == n * (9 * n + 10)
    ensures n >= 1 ==> StepsToStabilize(n) == n + (n - 1) * (n * (9 * n + 10))
  {
    TimesIsProduct(n, Horizon(n) + 3 * n);
    if n >= 1 {
      TimesIsProduct(n - 1, Patience(n));
    }
  }

  /** From any initial values, every run of that many steps ends with exactly one token. */
  lemma {:induction false} Stabilizes(x: seq<Val>, es: seq<Step>)
    requires |x| >= 1 && IsRun(Initial(x), es) && |es| >= StepsToStabilize(|x|)
    ensures RingOk(Run(Initial(x), es)) && Tokens(Run(Initial(x), es)) == 1
  {
    var r := Initial(x);
    InitialOk(x);
    WaitingBound(r.started);
    MostStepsAreRounds(r, es);
    RunIsSchedule(r, es);
    Converges(Filled(r), Rounds(es), |x| - 1);
  }

  /** And from then on the processes act in turn. */
  lemma {:induction false} StabilizesForGood(x: seq<Val>, es: seq<Step>, later: seq<Step>) returns (i: nat)
    requires |x| >= 1 && IsRun(Initial(x), es) && |es| >= StepsToStabilize(|x|)
    requires IsRun(Run(Initial(x), es), later)
    ensures var r := Run(Initial(x), es);
            && i < |x| && AllFire(r, later) && Rounds(later) == RingOrder(i, |x|, |Rounds(later)|)
            && RingOk(Run(r, later)) && Tokens(Run(r, later)) == 1
  {
    var r := Run(Initial(x), es);
    InitialOk(x);
    RunKeeps(Initial(x), es);
    Stabilizes(x, es);
    i := OneMessage(Filled(r));
    Circulates(r, i, later);
  }
}
