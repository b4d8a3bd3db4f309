/**
  Clock offset and round-trip time: the formulas and the drift of toxav/dummy_ntp.c, and the smoothing of
  the round-trip time in toxav/rtp.c.
 */
module Clock {
  import opened Words

  const I64_LIMIT: int := 0x8000_0000_0000_0000

  type i64 = x: int | -0x8000_0000_0000_0000 <= x < 0x8000_0000_0000_0000

  function Abs(x: int): nat {
    if x < 0 then -x else x
  }

  // ---------------------------------------------------------------- offset and delay

  /** Division of C, which rounds toward zero. */
  function HalfTowardZero(x: int): int {
    if x >= 0 then x / 2 else -(-x / 2)
  }

  function CalcOffset(remoteStart: u32, remoteEnd: u32, localStart: u32, localEnd: u32): (offset: i64)
    ensures Abs(offset) < U32_LIMIT
  {
    HalfTowardZero((remoteStart - localStart) + (remoteEnd - localEnd))
  }

  function SubU32(a: u32, b: u32): u32 {
    (a - b) % U32_LIMIT
  }

  function CalcRoundTripDelay(remoteStart: u32, remoteEnd: u32, localStart: u32, localEnd: u32): u32 {
    SubU32(SubU32(localEnd, localStart), SubU32(remoteEnd, remoteStart))
  }

  /**
    One exchange: sent at local time `t`, `a` on its way, handled for `p`, `b` on its way back; the remote
    clock is ahead by `d`. Both clocks count milliseconds modulo 2^32.
   */
  datatype Exchange = Exchange(t: int, a: nat, p: nat, b: nat, d: int)
  {
    function LocalStart(): int { t }
    function RemoteStart(): int { t + a + d }
    function RemoteEnd(): int { t + a + d + p }
    function LocalEnd(): int { t + a + p + b }

    function Offset(): (offset: i64)
    {
      CalcOffset(RemoteStart() % U32_LIMIT, RemoteEnd() % U32_LIMIT, LocalStart() % U32_LIMIT, LocalEnd() % U32_LIMIT)
    }

    function Delay(): u32 {
      CalcRoundTripDelay(RemoteStart() % U32_LIMIT, RemoteEnd() % U32_LIMIT, LocalStart() % U32_LIMIT, LocalEnd() % U32_LIMIT)
    }

    /** How often the stamps of the remote clock have wrapped, beyond those of the local one. */
    function Wraps(): int {
      (RemoteStart() / U32_LIMIT - LocalStart() / U32_LIMIT) + (RemoteEnd() / U32_LIMIT - LocalEnd() / U32_LIMIT)
    }
  }

  /** The delay is the time spent on both ways, even when clocks wrap. */
  lemma {:induction false} DelayIsBothWays(e: Exchange)
    requires e.a + e.b < U32_LIMIT
    ensures e.Delay() == e.a + e.b
  {
    hide SubU32;
    SubWrapped(e.LocalEnd(), e.LocalStart());
    SubWrapped(e.RemoteEnd(), e.RemoteStart());
    SubWrapped(e.LocalEnd() - e.LocalStart(), e.RemoteEnd() - e.RemoteStart());
  }

  lemma SubWrapped(x: int, y: int)
    ensures SubU32(x % U32_LIMIT, y % U32_LIMIT) == (x - y) % U32_LIMIT
  {
    var q := x / U32_LIMIT - y / U32_LIMIT;
    SameRemainder(x - y, x % U32_LIMIT - y % U32_LIMIT, q);
  }

  lemma SameRemainder(x: int, y: int, q: int)
    requires x == y + U32_LIMIT * q
    ensures x % U32_LIMIT == y % U32_LIMIT
  {}

  lemma OffsetWithWraps(e: Exchange)
    ensures e.Offset() == HalfTowardZero(2 * e.d + e.a - e.b - U32_LIMIT * e.Wraps())
  {}

  /** Twice the error of the offset is at most the difference of the two ways plus one. */
  predicate OffsetGood(e: Exchange) {
    Abs(2 * e.Offset() - 2 * e.d) <= Abs(e.a - e.b) + 1
  }

  /** That bound holds exactly when the wraps of the two clocks cancel out. */
  lemma OffsetErrorBound(e: Exchange)
    requires Abs(e.a - e.b) < 0x7fff_ffff
    ensures OffsetGood(e) <==> e.Wraps() == 0
    ensures e.Wraps() == 0 && e.a == e.b ==> e.Offset() == e.d
  {
    OffsetWithWraps(e);
    var w := e.Wraps();
    if w >= 1 { assert U32_LIMIT * w >= U32_LIMIT; }
    if w <= -1 { assert U32_LIMIT * w <= -U32_LIMIT; }
  }

  /** A clock that wraps between the two readings spoils the offset. */
  lemma WrapSpoilsOffset()
    ensures exists e: Exchange :: e.a == e.b == 1 && e.d == 5 && e.Offset() != e.d && !OffsetGood(e)
  {
    var e := Exchange(U32_LIMIT - 4, 1, 0, 1, 5);
    assert e.RemoteStart() == U32_LIMIT + 2 && e.RemoteEnd() == U32_LIMIT + 2 && e.LocalEnd() == U32_LIMIT - 2;
    assert e.Offset() == 5 - U32_LIMIT;
  }

  // ---------------------------------------------------------------- drift

  /** One call of dntp_drift. */
  function Drifted(current: int, target: int, maxDrift: int, jitter: nat): int {
    var gap := Abs(target - current);
    if gap > maxDrift then target
    else if target == current then current
    else if gap > jitter then (if target < current then current - 1 else current + 1)
    else current
  }

  function DriftTimes(current: int, target: int, maxDrift: int, jitter: nat, n: nat): int
    decreases n
  {
    if n == 0 then current else DriftTimes(Drifted(current, target, maxDrift, jitter), target, maxDrift, jitter, n - 1)
  }

  /** Distance left after `n` calls, from a distance of `gap`. */
  function DriftGap(gap: nat, maxDrift: int, jitter: nat, n: nat): nat {
    if n == 0 || (gap <= jitter && gap <= maxDrift) then gap
    else if gap > maxDrift then 0
    else if gap - n > jitter then gap - n
    else jitter
  }

  /** `v` at distance `gap` from `target`, on the side `current` is on. */
  function OnSide(current: int, target: int, gap: nat): int {
    if current < target then target - gap else target + gap
  }

  /** Repeated drift stays on its side of the target at exactly this distance: it never overshoots. */
  lemma {:induction false} DriftExact(current: int, target: int, maxDrift: int, jitter: nat, n: nat)
    ensures DriftTimes(current, target, maxDrift, jitter, n)
         == OnSide(current, target, DriftGap(Abs(target - current), maxDrift, jitter, n))
    decreases n
  {
    if n > 0 {
      DriftExact(Drifted(current, target, maxDrift, jitter), target, maxDrift, jitter, n - 1);
    }
  }

  function DriftSteps(gap: nat, maxDrift: int, jitter: nat): nat {
    if gap <= jitter then 0 else if gap > maxDrift then 1 else gap - jitter
  }

  /** It is within the jitter exactly from call number `DriftSteps` on. */
  lemma DriftArrives(current: int, target: int, maxDrift: int, jitter: nat, n: nat)
    ensures Abs(target - DriftTimes(current, target, maxDrift, jitter, n)) <= jitter
       <==> n >= DriftSteps(Abs(target - current), maxDrift, jitter)
  {
    DriftExact(current, target, maxDrift, jitter, n);
  }

  // ---------------------------------------------------------------- round-trip time

  const CHANGE_THRESHOLD: int := 10
  const FUZZ_THRESHOLD: int := 150

  function AddU32(a: u32, b: u32): u32 {
    (a + b) % U32_LIMIT
  }

  /** The update of rountrip_time_ms, in 32-bit arithmetic. */
  function Smooth(current: u32, sample: u32): u32 {
    if sample > AddU32(current, CHANGE_THRESHOLD) then
      if sample > AddU32(current, FUZZ_THRESHOLD) then AddU32(current, 40) else AddU32(current, 1)
    else if AddU32(sample, CHANGE_THRESHOLD) < current then
      if AddU32(sample, FUZZ_THRESHOLD) < current then (current - 40) % U32_LIMIT else (current - 1) % U32_LIMIT
    else current
  }

  /** The distance to the sample after an update without wrap-around. */
  function Closer(gap: nat): nat {
    if gap > FUZZ_THRESHOLD then gap - 40 else if gap > CHANGE_THRESHOLD then gap - 1 else gap
  }

  /** No sum of this update wraps in a way that matters. */
  predicate Tame(current: u32, sample: u32) {
    || current + FUZZ_THRESHOLD < U32_LIMIT
    || (&& current + CHANGE_THRESHOLD < U32_LIMIT
        && sample <= current + CHANGE_THRESHOLD && sample + CHANGE_THRESHOLD < U32_LIMIT
        && (current <= sample + CHANGE_THRESHOLD || sample + FUZZ_THRESHOLD < U32_LIMIT))
    || sample + U32_LIMIT <= current + CHANGE_THRESHOLD
  }

  /** The update moves toward the sample without overshooting exactly when it is tame. */
  lemma SmoothExact(current: u32, sample: u32)
    ensures Smooth(current, sample) == OnSide(current, sample, Closer(Abs(sample - current))) <==> Tame(current, sample)
  {
    hide AddU32;
    AddWraps(current, CHANGE_THRESHOLD);
    AddWraps(current, FUZZ_THRESHOLD);
    AddWraps(sample, CHANGE_THRESHOLD);
    AddWraps(sample, FUZZ_THRESHOLD);
    AddWraps(current, 40);
    AddWraps(current, 1);
  }

  lemma AddWraps(a: u32, b: u32)
    ensures AddU32(a, b) == if a + b < U32_LIMIT then a + b else a + b - U32_LIMIT
  {}

  /** Near 2^32 the update can jump away from the sample. */
  lemma SmoothCanOvershoot()
    ensures Smooth(U32_LIMIT - 30, U32_LIMIT - 1) == 10
  {}

  function SmoothTimes(current: u32, sample: u32, n: nat): u32
    decreases n
  {
    if n == 0 then current else SmoothTimes(Smooth(current, sample), sample, n - 1)
  }

  /** Updates needed from a distance of `gap`. */
  function SmoothSteps(gap: nat): nat {
    if gap <= CHANGE_THRESHOLD then 0
    else if gap <= FUZZ_THRESHOLD then gap - CHANGE_THRESHOLD
    else
      var jumps := (gap - 111) / 40;
      jumps + (gap - 40 * jumps - CHANGE_THRESHOLD)
  }

  lemma CloserIsSooner(gap: nat)
    ensures SmoothSteps(Closer(gap)) == if gap <= CHANGE_THRESHOLD then 0 else SmoothSteps(gap) - 1
    ensures Closer(gap) <= gap && (SmoothSteps(gap) == 0 <==> gap <= CHANGE_THRESHOLD)
  {}

  /** The distance after `n` updates without wrap-around. */
  function GapAfter(gap: nat, n: nat): nat
    decreases n
  {
    if n == 0 then gap else GapAfter(Closer(gap), n - 1)
  }

  /** No update toward this sample, now or later, wraps in a way that matters. */
  predicate Gentle(current: u32, sample: u32) {
    Tame(current, sample) && (sample + 140 <= U32_LIMIT || Abs(sample - current) <= CHANGE_THRESHOLD)
  }

  lemma GentleStays(current: u32, sample: u32)
    requires Gentle(current, sample)
    ensures Smooth(current, sample) == OnSide(current, sample, Closer(Abs(sample - current)))
    ensures Gentle(Smooth(current, sample), sample)
  {
    hide Smooth;
    SmoothExact(current, sample);
  }

  lemma {:induction false} GentleRun(current: u32, sample: u32, n: nat)
    requires Gentle(current, sample)
    ensures SmoothTimes(current, sample, n) == OnSide(current, sample, GapAfter(Abs(sample - current), n))
    ensures GapAfter(Abs(sample - current), n) <= Abs(sample - current)
    decreases n
  {
    hide Smooth, Gentle;
    if n > 0 {
      GentleStays(current, sample);
      GentleRun(Smooth(current, sample), sample, n - 1);
    }
  }

  lemma {:induction false} RoughRun(current: u32, sample: u32) returns (n: nat)
    requires !Gentle(current, sample)
    ensures SmoothTimes(current, sample, n) != OnSide(current, sample, GapAfter(Abs(sample - current), n))
    decreases Abs(sample - current)
  {
    hide Smooth;
    SmoothExact(current, sample);
    var gap := Abs(sample - current);
    if !Tame(current, sample) {
      n := 1;
      assert SmoothTimes(current, sample, 1) == SmoothTimes(Smooth(current, sample), sample, 0);
      assert GapAfter(gap, 1) == GapAfter(Closer(gap), 0);
    } else {
      var next := Smooth(current, sample);
      n := RoughRun(next, sample);
      assert SmoothTimes(current, sample, n + 1) == SmoothTimes(next, sample, n);
      assert GapAfter(gap, n + 1) == GapAfter(Closer(gap), n);
      n := n + 1;
    }
  }

  /** Repeated updates toward a constant sample never overshoot, and get closer as they should, if and only
      if the first one is tame and the sample leaves room for the thresholds or is reached already. */
  lemma SmoothRunExact(current: u32, sample: u32)
    ensures (forall n: nat :: SmoothTimes(current, sample, n) == OnSide(current, sample, GapAfter(Abs(sample - current), n)))
       <==> Gentle(current, sample)
  {
    hide Smooth, Gentle, SmoothTimes, GapAfter;
    if Gentle(current, sample) {
      forall n: nat
        ensures SmoothTimes(current, sample, n) == OnSide(current, sample, GapAfter(Abs(sample - current), n))
      {
        GentleRun(current, sample, n);
      }
    } else {
      var n := RoughRun(current, sample);
    }
  }

  lemma {:induction false} GapArrives(gap: nat, n: nat)
    ensures GapAfter(gap, n) <= CHANGE_THRESHOLD <==> n >= SmoothSteps(gap)
    decreases n
  {
    hide SmoothSteps, Closer;
    CloserIsSooner(gap);
    if n > 0 {
      GapArrives(Closer(gap), n - 1);
    }
  }

  /** Toward a constant sample the smoothed time stays on its side, gets no farther away, and is within the
      threshold exactly from update number `SmoothSteps` on. */
  lemma {:induction false} SmoothArrives(current: u32, sample: u32, n: nat)
    requires Gentle(current, sample)
    ensures var v, gap := SmoothTimes(current, sample, n), Abs(sample - current);
            && (current <= sample ==> current <= v <= sample) && (current >= sample ==> current >= v >= sample)
            && (Abs(sample - v) <= CHANGE_THRESHOLD <==> n >= SmoothSteps(gap))
  {
    hide Gentle, SmoothSteps, SmoothTimes, GapAfter;
    GentleRun(current, sample, n);
    GapArrives(Abs(sample - current), n);
  }

  // ---------------------------------------------------------------- the session's fields

  /** The fields of the video session the measurements update. */
  class VideoClock {
    var roundTripMs: u32
    var offset: i64

    constructor ()
      ensures roundTripMs == 0 && offset == 0
    {
      roundTripMs, offset := 0, 0;
    }

    /** dntp_drift on the offset field; the difference must fit its type. */
    method Drift(newOffset: i64, maxDrift: i64, jitter: u32) returns (jumped: bool)
      requires Abs(newOffset - offset) < I64_LIMIT
      modifies `offset
      ensures offset == Drifted(old(offset), newOffset, maxDrift, jitter)
      ensures jumped <==> Abs(newOffset - old(offset)) > maxDrift
    {
      var gap: i64 := if newOffset > offset then newOffset - offset else offset - newOffset;
      if gap > maxDrift {
        offset := newOffset;
        return true;
      }
      if newOffset == offset {
        return false;
      }
      if gap > jitter {
        var delta := 1;
        if newOffset < offset {
          delta := -1;
        }
        offset := offset + delta;
      }
      return false;
    }

    method SmoothRoundTrip(sample: u32)
      modifies `roundTripMs
      ensures roundTripMs == Smooth(old(roundTripMs), sample)
    {
      if sample > AddU32(roundTripMs, CHANGE_THRESHOLD) {
        if sample > AddU32(roundTripMs, FUZZ_THRESHOLD) {
          roundTripMs := AddU32(roundTripMs, 40);
        } else {
          roundTripMs := AddU32(roundTripMs, 1);
        }
      } else if AddU32(sample, CHANGE_THRESHOLD) < roundTripMs {
        if AddU32(sample, FUZZ_THRESHOLD) < roundTripMs {
          roundTripMs := SubU32(roundTripMs, 40);
        } else {
          roundTripMs := SubU32(roundTripMs, 1);
        }
      }
    }
  }
}
