/**
 The time arithmetic of the 8254 emulation: nanoseconds to 1193182 Hz ticks and back, the output of a
 programmed channel, and the prediction of its next change.  Everything here is a function of the channel's
 mode, count and load time and of a time in nanoseconds, as in the source.
 */
module PitTiming {
  import D = Division

  const PIT_FREQ: nat := 1193182
  const NS_IN_S: nat := 1000000000

  /** Half of PIT_FREQ: the ticks whose start is a whole number of nanoseconds are the multiples of this. */
  const GRID: nat := 596591

  /** A channel as the timing code sees it. */
  datatype Program = Program(mode: nat, count: nat, loadTime: nat) {
    predicate Valid() {
      mode < 8 && 1 <= count <= 65536
    }
  }

  /** Elapsed nanoseconds to elapsed ticks; the library's `muldivu64` rounds down. */
  function Ticks(ns: nat): nat {
    ns * PIT_FREQ / NS_IN_S
  }

  /** Ticks to nanoseconds, rounded down. */
  function Nanos(ticks: nat): nat {
    ticks * NS_IN_S / PIT_FREQ
  }

  function RoundDown(d: nat, count: nat): nat
    requires count > 0
  {
    d / count * count
  }

  /** The counter value read back, `d` ticks after the load. */
  function CountAt(mode: nat, count: nat, d: nat): int
    requires count > 0
  {
    if mode in {0, 1, 4, 5} then (count - d) % 65536
    else if mode == 3 then count - 2 * d % count
    else count - d % count
  }

  /** The output bit, `d` ticks after the load.  Modes 6 and 7 take the default branch. */
  function OutAt(mode: nat, count: nat, d: nat): bool
    requires count > 0
  {
    if mode == 1 then d < count
    else if mode == 2 then d % count == 0 && d != 0
    else if mode == 3 then d % count < (count + 1) / 2
    else if mode == 4 || mode == 5 then d == count
    else d >= count
  }

  datatype NextTick = Never | At(tick: nat)

  /** The tick the code schedules for, before conversion to nanoseconds. */
  function ScheduledTick(mode: nat, count: nat, d: nat): NextTick
    requires count > 0
  {
    var base := RoundDown(d, count);
    if mode == 2 then
      if d - base == 0 && d != 0 then At(base + count) else At(base + count + 1)
    else if mode == 3 then
      var period2 := (count + 1) / 2;
      if d - base < period2 then At(base + period2) else At(base + count)
    else if mode == 4 || mode == 5 then
      if d < count then At(count) else if d == count then At(count + 1) else Never
    else
      if d < count then At(count) else Never
  }

  function Elapsed(p: Program, now: nat): nat
    requires p.loadTime <= now
  {
    Ticks(now - p.loadTime)
  }

  function Out(p: Program, now: nat): bool
    requires p.Valid() && p.loadTime <= now
  {
    OutAt(p.mode, p.count, Elapsed(p, now))
  }

  /** The absolute time of the next transition, or -1. */
  function NextTransition(p: Program, now: nat): int
    requires p.Valid() && p.loadTime <= now
  {
    match ScheduledTick(p.mode, p.count, Elapsed(p, now))
    case Never => -1
    case At(tick) =>
      var next := p.loadTime + Nanos(tick);
      if next <= now then now + 1 else next
  }

  // ---- Rounding ----------------------------------------------------------------------------------------

  /** The first nanosecond of a tick. */
  ghost function First(tick: nat): nat {
    (tick * NS_IN_S + PIT_FREQ - 1) / PIT_FREQ
  }

  /** A tick has been reached exactly from its first nanosecond on. */
  lemma TicksReached(ns: nat, k: nat)
    ensures Ticks(ns) >= k <==> ns >= First(k)
  {
  }

  /** The tick count is exactly k between the first nanosecond of k and that of k + 1. */
  lemma TickInterval(ns: nat, k: nat)
    ensures Ticks(ns) == k <==> First(k) <= ns < First(k + 1)
  {
    TicksReached(ns, k);
    TicksReached(ns, k + 1);
  }

  /** 5*10^8 is invertible modulo 596591, so only multiples of it start on a whole nanosecond. */
  lemma OnGrid(k: nat)
    ensures k * NS_IN_S % PIT_FREQ == 0 <==> k % GRID == 0
  {
    if k % GRID == 0 {
      DividesScaled(k, k / GRID);
    }
    if k * NS_IN_S % PIT_FREQ == 0 {
      Unscaled(k, k * NS_IN_S / PIT_FREQ);
    }
  }

  lemma DividesScaled(k: nat, m: nat)
    requires k == GRID * m
    ensures k * NS_IN_S % PIT_FREQ == 0
  {
    assert k * NS_IN_S == PIT_FREQ * (m * 500000000);
  }

  lemma Unscaled(k: nat, q: nat)
    requires k * NS_IN_S == PIT_FREQ * q
    ensures k % GRID == 0
  {
    GridMultiple(k, q * 570863 - 478437489 * k);
  }

  lemma GridMultiple(k: nat, m: int)
    requires k == GRID * m
    ensures k % GRID == 0
  {
  }

  /** Converting a tick to nanoseconds rounds to its first nanosecond on the grid and one short of it off the grid. */
  lemma NanosRounding(k: nat)
    ensures Nanos(k) == if k % GRID == 0 then First(k) else First(k) - 1
    ensures Ticks(Nanos(k)) == if k % GRID == 0 then k else k - 1
    ensures First(k) + 837 < First(k + 1)
  {
    OnGrid(k);
    TickInterval(Nanos(k), k);
    if k > 0 {
      TickInterval(Nanos(k), k - 1);
    }
  }

  // ---- The counter read back ---------------------------------------------------------------------------

  lemma NextRemainder(d: nat, count: nat)
    requires count > 0
    ensures (d + 1) % count == if d % count + 1 == count then 0 else d % count + 1
  {
    var k := d / count;
    D.Successor(k, count);
    if d % count + 1 == count {
      D.BlockOf(d + 1, count, k + 1);
    } else {
      D.BlockOf(d + 1, count, k);
    }
  }

  /** In the one-shot modes the counter starts at the count and goes down through zero, modulo 65536. */
  lemma OneShotCountsDown(mode: nat, count: nat, d: nat)
    requires 1 <= count <= 65536 && mode in {0, 1, 4, 5}
    ensures CountAt(mode, count, 0) == count % 65536
    ensures (CountAt(mode, count, d) - CountAt(mode, count, d + 1)) % 65536 == 1
  {
  }

  /** The rate generator counts from the count down to 1 and starts again. */
  lemma RateCountsDown(count: nat, d: nat)
    requires 1 <= count <= 65536
    ensures CountAt(2, count, 0) == count && 1 <= CountAt(2, count, d) <= count
    ensures CountAt(2, count, d + 1) == if CountAt(2, count, d) == 1 then count else CountAt(2, count, d) - 1
  {
    NextRemainder(d, count);
    NextRemainder(0, count);
    assert 0 % count == 0;
  }

  /** A square wave of even count counts down by twos to 2 and starts again. */
  lemma SquareCountsDown(half: nat, d: nat)
    requires 1 <= half <= 32768
    ensures var count := 2 * half;
            && CountAt(3, count, 0) == count && 2 <= CountAt(3, count, d) <= count
            && CountAt(3, count, d + 1) == if CountAt(3, count, d) == 2 then count else CountAt(3, count, d) - 2
  {
    EvenRemainder(0, half);
    EvenRemainder(d, half);
    EvenRemainder(d + 1, half);
    NextRemainder(d, half);
    assert 0 % half == 0;
  }

  lemma EvenRemainder(d: nat, half: nat)
    requires half > 0
    ensures 2 * d % (2 * half) == 2 * (d % half)
  {
    var k := d / half;
    assert 2 * d == k * (2 * half) + 2 * (d % half);
    D.BlockOf(2 * d, 2 * half, k);
  }

  // ---- The prediction agrees with the output -----------------------------------------------------------

  lemma BlockOf(d: nat, count: nat, k: nat)
    requires count > 0
    requires k * count <= d < k * count + count
    ensures d / count == k && d % count == d - k * count && RoundDown(d, count) == k * count
  {
    D.BlockOf(d, count, k);
  }

  lemma RoundDownBounds(d: nat, count: nat)
    requires count > 0
    ensures RoundDown(d, count) == d - d % count
    ensures RoundDown(d, count) <= d < RoundDown(d, count) + count
  {
  }

  /** Whether the scheduling contract speaks about this channel: every mode but the rate generator. */
  predicate EdgeMode(p: Program) {
    p.mode != 2
  }

  /** A square wave of count 1 is high all the time, though the code goes on scheduling. */
  predicate NeverFalls(mode: nat, count: nat) {
    mode == 3 && count == 1
  }

  /** In ticks: nothing changes before the scheduled tick, and the output differs at it unless it never does. */
  lemma OutUntilScheduled(mode: nat, count: nat, d: nat, e: nat)
    requires count > 0 && mode != 2 && d <= e
    ensures match ScheduledTick(mode, count, d)
            case Never => OutAt(mode, count, e) == OutAt(mode, count, d)
            case At(tick) =>
              && d < tick
              && (e < tick ==> OutAt(mode, count, e) == OutAt(mode, count, d))
              && (OutAt(mode, count, tick) != OutAt(mode, count, d) <==> !NeverFalls(mode, count))
              && (NeverFalls(mode, count) ==> OutAt(mode, count, e) == OutAt(mode, count, d))
  {
    if mode == 3 {
      var half, base := (count + 1) / 2, RoundDown(d, count);
      RoundDownBounds(d, count);
      SquareInBlock(count, d / count, base, d);
      if e < base + count {
        SquareInBlock(count, d / count, base, e);
      }
      if d - base >= half {
        D.Successor(d / count, count);
        SquareInBlock(count, d / count + 1, base + count, base + count);
      } else if count > 1 {
        SquareInBlock(count, d / count, base, base + half);
      } else {
        SquareInBlock(1, e, e, e);
        SquareInBlock(1, d + 1, d + 1, d + 1);
      }
    }
  }

  /** The square wave in the period that starts at tick k * count. */
  lemma SquareInBlock(count: nat, k: nat, base: nat, d: nat)
    requires count > 0 && base == k * count && base <= d < base + count
    ensures var half := (count + 1) / 2;
            && RoundDown(d, count) == base
            && (OutAt(3, count, d) <==> d - base < half)
            && ScheduledTick(3, count, d) == At(if d - base < half then base + half else base + count)
  {
    BlockOf(d, count, k);
  }

  lemma ElapsedMonotone(p: Program, now: nat, later: nat)
    requires p.loadTime <= now <= later
    ensures Elapsed(p, now) <= Elapsed(p, later)
  {
    TicksReached(later - p.loadTime, Elapsed(p, now));
    TicksReached(now - p.loadTime, Elapsed(p, now));
  }

  /** Where the scheduled time falls: on the first nanosecond of the scheduled tick or just before it. */
  lemma ScheduledTime(p: Program, now: nat, tick: nat)
    requires p.Valid() && p.loadTime <= now
    requires ScheduledTick(p.mode, p.count, Elapsed(p, now)) == At(tick) && Elapsed(p, now) < tick
    ensures var next := NextTransition(p, now);
            && now < next <= p.loadTime + First(tick) <= next + 1
            && (next == p.loadTime + First(tick) <==> tick % GRID == 0 || now + 1 == p.loadTime + First(tick))
  {
    NanosRounding(tick);
    TicksReached(now - p.loadTime, tick);
  }

  /**
   The edge prediction, for modes 0, 1, 3, 4 and 5 (and 6 and 7, which the code runs as mode 0).  The output
   keeps its value from `now` up to the returned time, which is strictly later; -1 means it never changes again.
   */
  lemma EdgePrediction(p: Program, now: nat)
    requires p.Valid() && EdgeMode(p) && p.loadTime <= now
    ensures var next := NextTransition(p, now);
            if next == -1 then forall t: nat :: now <= t ==> Out(p, t) == Out(p, now)
            else now < next && forall t: nat :: now <= t < next ==> Out(p, t) == Out(p, now)
  {
    var d := Elapsed(p, now);
    var next := NextTransition(p, now);
    OutUntilScheduled(p.mode, p.count, d, d);
    forall t: nat | now <= t && (next == -1 || t < next)
      ensures Out(p, t) == Out(p, now)
    {
      ElapsedMonotone(p, now, t);
      OutUntilScheduled(p.mode, p.count, d, Elapsed(p, t));
      match ScheduledTick(p.mode, p.count, d) {
        case Never =>
        case At(tick) =>
          ScheduledTime(p, now, tick);
          TicksReached(t - p.loadTime, tick);
      }
    }
    if next != -1 {
      ScheduledTime(p, now, ScheduledTick(p.mode, p.count, d).tick);
    }
  }

  /**
   The prediction is tight.  The output changes at the returned time, or one nanosecond later, and then a second
   prediction made at the returned time names that nanosecond - except for a square wave of count 1, which never changes.
   */
  lemma EdgeIsDelivered(p: Program, now: nat)
    requires p.Valid() && EdgeMode(p) && p.loadTime <= now
    ensures var next := NextTransition(p, now);
            next != -1 ==>
              now < next
              && (NeverFalls(p.mode, p.count) || Out(p, next) != Out(p, now)
                  || (NextTransition(p, next) == next + 1 && Out(p, next + 1) != Out(p, now)))
    ensures NeverFalls(p.mode, p.count) ==> forall t: nat :: p.loadTime <= t ==> Out(p, t)
  {
    var d := Elapsed(p, now);
    OutUntilScheduled(p.mode, p.count, d, d);
    match ScheduledTick(p.mode, p.count, d) {
      case Never =>
      case At(tick) =>
        var next := NextTransition(p, now);
        var edge := p.loadTime + First(tick);
        ScheduledTime(p, now, tick);
        NanosRounding(tick);
        TickInterval(edge - p.loadTime, tick);
        if next < edge {
          SameSchedule(p, now, next, tick);
          NanosRounding(tick);
        }
    }
  }

  /** Until the scheduled tick is reached the schedule does not move. */
  lemma SameSchedule(p: Program, now: nat, later: nat, tick: nat)
    requires p.Valid() && EdgeMode(p) && p.loadTime <= now <= later
    requires ScheduledTick(p.mode, p.count, Elapsed(p, now)) == At(tick)
    requires later < p.loadTime + First(tick)
    ensures ScheduledTick(p.mode, p.count, Elapsed(p, later)) == At(tick)
  {
    var d, e := Elapsed(p, now), Elapsed(p, later);
    ElapsedMonotone(p, now, later);
    TicksReached(later - p.loadTime, tick);
    SameTick(p.mode, p.count, d, e, tick);
  }

  lemma SameTick(mode: nat, count: nat, d: nat, e: nat, tick: nat)
    requires count > 0 && mode != 2 && d <= e < tick && ScheduledTick(mode, count, d) == At(tick)
    ensures ScheduledTick(mode, count, e) == At(tick)
  {
    if mode == 3 {
      RoundDownBounds(d, count);
      SquareInBlock(count, d / count, RoundDown(d, count), d);
      SquareInBlock(count, d / count, RoundDown(d, count), e);
    }
  }
}
