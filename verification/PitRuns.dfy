/**
 Whole runs of the 8254 interrupt timer.  Each callback evaluates the output at its own scheduled time and
 schedules the next one from there, so the sequence of callback times is a function of the programmed channel and
 does not depend on how late the callbacks are serviced.
 */
module PitRuns {
  import opened Chains
  import opened PitTiming

  /** What a callback at time `now` schedules; a stopped timer (-1) stays stopped. */
  function NextFrom(p: Program, now: int): (t: int)
    requires p.Valid()
  {
    if now < p.loadTime then -1 else NextTransition(p, now)
  }

  function Scheduler(p: Program): int -> int
    requires p.Valid()
  {
    now => NextFrom(p, now)
  }

  /** The time used by the n-th callback; callback 0 is the evaluation made when the count is loaded. */
  function Callback(p: Program, n: nat): int
    requires p.Valid()
  {
    Iterate(Scheduler(p), p.loadTime, n)
  }

  lemma FirstCallback(p: Program)
    requires p.Valid()
    ensures Callback(p, 0) == p.loadTime && Callback(p, 1) == NextTransition(p, p.loadTime)
  {
    assert Callback(p, 1) == Scheduler(p)(Callback(p, 0));
  }

  /** Callback n changes the line, to the given level. */
  ghost predicate Edge(p: Program, n: nat, level: bool)
    requires p.Valid()
  {
    && n > 0 && p.loadTime <= Callback(p, n - 1) && p.loadTime <= Callback(p, n)
    && Out(p, Callback(p, n - 1)) == !level && Out(p, Callback(p, n)) == level
  }

  /** Some callback changes the line to the level in the given tick. */
  ghost predicate Turns(p: Program, tick: nat, level: bool)
    requires p.Valid()
  {
    exists n: nat :: Edge(p, n, level) && Elapsed(p, Callback(p, n)) == tick
  }

  // ---- Square wave -------------------------------------------------------------------------------------

  predicate SquareWave(p: Program) {
    p.Valid() && p.mode == 3 && p.count >= 2
  }

  /** The tick of the i-th half-period boundary: the even ones are the multiples of the count. */
  function Boundary(count: nat, i: nat): nat {
    i / 2 * count + if i % 2 == 1 then (count + 1) / 2 else 0
  }

  /** The first nanosecond of the i-th boundary tick. */
  ghost function Landing(p: Program, i: nat): nat {
    p.loadTime + First(Boundary(p.count, i))
  }

  lemma AtBoundary(p: Program, i: nat)
    requires SquareWave(p)
    ensures Elapsed(p, Landing(p, i)) == Boundary(p.count, i)
    ensures ScheduledTick(3, p.count, Boundary(p.count, i)) == At(Boundary(p.count, i + 1))
    ensures OutAt(3, p.count, Boundary(p.count, i)) <==> i % 2 == 0
    ensures Boundary(p.count, i) < Boundary(p.count, i + 1)
  {
    var b := Boundary(p.count, i);
    NanosRounding(b);
    TickInterval(First(b), b);
    BlockOf(b, p.count, i / 2);
    if i % 2 == 1 {
      assert (i + 1) / 2 == i / 2 + 1;
      assert (i / 2 + 1) * p.count == i / 2 * p.count + p.count;
    } else {
      assert (i + 1) / 2 == i / 2;
    }
  }

  /**
   From one boundary the timer reaches the next one exactly, in one callback when the boundary is a whole number
   of nanoseconds and in two otherwise.  The extra callback still sees the old level.
   */
  lemma SquareWaveStep(p: Program, i: nat)
    requires SquareWave(p)
    ensures var next := NextFrom(p, Landing(p, i));
            if Boundary(p.count, i + 1) % GRID == 0 then next == Landing(p, i + 1)
            else
              && next == Landing(p, i + 1) - 1
              && Out(p, next) == Out(p, Landing(p, i))
              && NextFrom(p, next) == Landing(p, i + 1)
  {
    var now, tick := Landing(p, i), Boundary(p.count, i + 1);
    AtBoundary(p, i);
    NanosRounding(tick);
    NanosRounding(Boundary(p.count, i));
    TicksReached(now - p.loadTime + 1, tick);
    FirstMonotone(Boundary(p.count, i) + 1, tick);
    if tick % GRID != 0 {
      var next := NextFrom(p, now);
      SameSchedule(p, now, next, tick);
      EdgePrediction(p, now);
      OutUntilScheduled(3, p.count, Elapsed(p, now), Elapsed(p, next));
      ElapsedMonotone(p, now, next);
      TicksReached(next - p.loadTime, tick);
    }
  }

  lemma FirstMonotone(a: nat, b: nat)
    requires a <= b
    ensures First(a) <= First(b)
  {
  }

  function BoundarySteps(p: Program): nat -> nat {
    i => if Boundary(p.count, i + 1) % GRID == 0 then 1 else 2
  }

  /** The index of the callback that lands on the i-th boundary. */
  function LandingCallback(p: Program, i: nat): (n: nat) {
    Position(BoundarySteps(p), i)
  }

  ghost function Landings(p: Program): nat -> int {
    (i: nat) => Landing(p, i)
  }

  lemma SquareWaveChain(p: Program)
    requires SquareWave(p)
    ensures Lands(Scheduler(p), Landings(p), BoundarySteps(p))
  {
    var step, mark, cost := Scheduler(p), Landings(p), BoundarySteps(p);
    forall i: nat
      ensures LandsAt(step, mark, cost, i)
    {
      SquareWaveStep(p, i);
    }
  }

  lemma StartsAtLoad(p: Program)
    ensures Landing(p, 0) == p.loadTime
  {
    assert Boundary(p.count, 0) == 0;
  }

  /**
   The i-th half-period boundary is reached exactly, by callback number LandingCallback(p, i), for every i.  In
   particular the k-th rising edge is delivered in tick k * count: no boundary is skipped and nothing drifts.
   */
  lemma SquareWaveLands(p: Program, i: nat)
    requires SquareWave(p)
    ensures Callback(p, LandingCallback(p, i)) == Landing(p, i)
    ensures Elapsed(p, Landing(p, i)) == Boundary(p.count, i)
    ensures Out(p, Landing(p, i)) <==> i % 2 == 0
    ensures i <= LandingCallback(p, i) <= 2 * i
  {
    assert Callback(p, LandingCallback(p, i)) == Landing(p, i) && i <= LandingCallback(p, i) <= 2 * i by {
      StartsAtLoad(p);
      SquareWaveChain(p);
      ChainLands(Scheduler(p), Landings(p), BoundarySteps(p), i);
    }
    AtBoundary(p, i);
  }

  /**
   The level driven by every callback of the run: callback n belongs to the one half period i whose landing
   callback is the last not after n, and drives its level, which is high exactly for even i.
   */
  lemma SquareWaveLevels(p: Program, n: nat) returns (i: nat)
    requires SquareWave(p)
    ensures LandingCallback(p, i) <= n < LandingCallback(p, i + 1) <= LandingCallback(p, i) + 2
    ensures p.loadTime <= Callback(p, n)
    ensures Out(p, Callback(p, n)) <==> i % 2 == 0
  {
    SquareWaveChain(p);
    i := Locate(BoundarySteps(p), n);
    SquareWaveLands(p, i);
    if n == LandingCallback(p, i) + 1 {
      SquareWaveStep(p, i);
      assert Callback(p, n) == NextFrom(p, Landing(p, i));
    }
  }

  // ---- Rate generator ----------------------------------------------------------------------------------

  predicate RateGenerator(p: Program) {
    p.Valid() && p.mode == 2 && p.count >= 2
  }

  /** The callback for pulse k falls one tick too late, where the output is low again. */
  predicate Missed(p: Program, k: nat) {
    k > 0 && (k * p.count + 1) % GRID == 0
  }

  /** The callback for pulse k comes straight from pulse k - 1, with no low level between them. */
  predicate Merged(p: Program, k: nat) {
    k > 0 && k * p.count % GRID == 0
  }

  /** The time of the last callback concerned with pulse k. */
  function PulseTime(p: Program, k: nat): nat {
    if k == 0 then p.loadTime
    else p.loadTime + Nanos(if Merged(p, k) then k * p.count else k * p.count + 1)
  }

  lemma ScheduleInBlock(count: nat, k: nat, d: nat)
    requires count >= 2 && k * count <= d < k * count + count
    ensures OutAt(2, count, d) <==> d == k * count && k > 0
    ensures ScheduledTick(2, count, d) ==
            At(if d == k * count && k > 0 then (k + 1) * count else (k + 1) * count + 1)
  {
    BlockOf(d, count, k);
    assert (k + 1) * count == k * count + count;
  }

  /** The tick in which the callback for pulse k falls, and the level it drives. */
  lemma PulseTick(p: Program, k: nat)
    requires RateGenerator(p)
    ensures Elapsed(p, PulseTime(p, k)) == k * p.count + if Missed(p, k) then 1 else 0
    ensures Out(p, PulseTime(p, k)) <==> k > 0 && !Missed(p, k)
    ensures k == 0 || Missed(p, k) ==> !Missed(p, k + 1) && !Merged(p, k + 1)
    ensures !(Missed(p, k) && Merged(p, k))
  {
    NanosRounding(k * p.count);
    NanosRounding(k * p.count + 1);
    ScheduleInBlock(p.count, k, k * p.count + if Missed(p, k) then 1 else 0);
    FaultsAreRare(p, k);
  }

  /** The first pulse is delivered, and so is the one after a missed pulse. */
  lemma FaultsAreRare(p: Program, k: nat)
    requires RateGenerator(p)
    ensures k == 0 || Missed(p, k) ==> !Missed(p, k + 1) && !Merged(p, k + 1)
    ensures !(Missed(p, k) && Merged(p, k))
  {
    assert (k + 1) * p.count == k * p.count + p.count;
    if Missed(p, k) {
      Consecutive(k * p.count + 1, p.count);
    }
  }

  /** A grid point is not followed by another one within 65536 ticks. */
  lemma Consecutive(a: nat, count: nat)
    requires a % GRID == 0 && 2 <= count <= 65536
    ensures (a - 1) % GRID != 0
    ensures (a + count) % GRID != 0 && (a + count - 1) % GRID != 0
  {
    var m := a / GRID;
    BlockOf(a + count, GRID, m);
    BlockOf(a + count - 1, GRID, m);
    if a > 0 {
      BlockOf(a - 1, GRID, m - 1);
    }
  }

  lemma NanosAdvance(a: nat, b: nat)
    requires a < b
    ensures Nanos(a) < Nanos(b)
  {
  }

  /** When pulse k + 1 follows pulse k directly, the level before it is high only if the two merge. */
  lemma LevelBeforeDirect(p: Program, k: nat)
    requires RateGenerator(p)
    requires k == 0 || Missed(p, k) || Merged(p, k + 1)
    ensures Out(p, PulseTime(p, k)) <==> Merged(p, k + 1)
  {
    PulseTick(p, k);
    if k == 0 {
      assert !Merged(p, 1);
    }
  }

  /** One scheduling step: from a time that is a converted tick to a later converted tick the fix-up is not used. */
  lemma ConvertedStep(p: Program, x: nat, y: nat)
    requires p.Valid() && x < y
    requires ScheduledTick(p.mode, p.count, Elapsed(p, p.loadTime + Nanos(x))) == At(y)
    ensures NextTransition(p, p.loadTime + Nanos(x)) == p.loadTime + Nanos(y)
  {
    NanosAdvance(x, y);
  }

  /** The tick whose conversion is the time of pulse k. */
  function PulseTarget(p: Program, k: nat): nat {
    if k == 0 then 0 else if Merged(p, k) then k * p.count else k * p.count + 1
  }

  lemma ScheduleAfterPulse(p: Program, k: nat)
    requires RateGenerator(p)
    ensures PulseTime(p, k) == p.loadTime + Nanos(PulseTarget(p, k))
    ensures PulseTarget(p, k) < (k + 1) * p.count
    ensures ScheduledTick(2, p.count, Elapsed(p, PulseTime(p, k))) ==
            At(if k == 0 || Missed(p, k) then (k + 1) * p.count + 1 else (k + 1) * p.count)
  {
    assert (k + 1) * p.count == k * p.count + p.count;
    PulseTick(p, k);
    ScheduleInBlock(p.count, k, k * p.count + if Missed(p, k) then 1 else 0);
  }

  /** From just before pulse k + 1 the level is low and the next callback goes one tick past the pulse. */
  lemma ScheduleBeforePulse(p: Program, k: nat)
    requires RateGenerator(p) && !Merged(p, k + 1)
    ensures var t := p.loadTime + Nanos((k + 1) * p.count);
            && !Out(p, t)
            && ScheduledTick(2, p.count, Elapsed(p, t)) == At((k + 1) * p.count + 1)
  {
    assert (k + 1) * p.count == k * p.count + p.count;
    NanosRounding((k + 1) * p.count);
    ScheduleInBlock(p.count, k, k * p.count + p.count - 1);
  }

  /**
   One pulse of the rate generator.  The callback for pulse k + 1 follows that of pulse k directly when either
   went wrong, and after exactly one low callback otherwise.
   */
  lemma RateGeneratorStep(p: Program, k: nat)
    requires RateGenerator(p)
    ensures var next := NextFrom(p, PulseTime(p, k));
            if k == 0 || Missed(p, k) || Merged(p, k + 1) then
              next == PulseTime(p, k + 1)
            else
              && p.loadTime <= next
              && !Out(p, next)
              && NextFrom(p, next) == PulseTime(p, k + 1)
  {
    ScheduleAfterPulse(p, k);
    if k == 0 || Missed(p, k) {
      assert !Merged(p, k + 1) by {
        PulseTick(p, k);
      }
      ConvertedStep(p, PulseTarget(p, k), (k + 1) * p.count + 1);
    } else {
      ConvertedStep(p, PulseTarget(p, k), (k + 1) * p.count);
      if !Merged(p, k + 1) {
        ScheduleBeforePulse(p, k);
        ConvertedStep(p, (k + 1) * p.count, (k + 1) * p.count + 1);
      }
    }
  }

  /** Whether pulse k + 1 is reached in one callback or in two. */
  function PulseSteps(p: Program): nat -> nat {
    k => if k == 0 || Missed(p, k) || Merged(p, k + 1) then 1 else 2
  }

  /** The index of the last callback concerned with pulse k. */
  function PulseCallback(p: Program, k: nat): nat {
    Position(PulseSteps(p), k)
  }

  function PulseTimes(p: Program): nat -> int {
    (k: nat) => PulseTime(p, k)
  }

  lemma RateGeneratorChain(p: Program)
    requires RateGenerator(p)
    ensures Lands(Scheduler(p), PulseTimes(p), PulseSteps(p))
  {
    var step, mark, cost := Scheduler(p), PulseTimes(p), PulseSteps(p);
    forall k: nat
      ensures LandsAt(step, mark, cost, k)
    {
      RateGeneratorStep(p, k);
    }
  }

  lemma PulseReached(p: Program, k: nat)
    requires RateGenerator(p)
    ensures Callback(p, PulseCallback(p, k)) == PulseTime(p, k)
  {
    RateGeneratorChain(p);
    ChainLands(Scheduler(p), PulseTimes(p), PulseSteps(p), k);
  }

  /** The callback before that of pulse k + 1 drives a low level, except when the two pulses merge. */
  lemma LevelBeforePulse(p: Program, k: nat)
    requires RateGenerator(p)
    ensures PulseCallback(p, k) < PulseCallback(p, k + 1)
    ensures var before := Callback(p, PulseCallback(p, k + 1) - 1);
            p.loadTime <= before && (Out(p, before) <==> Merged(p, k + 1))
  {
    PulseReached(p, k);
    if PulseSteps(p)(k) == 1 {
      LevelBeforeDirect(p, k);
    } else {
      RateGeneratorStep(p, k);
      assert Callback(p, PulseCallback(p, k) + 1) == NextFrom(p, PulseTime(p, k));
    }
  }

  /** The callback for pulse k drives a rising edge exactly when pulse k is neither missed nor merged. */
  lemma PulseEdge(p: Program, k: nat)
    requires RateGenerator(p) && k > 0
    ensures PulseCallback(p, k) > 0
    ensures Edge(p, PulseCallback(p, k), true) <==> !Merged(p, k) && !Missed(p, k)
    ensures Callback(p, PulseCallback(p, k)) >= p.loadTime
    ensures !Missed(p, k) ==> Elapsed(p, Callback(p, PulseCallback(p, k))) == k * p.count
  {
    PulseReached(p, k);
    LevelBeforePulse(p, k - 1);
    PulseTick(p, k);
  }

  /** No other callback drives one: every rising edge of the run is that of a pulse. */
  lemma EdgeIsPulse(p: Program, n: nat) returns (k: nat)
    requires RateGenerator(p) && Edge(p, n, true)
    ensures k > 0 && n == PulseCallback(p, k) && !Merged(p, k) && !Missed(p, k)
  {
    k := Locate(PulseSteps(p), n);
    PulseReached(p, k);
    if n == PulseCallback(p, k) {
      PulseTick(p, k);
      PulseEdge(p, k);
    } else {
      ExtraIsLow(p, k, n);
    }
  }

  /** A callback between those of two pulses drives a low level. */
  lemma ExtraIsLow(p: Program, k: nat, n: nat)
    requires RateGenerator(p) && PulseCallback(p, k) < n < PulseCallback(p, k + 1)
    ensures p.loadTime <= Callback(p, n) && !Out(p, Callback(p, n))
  {
    PulseReached(p, k);
    RateGeneratorStep(p, k);
    assert Callback(p, PulseCallback(p, k) + 1) == NextFrom(p, PulseTime(p, k));
  }

  /**
   Mode 2 over a whole run: pulse k is delivered, as a rising edge in tick k * count, exactly when neither k * count
   nor k * count + 1 is a multiple of 596591.  The code schedules one tick past the pulse and relies on the conversion
   to nanoseconds rounding down; these are the ticks for which the conversion is exact.
   */
  lemma RateGeneratorRun(p: Program, k: nat)
    requires RateGenerator(p) && k > 0
    ensures Turns(p, k * p.count, true) <==> k * p.count % GRID != 0 && (k * p.count + 1) % GRID != 0
  {
    PulseEdge(p, k);
    if Turns(p, k * p.count, true) {
      EdgeOfPulse(p, k, k * p.count);
    }
  }

  lemma EdgeOfPulse(p: Program, k: nat, tick: nat)
    requires RateGenerator(p) && k > 0 && tick == k * p.count && Turns(p, tick, true)
    ensures !Merged(p, k) && !Missed(p, k)
  {
    var n: nat :| Edge(p, n, true) && Elapsed(p, Callback(p, n)) == tick;
    var j := EdgeIsPulse(p, n);
    PulseEdge(p, j);
    SamePulse(j, k, p.count);
  }

  lemma SamePulse(j: nat, k: nat, count: nat)
    requires count > 0 && j * count == k * count
    ensures j == k
  {
    BlockOf(j * count, count, j);
    BlockOf(k * count, count, k);
  }

  /** Nothing but pulses is delivered: a rising edge is in the tick of some pulse. */
  lemma RateGeneratorOnly(p: Program, tick: nat)
    requires RateGenerator(p) && Turns(p, tick, true)
    ensures tick > 0 && tick % p.count == 0
  {
    var n: nat :| Edge(p, n, true) && Elapsed(p, Callback(p, n)) == tick;
    var k := EdgeIsPulse(p, n);
    PulseEdge(p, k);
    BlockOf(tick, p.count, k);
    ProductPositive(k, p.count);
  }

  lemma ProductPositive(k: nat, count: nat)
    requires k > 0 && count > 0
    ensures k * count > 0
  {
  }

  /** The first lost pulse for a count of 2: no callback at all drives an edge into tick 596590. */
  lemma LostPulse(loadTime: nat)
    ensures var p := Program(2, 2, loadTime);
            RateGenerator(p) && forall n: nat :: Edge(p, n, true) ==> Elapsed(p, Callback(p, n)) != 298295 * p.count
  {
    var p := Program(2, 2, loadTime);
    RateGeneratorRun(p, 298295);
    assert 298295 * p.count + 1 == GRID;
  }
}
