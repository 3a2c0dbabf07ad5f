/**
 The interrupt line of channel 0 over whole runs of timer callbacks, in every mode but the rate generator: at each
 instant it has the level of the output, and it changes exactly where the output does.
 */
module PitEdges {
  import opened Division
  import opened PitTiming
  import opened PitRuns

  /** Callback n is the last one not after t. */
  ghost predicate Last(p: Program, n: nat, t: nat)
    requires p.Valid()
  {
    p.loadTime <= Callback(p, n) <= t && (Callback(p, n + 1) == -1 || t < Callback(p, n + 1))
  }

  lemma CallbackStep(p: Program, n: nat)
    requires p.Valid()
    ensures Callback(p, n + 1) == NextFrom(p, Callback(p, n))
  {
    assert Callback(p, n + 1) == Scheduler(p)(Callback(p, n));
  }

  /** Once it has a time, a callback leads to a later one or stops the timer. */
  lemma CallbackAdvances(p: Program, n: nat)
    requires p.Valid() && EdgeMode(p) && p.loadTime <= Callback(p, n)
    ensures Callback(p, n + 1) == -1 || Callback(p, n) < Callback(p, n + 1)
  {
    CallbackStep(p, n);
    EdgePrediction(p, Callback(p, n));
  }

  lemma {:induction false} LastFrom(p: Program, m: nat, t: nat) returns (n: nat)
    requires p.Valid() && EdgeMode(p) && p.loadTime <= Callback(p, m) <= t
    ensures m <= n && Last(p, n, t)
    decreases t - Callback(p, m)
  {
    CallbackAdvances(p, m);
    if Callback(p, m + 1) == -1 || t < Callback(p, m + 1) {
      n := m;
    } else {
      n := LastFrom(p, m + 1, t);
    }
  }

  lemma LevelHolds(p: Program, n: nat, t: nat)
    requires p.Valid() && EdgeMode(p) && Last(p, n, t)
    ensures Out(p, t) == Out(p, Callback(p, n))
  {
    CallbackStep(p, n);
    EdgePrediction(p, Callback(p, n));
  }

  /** At every time after the load, the level driven by the last callback is that of the output. */
  lemma LineFollowsOutput(p: Program, t: nat) returns (n: nat)
    requires p.Valid() && EdgeMode(p) && p.loadTime <= t
    ensures Last(p, n, t) && Out(p, t) == Out(p, Callback(p, n))
  {
    FirstCallback(p);
    n := LastFrom(p, 0, t);
    LevelHolds(p, n, t);
  }

  // ---- Edges -------------------------------------------------------------------------------------------

  /** The output changes to the level from one tick to the next. */
  predicate Changes(p: Program, tick: nat, level: bool)
    requires p.Valid()
  {
    tick > 0 && OutAt(p.mode, p.count, tick - 1) == !level && OutAt(p.mode, p.count, tick) == level
  }

  lemma OrderedCallbacks(p: Program, n: nat)
    requires p.Valid() && EdgeMode(p) && n > 0 && p.loadTime <= Callback(p, n - 1) && p.loadTime <= Callback(p, n)
    ensures Callback(p, n - 1) < Callback(p, n)
    ensures Last(p, n - 1, Callback(p, n) - 1)
  {
    CallbackAdvances(p, n - 1);
  }

  /** The nanosecond before a tick begins belongs to the tick before it. */
  lemma TickBefore(p: Program, t: nat, tick: nat)
    requires p.loadTime < t && Elapsed(p, t) == tick
    ensures if t == p.loadTime + First(tick) then tick > 0 && Elapsed(p, t - 1) == tick - 1
            else Elapsed(p, t - 1) == tick
  {
    TickInterval(t - p.loadTime, tick);
    if t == p.loadTime + First(tick) {
      if tick > 0 {
        NanosRounding(tick - 1);
        TickInterval(t - 1 - p.loadTime, tick - 1);
      }
    } else {
      TickInterval(t - 1 - p.loadTime, tick);
    }
  }

  /** A callback that changes the line is in the first nanosecond of a tick in which the output changes. */
  lemma EdgeIsChange(p: Program, n: nat, level: bool)
    requires p.Valid() && EdgeMode(p) && Edge(p, n, level)
    ensures Changes(p, Elapsed(p, Callback(p, n)), level)
    ensures Callback(p, n) == p.loadTime + First(Elapsed(p, Callback(p, n)))
  {
    OrderedCallbacks(p, n);
    LevelHolds(p, n - 1, Callback(p, n) - 1);
    TickBefore(p, Callback(p, n), Elapsed(p, Callback(p, n)));
  }

  /** The first nanosecond of a tick in which the output changes, and the one before it. */
  lemma AroundChange(p: Program, tick: nat, level: bool)
    requires p.Valid() && Changes(p, tick, level)
    ensures First(tick) > 0
    ensures var t := p.loadTime + First(tick);
            Elapsed(p, t) == tick && Out(p, t) == level && Out(p, t - 1) == !level
  {
    var t := p.loadTime + First(tick);
    NanosRounding(tick - 1);
    NanosRounding(tick);
    TickInterval(First(tick), tick);
    TickBefore(p, t, tick);
  }

  /** A change of the output is met by a callback in its first nanosecond. */
  lemma ChangeIsEdge(p: Program, tick: nat, level: bool) returns (n: nat)
    requires p.Valid() && EdgeMode(p) && Changes(p, tick, level)
    ensures Edge(p, n, level) && Elapsed(p, Callback(p, n)) == tick
  {
    var t := p.loadTime + First(tick);
    AroundChange(p, tick, level);
    n := LineFollowsOutput(p, t);
    if Callback(p, n) < t {
      LevelHolds(p, n, t - 1);
    }
    EdgeAt(p, n, t, level);
  }

  lemma EdgeAt(p: Program, n: nat, t: nat, level: bool)
    requires p.Valid() && EdgeMode(p) && p.loadTime < t == Callback(p, n)
    requires Out(p, t) == level && Out(p, t - 1) == !level
    ensures Edge(p, n, level)
  {
    FirstCallback(p);
    CallbackBefore(p, n);
    OrderedCallbacks(p, n);
    LevelHolds(p, n - 1, t - 1);
  }

  /** Before a callback that has a time there are only callbacks that have one. */
  lemma CallbackBefore(p: Program, n: nat)
    requires p.Valid() && n > 0 && p.loadTime <= Callback(p, n)
    ensures p.loadTime <= Callback(p, n - 1)
  {
    CallbackStep(p, n - 1);
  }

  /** The line changes in exactly the ticks in which the output does. */
  lemma TurnsIff(p: Program, tick: nat, level: bool)
    requires p.Valid() && EdgeMode(p)
    ensures Turns(p, tick, level) <==> Changes(p, tick, level)
  {
    if Turns(p, tick, level) {
      var n: nat :| Edge(p, n, level) && Elapsed(p, Callback(p, n)) == tick;
      EdgeIsChange(p, n, level);
    }
    if Changes(p, tick, level) {
      var n := ChangeIsEdge(p, tick, level);
    }
  }

  /**
   Mode 0, over the whole run: the line is low from the load, rises in the tick the count runs out and stays high.
   (Modes 6 and 7 are run as mode 0.)
   */
  lemma TerminalCount(p: Program, tick: nat)
    requires p.Valid() && p.mode in {0, 6, 7}
    ensures !Out(p, Callback(p, 0))
    ensures Turns(p, tick, true) <==> tick == p.count
    ensures !Turns(p, tick, false)
  {
    FirstCallback(p);
    TurnsIff(p, tick, true);
    TurnsIff(p, tick, false);
  }

  /** Mode 1, over the whole run: the line is high from the load, falls in the tick the count runs out and stays low. */
  lemma OneShot(p: Program, tick: nat)
    requires p.Valid() && p.mode == 1
    ensures Out(p, Callback(p, 0))
    ensures Turns(p, tick, false) <==> tick == p.count
    ensures !Turns(p, tick, true)
  {
    FirstCallback(p);
    TurnsIff(p, tick, true);
    TurnsIff(p, tick, false);
  }

  /** Modes 4 and 5, over the whole run: the line is low but for one tick, that in which the count runs out. */
  lemma Strobe(p: Program, tick: nat)
    requires p.Valid() && p.mode in {4, 5}
    ensures !Out(p, Callback(p, 0))
    ensures Turns(p, tick, true) <==> tick == p.count
    ensures Turns(p, tick, false) <==> tick == p.count + 1
  {
    FirstCallback(p);
    TurnsIff(p, tick, true);
    TurnsIff(p, tick, false);
  }

  /**
   Mode 3, over the whole run: the line is high from the load, rises in the multiples of the count and falls half a
   period after them, the longer half first.
   */
  lemma SquareWaveEdges(p: Program, tick: nat)
    requires SquareWave(p)
    ensures Out(p, Callback(p, 0))
    ensures Turns(p, tick, true) <==> tick > 0 && tick % p.count == 0
    ensures Turns(p, tick, false) <==> tick % p.count == (p.count + 1) / 2
  {
    FirstCallback(p);
    TurnsIff(p, tick, true);
    TurnsIff(p, tick, false);
    NextRemainder(0, p.count);
    assert 0 % p.count == 0;
    if tick > 0 {
      NextRemainder(tick - 1, p.count);
    }
  }
}
