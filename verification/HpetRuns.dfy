/**
 Runs of a periodic HPET timer: each expiry, however late, moves the comparator past the counter and arms the timer for
 the distance that is left.
 */
module HpetRuns {
  import opened Basics
  import opened HpetTimer

  /** The i-th expiry is serviced at times[i] and moves the comparator from cmps[i] to cmps[i + 1]. */
  datatype Run = Run(period: nat, offset: nat, narrow: bool, times: seq<nat>, cmps: seq<nat>) {
    function Tick(i: nat): nat
      requires i < |times|
    {
      CounterAt(times[i], offset)
    }

    /** The distance the i-th expiry arms the timer for. */
    function Armed(i: nat): nat
      requires i < |times| && i + 1 < |cmps|
    {
      Diff(cmps[i + 1], Tick(i), narrow)
    }

    ghost predicate Valid() {
      && 0 < period < Half(narrow)
      && |cmps| == |times| + 1
      && forall i :: 0 <= i < |times| ==> FirstMatch(cmps[i], period, Tick(i), narrow, cmps[i + 1])
    }

    /** Expiry i + 1 is serviced when the timer armed by expiry i goes off, before 64-bit times overflow. */
    predicate OnTime(i: nat)
      requires i + 1 < |times| && |cmps| == |times| + 1
    {
      && times[i] + offset + Armed(i) * CLK_PERIOD < TWO_64
      && times[i + 1] == times[i] + TicksToNs(Armed(i))
    }

    /** The counter is at the comparator the i-th expiry finds. */
    predicate Exact(i: nat)
      requires i < |times| && |cmps| == |times| + 1
    {
      Ahead(cmps[i], Tick(i), narrow) == 0
    }
  }

  /** The matches of a match are matches. */
  lemma {:induction false} MatchCompose(cmp: nat, period: nat, narrow: bool, j: nat, k: nat)
    ensures Match(Match(cmp, period, narrow, j), period, narrow, k) == Match(cmp, period, narrow, j + k)
  {
    if k > 0 {
      MatchCompose(cmp, period, narrow, j, k - 1);
    }
  }

  lemma {:induction false} MatchIndices(r: Run, n: nat) returns (ks: seq<nat>)
    requires r.Valid() && n <= |r.times|
    ensures |ks| == n + 1 && ks[0] == 0 && forall i :: 0 <= i < n ==> ks[i] <= ks[i + 1]
    ensures forall i :: 0 <= i <= n ==> r.cmps[i] == Match(r.cmps[0], r.period, r.narrow, ks[i])
  {
    if n == 0 {
      ks := [0];
    } else {
      ks := MatchIndices(r, n - 1);
      var k: nat :| FirstMatchAt(r.cmps[n - 1], r.period, r.Tick(n - 1), r.narrow, r.cmps[n], k);
      MatchCompose(r.cmps[0], r.period, r.narrow, ks[n - 1], k);
      ks := ks + [ks[n - 1] + k];
    }
  }

  /** A comparator that is the first one plus k periods, modulo the width. */
  predicate OnMatch(r: Run, cmp: nat, k: nat)
    requires r.cmps != []
  {
    cmp % Modulus(r.narrow) == (r.cmps[0] + k * r.period) % Modulus(r.narrow)
  }

  /**
   However late the expiries are serviced, every comparator is the first one plus a multiple of the period, modulo the
   width, and the multiples never go back.
   */
  lemma StaysOnMatches(r: Run) returns (ks: seq<nat>)
    requires r.Valid()
    ensures |ks| == |r.cmps| && ks[0] == 0 && forall i :: 0 <= i < |r.times| ==> ks[i] <= ks[i + 1]
    ensures forall i :: 0 <= i < |r.cmps| ==> OnMatch(r, r.cmps[i], ks[i])
  {
    ks := MatchIndices(r, |r.times|);
    forall i | 0 <= i < |r.cmps|
      ensures OnMatch(r, r.cmps[i], ks[i])
    {
      MatchIsMultiple(r.cmps[0], r.period, r.narrow, ks[i]);
    }
  }

  /**
   An expiry that is on time comes when the counter is at the comparator left by the one before it - or one tick past
   it, if the one before found the counter exactly there.
   */
  lemma OnTimeLands(r: Run, i: nat)
    requires r.Valid() && i + 1 < |r.times| && r.OnTime(i)
    ensures r.Tick(i + 1) == r.Tick(i) + r.Armed(i)
    ensures if Ahead(r.cmps[i + 1], r.Tick(i), r.narrow) > 0 then r.Exact(i + 1)
            else Ahead(r.cmps[i + 1] + 1, r.Tick(i + 1), r.narrow) == 0
  {
    var k: nat :| FirstMatchAt(r.cmps[i], r.period, r.Tick(i), r.narrow, r.cmps[i + 1], k);
    DelayReaches(r.cmps[i + 1], r.times[i], r.offset, r.narrow);
  }

  lemma StaysPut(cmp: nat, period: nat, tick: nat, narrow: bool, result: nat)
    requires FirstMatch(cmp, period, tick, narrow, result) && !Behind(cmp, tick, narrow)
    ensures result == cmp
  {
    var k: nat :| FirstMatchAt(cmp, period, tick, narrow, result, k);
    assert k > 0 ==> Behind(Match(cmp, period, narrow, 0), tick, narrow);
  }

  /** A comparator just missed moves on by one period, which is then one tick less ahead. */
  lemma MovesOn(cmp: nat, period: nat, tick: nat, narrow: bool, result: nat)
    requires FirstMatch(cmp, period, tick, narrow, result) && 1 < period < Half(narrow)
    requires Ahead(cmp + 1, tick, narrow) == 0
    ensures result == NextMatch(cmp, period, narrow) && Ahead(result, tick, narrow) == period - 1
  {
    JustMissed(cmp, tick, narrow);
    AfterMiss(cmp, period, tick, narrow);
    SecondMatch(cmp, period, tick, narrow, result);
  }

  lemma AfterMiss(cmp: nat, period: nat, tick: nat, narrow: bool)
    requires Ahead(cmp, tick, narrow) == Modulus(narrow) - 1 && 0 < period < Half(narrow)
    ensures Ahead(NextMatch(cmp, period, narrow), tick, narrow) == period - 1
  {
    AheadStep(cmp, period, tick, narrow);
    assert period % Modulus(narrow) == period;
  }

  lemma SecondMatch(cmp: nat, period: nat, tick: nat, narrow: bool, result: nat)
    requires FirstMatch(cmp, period, tick, narrow, result)
    requires Behind(cmp, tick, narrow) && !Behind(NextMatch(cmp, period, narrow), tick, narrow)
    ensures result == NextMatch(cmp, period, narrow)
  {
    var k: nat :| FirstMatchAt(cmp, period, tick, narrow, result, k);
    assert Match(cmp, period, narrow, 0) == cmp && Match(cmp, period, narrow, 1) == NextMatch(cmp, period, narrow);
  }

  lemma JustMissed(cmp: nat, tick: nat, narrow: bool)
    requires Ahead(cmp + 1, tick, narrow) == 0
    ensures Ahead(cmp, tick, narrow) == Modulus(narrow) - 1
  {
    SumModulo(cmp - tick, 1, narrow);
    assert cmp - tick + 1 == cmp + 1 - tick;
  }

  /** An expiry that finds the counter exactly at the comparator does not move it and comes again one tick later. */
  lemma ComesAgain(r: Run, i: nat)
    requires r.Valid() && i + 1 < |r.times| && r.OnTime(i) && r.Exact(i)
    ensures r.cmps[i + 1] == r.cmps[i] && r.Tick(i + 1) == r.Tick(i) + 1
    ensures Ahead(r.cmps[i + 1] + 1, r.Tick(i + 1), r.narrow) == 0
  {
    StaysPut(r.cmps[i], r.period, r.Tick(i), r.narrow, r.cmps[i + 1]);
    OnTimeLands(r, i);
  }

  /**
   One period on time.  The expiry that comes again one tick after the match moves the comparator on, and the next one
   is exactly one period after the first.
   */
  lemma OnePeriod(r: Run, i: nat)
    requires r.Valid() && r.period > 1 && i + 2 < |r.times|
    requires r.OnTime(i) && r.OnTime(i + 1) && r.Exact(i)
    ensures r.cmps[i + 2] == NextMatch(r.cmps[i], r.period, r.narrow)
    ensures r.Tick(i + 2) == r.Tick(i) + r.period && r.Exact(i + 2)
  {
    ComesAgain(r, i);
    MovesOn(r.cmps[i + 1], r.period, r.Tick(i + 1), r.narrow, r.cmps[i + 2]);
    assert r.Armed(i + 1) == r.period - 1;
    OnTimeLands(r, i + 1);
  }

  predicate AllOnTime(r: Run)
    requires |r.cmps| == |r.times| + 1
  {
    forall i :: 0 <= i < |r.times| - 1 ==> r.OnTime(i)
  }

  lemma {:induction false} EveryPeriod(r: Run, k: nat)
    requires r.Valid() && r.period > 1 && 2 * k < |r.times| && r.Exact(0) && AllOnTime(r)
    ensures r.Exact(2 * k) && r.Tick(2 * k) == r.Tick(0) + Periods(r.period, k)
    ensures r.cmps[2 * k] == Match(r.cmps[0], r.period, r.narrow, k)
  {
    if k > 0 {
      EveryPeriod(r, k - 1);
      OnePeriod(r, 2 * (k - 1));
    }
  }

  /**
   A whole run on time: expiry 2k is exactly k periods after the first one, without drift, at the k-th match.  In
   between there is one more expiry per period, one tick after each match.
   */
  lemma NoDrift(r: Run, k: nat)
    requires r.Valid() && r.period > 1 && 2 * k < |r.times| && r.Exact(0) && AllOnTime(r)
    ensures r.Tick(2 * k) == r.Tick(0) + k * r.period && r.Exact(2 * k)
    ensures r.cmps[2 * k] == Match(r.cmps[0], r.period, r.narrow, k)
    ensures 2 * k + 1 < |r.times| ==> r.Tick(2 * k + 1) == r.Tick(2 * k) + 1 && r.cmps[2 * k + 1] == r.cmps[2 * k]
  {
    EveryPeriod(r, k);
    PeriodsMultiply(r.period, k);
    if 2 * k + 1 < |r.times| {
      ComesAgain(r, 2 * k);
    }
  }
}
