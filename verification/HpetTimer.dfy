/**
 The arithmetic of one HPET timer: comparisons modulo the counter width, the periodic catch-up, the delay that is
 armed, and the 32-bit wrap of one-shot timers.
 */
module HpetTimer {
  import opened Basics
  import opened Division

  const CLK_PERIOD: nat := 10

  /** The modulus of the comparisons: 32-bit timers compare the low words only. */
  function Modulus(narrow: bool): nat {
    if narrow then TWO_32 else TWO_64
  }

  function Half(narrow: bool): nat {
    if narrow then 0x8000_0000 else 0x8000_0000_0000_0000
  }

  /** How far the comparator is ahead of the counter, modulo the width. */
  function Ahead(cmp: nat, tick: nat, narrow: bool): nat {
    (cmp - tick) % Modulus(narrow)
  }

  /** The counter has passed the comparator: their difference is negative as a signed number. */
  predicate Behind(cmp: nat, tick: nat, narrow: bool) {
    Ahead(cmp, tick, narrow) >= Half(narrow)
  }

  // ---- Catching up -------------------------------------------------------------------------------------

  function NextMatch(cmp: nat, period: nat, narrow: bool): nat {
    (cmp + period) % Modulus(narrow)
  }

  /** The comparator after k periods. */
  function Match(cmp: nat, period: nat, narrow: bool, k: nat): nat {
    if k == 0 then cmp else NextMatch(Match(cmp, period, narrow, k - 1), period, narrow)
  }

  lemma AheadStep(cmp: nat, period: nat, tick: nat, narrow: bool)
    ensures var p := period % Modulus(narrow);
            var x := Ahead(cmp, tick, narrow) + p;
            Ahead(NextMatch(cmp, period, narrow), tick, narrow) == if x < Modulus(narrow) then x else x - Modulus(narrow)
  {
    DropInner(cmp + period, tick, narrow);
    SumModulo(cmp - tick, period, narrow);
    assert cmp - tick + period == cmp + period - tick;
  }

  lemma DropInner(a: int, b: int, narrow: bool)
    ensures (a % Modulus(narrow) - b) % Modulus(narrow) == (a - b) % Modulus(narrow)
  {
    if narrow {
      assert a == a / TWO_32 * TWO_32 + a % TWO_32;
    } else {
      assert a == a / TWO_64 * TWO_64 + a % TWO_64;
    }
  }

  lemma SumModulo(a: int, b: int, narrow: bool)
    ensures var x := a % Modulus(narrow) + b % Modulus(narrow);
            (a + b) % Modulus(narrow) == if x < Modulus(narrow) then x else x - Modulus(narrow)
  {
    if narrow {
      Sum32(a, b);
    } else {
      Sum64(a, b);
    }
  }

  lemma Sum32(a: int, b: int)
    ensures var x := a % TWO_32 + b % TWO_32;
            (a + b) % TWO_32 == if x < TWO_32 then x else x - TWO_32
  {
  }

  lemma Sum64(a: int, b: int)
    ensures var x := a % TWO_64 + b % TWO_64;
            (a + b) % TWO_64 == if x < TWO_64 then x else x - TWO_64
  {
  }

  /** What gets smaller while the comparator is behind; a period above half the modulus moves it backwards. */
  function Lag(cmp: nat, period: nat, tick: nat, narrow: bool): nat {
    if !Behind(cmp, tick, narrow) then 0
    else if period % Modulus(narrow) <= Half(narrow) then Modulus(narrow) - Ahead(cmp, tick, narrow)
    else Ahead(cmp, tick, narrow)
  }

  lemma LagShrinks(cmp: nat, period: nat, tick: nat, narrow: bool)
    requires Behind(cmp, tick, narrow) && period % Modulus(narrow) != 0
    ensures Lag(NextMatch(cmp, period, narrow), period, tick, narrow) < Lag(cmp, period, tick, narrow)
    ensures period < Half(narrow) && !Behind(NextMatch(cmp, period, narrow), tick, narrow) ==>
              Ahead(NextMatch(cmp, period, narrow), tick, narrow) < period
  {
    AheadStep(cmp, period, tick, narrow);
  }

  /** `result` is the first of the comparator's matches that is not behind the counter. */
  ghost predicate FirstMatch(cmp: nat, period: nat, tick: nat, narrow: bool, result: nat) {
    exists k: nat :: FirstMatchAt(cmp, period, tick, narrow, result, k)
  }

  ghost predicate FirstMatchAt(cmp: nat, period: nat, tick: nat, narrow: bool, result: nat, k: nat) {
    && result == Match(cmp, period, narrow, k)
    && !Behind(result, tick, narrow)
    && forall j: nat :: j < k ==> Behind(Match(cmp, period, narrow, j), tick, narrow)
  }

  /** k periods, added up. */
  function Periods(period: nat, k: nat): nat {
    if k == 0 then 0 else Periods(period, k - 1) + period
  }

  lemma {:induction false} PeriodsMultiply(period: nat, k: nat)
    ensures Periods(period, k) == k * period
  {
    if k > 0 {
      PeriodsMultiply(period, k - 1);
      Successor(k - 1, period);
    }
  }

  lemma {:induction false} MatchAddsUp(cmp: nat, period: nat, narrow: bool, k: nat)
    ensures Match(cmp, period, narrow, k) % Modulus(narrow) == (cmp + Periods(period, k)) % Modulus(narrow)
  {
    if k > 0 {
      MatchAddsUp(cmp, period, narrow, k - 1);
      NextAddsUp(Match(cmp, period, narrow, k - 1), cmp + Periods(period, k - 1), period, narrow);
    }
  }

  lemma NextAddsUp(previous: nat, sum: nat, period: nat, narrow: bool)
    requires previous % Modulus(narrow) == sum % Modulus(narrow)
    ensures NextMatch(previous, period, narrow) % Modulus(narrow) == (sum + period) % Modulus(narrow)
  {
    AddModulo(previous, sum, period, narrow);
  }

  /** The matches are the comparator plus the multiples of the period, modulo the width. */
  lemma MatchIsMultiple(cmp: nat, period: nat, narrow: bool, k: nat)
    ensures Match(cmp, period, narrow, k) % Modulus(narrow) == (cmp + k * period) % Modulus(narrow)
    ensures k > 0 ==> Match(cmp, period, narrow, k) < Modulus(narrow)
  {
    MatchAddsUp(cmp, period, narrow, k);
    PeriodsMultiply(period, k);
  }

  lemma AddModulo(a: nat, b: nat, c: nat, narrow: bool)
    requires a % Modulus(narrow) == b % Modulus(narrow)
    ensures (a + c) % Modulus(narrow) == (b + c) % Modulus(narrow)
  {
    SumModulo(a, c, narrow);
    SumModulo(b, c, narrow);
  }

  lemma {:induction false} StaysBehind(cmp: nat, period: nat, tick: nat, narrow: bool, k: nat)
    requires Behind(cmp, tick, narrow) && period % Modulus(narrow) == 0
    ensures Behind(Match(cmp, period, narrow, k), tick, narrow)
  {
    if k > 0 {
      StaysBehind(cmp, period, tick, narrow, k - 1);
      AheadStep(Match(cmp, period, narrow, k - 1), period, tick, narrow);
    }
  }

  lemma {:induction false} EventuallyCaught(cmp: nat, period: nat, tick: nat, narrow: bool) returns (k: nat)
    requires period % Modulus(narrow) != 0
    ensures !Behind(Match(cmp, period, narrow, k), tick, narrow)
    decreases Lag(cmp, period, tick, narrow)
  {
    if !Behind(cmp, tick, narrow) {
      k := 0;
    } else {
      LagShrinks(cmp, period, tick, narrow);
      var j := EventuallyCaught(NextMatch(cmp, period, narrow), period, tick, narrow);
      MatchShift(cmp, period, narrow, j);
      k := j + 1;
    }
  }

  lemma {:induction false} MatchShift(cmp: nat, period: nat, narrow: bool, k: nat)
    ensures Match(NextMatch(cmp, period, narrow), period, narrow, k) == Match(cmp, period, narrow, k + 1)
  {
    if k > 0 {
      MatchShift(cmp, period, narrow, k - 1);
    }
  }

  /**
   The catch-up loop ends exactly when it has nothing to do or the period is not a multiple of the modulus.  A
   non-zero period whose low word is zero, in a 32-bit timer, would loop for ever.
   */
  lemma CatchUpTerminates(cmp: nat, period: nat, tick: nat, narrow: bool)
    ensures (exists k: nat :: !Behind(Match(cmp, period, narrow, k), tick, narrow))
            <==> !Behind(cmp, tick, narrow) || period % Modulus(narrow) != 0
  {
    if !Behind(cmp, tick, narrow) {
      assert Match(cmp, period, narrow, 0) == cmp;
    } else if period % Modulus(narrow) != 0 {
      var k := EventuallyCaught(cmp, period, tick, narrow);
      assert !Behind(Match(cmp, period, narrow, k), tick, narrow);
    } else {
      forall k: nat
        ensures Behind(Match(cmp, period, narrow, k), tick, narrow)
      {
        StaysBehind(cmp, period, tick, narrow, k);
      }
    }
  }

  /** The loop of the periodic callback. */
  method CatchUp(cmp: nat, period: nat, tick: nat, narrow: bool) returns (result: nat)
    requires !Behind(cmp, tick, narrow) || period % Modulus(narrow) != 0
    ensures FirstMatch(cmp, period, tick, narrow, result)
    ensures Behind(cmp, tick, narrow) && period < Half(narrow) ==> Ahead(result, tick, narrow) < period
    ensures !Behind(cmp, tick, narrow) ==> result == cmp
    ensures result == cmp || result < Modulus(narrow)
  {
    result := cmp;
    ghost var k: nat := 0;
    while Behind(result, tick, narrow)
      invariant result == Match(cmp, period, narrow, k)
      invariant forall j: nat :: j < k ==> Behind(Match(cmp, period, narrow, j), tick, narrow)
      invariant k > 0 ==> Behind(cmp, tick, narrow) && result < Modulus(narrow)
      invariant k > 0 && period < Half(narrow) && !Behind(result, tick, narrow) ==> Ahead(result, tick, narrow) < period
      decreases Lag(result, period, tick, narrow)
    {
      assert Behind(cmp, tick, narrow) by {
        assert Match(cmp, period, narrow, 0) == cmp;
      }
      LagShrinks(result, period, tick, narrow);
      result := NextMatch(result, period, narrow);
      k := k + 1;
    }
    assert FirstMatchAt(cmp, period, tick, narrow, result, k);
  }

  // ---- Arming ------------------------------------------------------------------------------------------

  /** Ticks until the comparator matches, or 1 when it already did. */
  function Diff(cmp: nat, tick: nat, narrow: bool): nat {
    var ahead := Ahead(cmp, tick, narrow);
    if 0 < ahead < Half(narrow) then ahead else 1
  }

  function TicksToNs(ticks: nat): nat {
    ticks * CLK_PERIOD % TWO_64
  }

  function NsToTicks(ns: nat): nat {
    ns / CLK_PERIOD
  }

  /** The counter at time `now`, in 64 bits. */
  function CounterAt(now: nat, offset: nat): nat {
    NsToTicks((now + offset) % TWO_64)
  }

  lemma CounterAdvances(now: nat, offset: nat, ticks: nat)
    requires now + offset + ticks * CLK_PERIOD < TWO_64
    ensures CounterAt(now + TicksToNs(ticks), offset) == CounterAt(now, offset) + ticks
  {
    assert TicksToNs(ticks) == ticks * CLK_PERIOD;
  }

  lemma DiffReaches(cmp: nat, tick: nat, narrow: bool)
    ensures var expiry := tick + Diff(cmp, tick, narrow);
            && (0 < Ahead(cmp, tick, narrow) < Half(narrow) ==> Ahead(cmp, expiry, narrow) == 0)
            && (Ahead(cmp, tick, narrow) == 0 ==> Ahead(cmp + 1, expiry, narrow) == 0)
  {
    DropInner(cmp - tick, Ahead(cmp, tick, narrow), narrow);
  }

  /**
   The armed delay reaches the comparator.  When the 64-bit clock does not overflow, the counter at the expiry
   equals the comparator if that was ahead, and is one past it if it was equal; the delay itself is exact precisely
   when ten times the distance fits in 64 bits.
   */
  lemma DelayReaches(cmp: nat, now: nat, offset: nat, narrow: bool)
    ensures var tick := CounterAt(now, offset);
            var diff := Diff(cmp, tick, narrow);
            && (TicksToNs(diff) == diff * CLK_PERIOD <==> diff * CLK_PERIOD < TWO_64)
            && (now + offset + diff * CLK_PERIOD < TWO_64 ==>
                  var expiry := CounterAt(now + TicksToNs(diff), offset);
                  && expiry == tick + diff
                  && (0 < Ahead(cmp, tick, narrow) < Half(narrow) ==> Ahead(cmp, expiry, narrow) == 0)
                  && (Ahead(cmp, tick, narrow) == 0 ==> Ahead(cmp + 1, expiry, narrow) == 0))
  {
    var tick := CounterAt(now, offset);
    var diff := Diff(cmp, tick, narrow);
    DiffReaches(cmp, tick, narrow);
    if now + offset + diff * CLK_PERIOD < TWO_64 {
      CounterAdvances(now, offset, diff);
    }
  }

  /** Ticks until the low word of the counter is all ones. */
  function WrapDistance(tick: nat): nat {
    0xffff_ffff - tick % TWO_32
  }

  /** The distance armed for a one-shot 32-bit timer, and its wrap flag. */
  function ArmOneShot(cmp: nat, tick: nat): (nat, bool) {
    var diff := Diff(cmp, tick, true);
    if WrapDistance(tick) < diff then (WrapDistance(tick), true) else (diff, false)
  }

  /**
   The wrap flag is set exactly when the distance takes the low word of the counter past 2^32 - 1.  An interrupt at
   the wrap that comes on time re-arms for what is left, so the two delays add up to the original distance; one that
   comes late still aims at the same comparator, as long as that is ahead.
   */
  lemma WrapThenMatch(cmp: nat, tick: nat, later: nat)
    requires tick <= later
    ensures var (distance, wraps) := ArmOneShot(cmp, tick);
            && (wraps <==> tick % TWO_32 + Diff(cmp, tick, true) > 0xffff_ffff)
            && distance <= Diff(cmp, tick, true)
            && (!wraps ==> distance == Diff(cmp, tick, true))
            && (wraps ==> distance + Diff(cmp, tick + distance, true) == Diff(cmp, tick, true))
            && (0 < Ahead(cmp, later, true) < Half(true) ==> (later + Diff(cmp, later, true)) % TWO_32 == cmp % TWO_32)
  {
    var distance := ArmOneShot(cmp, tick).0;
    if distance < Diff(cmp, tick, true) {
      AheadLess(cmp, tick, distance, true);
    }
    Reaches(cmp, later);
  }

  /** As the counter advances towards the comparator, the distance shrinks by as much. */
  lemma AheadLess(cmp: nat, tick: nat, ticks: nat, narrow: bool)
    requires ticks <= Ahead(cmp, tick, narrow) || ticks == 0
    ensures Ahead(cmp, tick + ticks, narrow) == Ahead(cmp, tick, narrow) - ticks
  {
    SumModulo(cmp - tick - ticks, ticks, narrow);
    assert cmp - tick - ticks + ticks == cmp - tick && cmp - (tick + ticks) == cmp - tick - ticks;
  }

  lemma Reaches(cmp: nat, tick: nat)
    ensures (tick + (cmp - tick) % TWO_32) % TWO_32 == cmp % TWO_32
  {
  }
}
