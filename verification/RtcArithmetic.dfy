/**
 The 96-bit multiply and divide of the MC146818 emulation, and the periodic interrupt timer computed with it.
 */
module RtcArithmetic {
  import opened Basics
  import opened Division

  const TICKS_PER_SEC: nat := 1000000000
  const CLOCK_HZ: nat := 32768

  // ---- a * b / c through a 96-bit product --------------------------------------------------------------

  /** The low partial product, in a 64-bit register. */
  function LowProduct(a: nat, b: nat): nat {
    a % TWO_32 * b % TWO_64
  }

  /** The high partial product with the carry of the low one, in a 64-bit register. */
  function HighProduct(a: nat, b: nat): nat {
    (a / TWO_32 * b + LowProduct(a, b) / TWO_32) % TWO_64
  }

  /** The division of the low word, in a 64-bit register, after the high word left remainder r. */
  function LowQuotient(r: nat, low: nat, c: nat): nat
    requires c > 0
  {
    (r * TWO_32 + low) % TWO_64 / c
  }

  /** Two 32-bit words put together; what does not fit is lost. */
  function Words(high: nat, low: nat): nat {
    high % TWO_32 * TWO_32 + low % TWO_32
  }

  function MulDiv64(a: nat, b: nat, c: nat): nat
    requires c > 0
  {
    var rh := HighProduct(a, b);
    Words(rh / c, LowQuotient(rh % c, LowProduct(a, b) % TWO_32, c))
  }

  lemma NoOverflow(a: nat, b: nat)
    requires a < TWO_64 && b < TWO_32
    ensures LowProduct(a, b) == a % TWO_32 * b
    ensures HighProduct(a, b) == a / TWO_32 * b + LowProduct(a, b) / TWO_32
    ensures a * b == HighProduct(a, b) * TWO_32 + LowProduct(a, b) % TWO_32
  {
    var low, high := a % TWO_32, a / TWO_32;
    PartBound(low, b);
    PartBound(high, b);
    WholeProduct(a, b, low, high);
    Carried(low * b, high * b);
  }

  lemma PartBound(part: nat, b: nat)
    requires part < TWO_32 && b < TWO_32
    ensures part * b <= (TWO_32 - 1) * (TWO_32 - 1)
  {
    ProductBound(part, b, TWO_32 - 1, TWO_32 - 1);
  }

  lemma WholeProduct(a: nat, b: nat, low: nat, high: nat)
    requires a == high * TWO_32 + low
    ensures a * b == high * b * TWO_32 + low * b
  {
  }

  /** Two partial products fit in 64 bits, and so does the high one with the carry of the low one. */
  lemma Carried(low: nat, high: nat)
    requires low <= (TWO_32 - 1) * (TWO_32 - 1) && high <= (TWO_32 - 1) * (TWO_32 - 1)
    ensures low % TWO_64 == low && (high + low / TWO_32) % TWO_64 == high + low / TWO_32
    ensures high * TWO_32 + low == (high + low / TWO_32) * TWO_32 + low % TWO_32
  {
  }

  lemma Regroup(q: nat, r: nat, c: nat, e: nat, f: nat, l: nat)
    requires r * TWO_32 + l == e * c + f
    ensures (q * c + r) * TWO_32 + l == (q * TWO_32 + e) * c + f
  {
    assert (q * TWO_32 + e) * c == q * c * TWO_32 + e * c;
  }

  lemma LowQuotientExact(r: nat, l: nat, c: nat) returns (f: nat)
    requires r < c < TWO_32 && l < TWO_32
    ensures f < c && LowQuotient(r, l, c) < TWO_32
    ensures r * TWO_32 + l == LowQuotient(r, l, c) * c + f
  {
    var d := r * TWO_32 + l;
    assert d % TWO_64 == d;
    QuotientBound(d, c, TWO_32);
    f := d % c;
  }

  /** Long division by c in base 2^32. */
  lemma LongDivision(n: nat, h: nat, q: nat, r: nat, l: nat, c: nat)
    requires r < c < TWO_32 && l < TWO_32
    requires n == h * TWO_32 + l && h == q * c + r
    ensures LowQuotient(r, l, c) < TWO_32 && n / c == q * TWO_32 + LowQuotient(r, l, c)
  {
    var f := LowQuotientExact(r, l, c);
    var e := LowQuotient(r, l, c);
    Regroup(q, r, c, e, f, l);
    QuotientIs(n, c, q * TWO_32 + e, f);
  }

  lemma QuotientIs(n: nat, c: nat, k: nat, f: nat)
    requires f < c && n == k * c + f
    ensures n / c == k
  {
    BlockOf(n, c, k);
  }

  lemma WordsOf(q: nat, e: nat)
    requires e < TWO_32
    ensures (q * TWO_32 + e) % TWO_64 == Words(q, e)
  {
  }

  lemma DivideWords(n: nat, h: nat, l: nat, c: nat)
    requires n == h * TWO_32 + l && l < TWO_32 && 0 < c < TWO_32
    ensures Words(h / c, LowQuotient(h % c, l, c)) == n / c % TWO_64
  {
    var q, r := h / c, h % c;
    LongDivision(n, h, q, r, l, c);
    WordsOf(q, LowQuotient(r, l, c));
  }

  /**
   For every 64-bit a and 32-bit b and c, c not zero, the result is the floor of a * b / c modulo 2^64: the exact
   floor whenever it fits in 64 bits.
   */
  lemma MulDivExact(a: nat, b: nat, c: nat)
    requires a < TWO_64 && b < TWO_32 && 0 < c < TWO_32
    ensures MulDiv64(a, b, c) == a * b / c % TWO_64
  {
    NoOverflow(a, b);
    DivideWords(a * b, HighProduct(a, b), LowProduct(a, b) % TWO_32, c);
  }

  lemma MulDivFits(a: nat, b: nat, c: nat, quotient: nat)
    requires a < TWO_64 && b < TWO_32 && 0 < c < TWO_32
    requires quotient == a * b / c && quotient < TWO_64
    ensures MulDiv64(a, b, c) == quotient
  {
    MulDivExact(a, b, c);
    WrapIdle(quotient);
  }

  lemma WrapIdle(n: nat)
    requires n < TWO_64
    ensures n % TWO_64 == n
  {
  }

  // ---- The periodic timer ------------------------------------------------------------------------------

  /** Nanoseconds to 32768 Hz ticks. */
  function ClockTick(now: nat): nat {
    now * CLOCK_HZ / TICKS_PER_SEC
  }

  /** The scheduled expiry of a tick. */
  function TickTime(tick: nat): nat {
    tick * TICKS_PER_SEC / CLOCK_HZ + 1
  }

  /** The two conversions are what the 96-bit routine computes, for every time the clock can reach. */
  lemma ClockTickComputed(now: nat)
    requires now < TWO_63
    ensures MulDiv64(now, CLOCK_HZ, TICKS_PER_SEC) == ClockTick(now)
  {
    MulDivFits(now, CLOCK_HZ, TICKS_PER_SEC, ClockTick(now));
  }

  lemma TickTimeComputed(tick: nat)
    requires TickTime(tick) < TWO_63
    ensures MulDiv64(tick, TICKS_PER_SEC, CLOCK_HZ) + 1 == TickTime(tick)
  {
    MulDivFits(tick, TICKS_PER_SEC, CLOCK_HZ, TickTime(tick) - 1);
  }

  /** The first multiple of the period after the current tick. */
  function NextTick(tick: nat, period: nat): nat
    requires period > 0
  {
    tick - tick % period + period
  }

  function NextPeriodicTime(now: nat, period: nat): nat
    requires period > 0
  {
    TickTime(NextTick(ClockTick(now), period))
  }

  function PowerOfTwo(n: nat): nat {
    if n == 0 then 1 else 2 * PowerOfTwo(n - 1)
  }

  /** The shift that selects the period in register A; codes 1 and 2 repeat codes 8 and 9. */
  function PeriodShift(code: nat): (shift: nat)
    requires 0 < code < 16
    ensures 2 <= shift <= 14
  {
    if code <= 2 then code + 6 else code - 1
  }

  /** The interrupt period in ticks. */
  function Period(code: nat): (period: nat)
    requires 0 < code < 16
    ensures 4 <= period <= 16384
  {
    assert PowerOfTwo(2) == 4;
    assert PowerOfTwo(6) == 64 && PowerOfTwo(10) == 1024 && PowerOfTwo(14) == 16384;
    PowerOfTwo(PeriodShift(code))
  }

  /** The tick with its low bits masked off, bit by bit. */
  function ClearLow(tick: nat, bits: nat): nat {
    if bits == 0 then tick else 2 * ClearLow(tick / 2, bits - 1)
  }

  lemma Doubled(half: nat, period: nat, bit: nat)
    requires period > 0 && bit < 2
    ensures (2 * half + bit) % (2 * period) == 2 * (half % period) + bit
  {
    var k := half / period;
    assert 2 * half == k * (2 * period) + 2 * (half % period);
    BlockOf(2 * half + bit, 2 * period, k);
  }

  /** Masking with a power of two rounds down to a multiple of it. */
  lemma {:induction false} MaskRounds(tick: nat, bits: nat)
    ensures PowerOfTwo(bits) > 0 && ClearLow(tick, bits) == tick - tick % PowerOfTwo(bits)
  {
    if bits > 0 {
      MaskRounds(tick / 2, bits - 1);
      Doubled(tick / 2, PowerOfTwo(bits - 1), tick % 2);
    }
  }

  /** Converting a scheduled expiry back gives exactly the tick it was scheduled for. */
  lemma ScheduledTickExact(tick: nat)
    ensures ClockTick(TickTime(tick)) == tick
  {
  }

  /** The time of the k-th periodic callback; each is scheduled from the scheduled time of the one before. */
  function PeriodicTime(start: nat, period: nat, k: nat): nat
    requires period > 0
  {
    NextPeriodicTime(if k == 0 then start else PeriodicTime(start, period, k - 1), period)
  }

  /** The k-th multiple of the period after the tick of `start`, counting from 0. */
  function PeriodicTick(start: nat, period: nat, k: nat): nat
    requires period > 0
  {
    (ClockTick(start) / period + k + 1) * period
  }

  lemma NextTickInBlock(tick: nat, period: nat, j: nat, next: nat)
    requires period > 0 && j * period <= tick < next
    requires next == (j + 1) * period == j * period + period
    ensures NextTick(tick, period) == next
  {
    BlockOf(tick, period, j);
  }

  lemma FirstPeriodicTick(start: nat, period: nat)
    requires period > 0
    ensures PeriodicTick(start, period, 0) == NextTick(ClockTick(start), period)
  {
    var j := ClockTick(start) / period;
    Successor(j, period);
    NextTickInBlock(ClockTick(start), period, j, (j + 1) * period);
  }

  lemma PeriodicTickStep(start: nat, period: nat, k: nat)
    requires period > 0
    ensures PeriodicTick(start, period, k + 1) == PeriodicTick(start, period, k) + period
    ensures NextTick(PeriodicTick(start, period, k), period) == PeriodicTick(start, period, k + 1)
  {
    var j := ClockTick(start) / period + k + 1;
    Successor(j, period);
    NextTickInBlock(j * period, period, j, (j + 1) * period);
  }

  /**
   No drift: programmed at time `start`, the k-th periodic callback is scheduled for the k-th next multiple of the
   period and falls in exactly that tick of the 32768 Hz clock, for every k.  No multiple is skipped or repeated.
   */
  lemma {:induction false} PeriodicLands(start: nat, period: nat, k: nat)
    requires period > 0
    ensures PeriodicTime(start, period, k) == TickTime(PeriodicTick(start, period, k))
    ensures ClockTick(PeriodicTime(start, period, k)) == PeriodicTick(start, period, k)
    ensures PeriodicTick(start, period, 0) == NextTick(ClockTick(start), period)
    ensures PeriodicTick(start, period, k + 1) == PeriodicTick(start, period, k) + period
  {
    FirstPeriodicTick(start, period);
    PeriodicTickStep(start, period, k);
    if k > 0 {
      PeriodicLands(start, period, k - 1);
      PeriodicTickStep(start, period, k - 1);
    }
    ScheduledTickExact(PeriodicTick(start, period, k));
  }
}
