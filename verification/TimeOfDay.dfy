/**
 Wall-clock time kept as an offset to a 32-bit tick counter: `settimeofday` computes the offset with
 a 32-bit product, `gettimeofday` adds the ticks back with a 64-bit one.
 */
module TimeOfDay {
  import opened Arithmetic
  import opened Bytes
  import opened Errno

  const US: int := 1_000_000

  /** `struct timeval` */
  datatype Time = Time(sec: int, usec: int) {
    function Micros(): int {
      sec * US + usec
    }

    predicate Normalised() {
      0 <= usec < US
    }
  }

  datatype Zone = Zone(minutesWest: int, dstTime: int)

  /** The normalised form of a sum: a negative time becomes zero, but only if its microseconds are
      negative. */
  function Normal(t: Time): Time {
    if t.usec < 0 && t.Micros() < 0 then Time(0, 0) else Time(t.Micros() / US, t.Micros() % US)
  }

  /** `us` microseconds after `t` */
  function Later(t: Time, us: nat): Time {
    Time((t.Micros() + us) / US, (t.Micros() + us) % US)
  }

  function TickLength(rate: u32): nat
    requires rate > 0
  {
    US / rate
  }

  /** The microseconds that `n` ticks take. */
  function Span(n: nat, rate: u32): nat
    requires rate > 0
  {
    n * TickLength(rate)
  }

  /** The offset that `settimeofday(t)` stores when the counter stands at `n`. */
  function Offset(t: Time, n: u32, rate: u32): Time
    requires rate > 0
  {
    Time(Int32(t.sec - n / rate), Int32(t.usec - Wrap(Span(n, rate)) % US))
  }

  function Sum(reset: Time, n: u32, rate: u32): Time
    requires rate > 0
  {
    Time(Int32(reset.sec + n / rate), Int32(reset.usec + Span(n, rate) % US))
  }

  /** What `gettimeofday` returns when the counter stands at `n`. */
  function Reading(reset: Time, n: u32, rate: u32): Time
    requires rate > 0
  {
    Normal(Sum(reset, n, rate))
  }

  // ---------------------------------------------------------------- arithmetic

  lemma Int32Of(x: int, y: int, k: int)
    requires -0x8000_0000 <= y < 0x8000_0000 && x == y + k * TWO_32
    ensures Int32(x) == y
  {
    assert (x + 0x8000_0000) % TWO_32 == y + 0x8000_0000;
  }

  /** Storing an offset in 32 bits loses nothing if the final sum fits. */
  lemma Int32Sum(a: int, b: int)
    requires -0x8000_0000 <= a + b < 0x8000_0000
    ensures Int32(Int32(a) + b) == a + b
  {
    var k := (a + 0x8000_0000) / TWO_32;
    assert Int32(a) == a - k * TWO_32;
    Int32Of(Int32(a) + b, a + b, -k);
  }

  /** If the rate divides a million, whole seconds and the remainder add up to all ticks. */
  lemma TicksAddUp(n: nat, rate: nat)
    requires 0 < rate && US % rate == 0
    ensures n / rate * US + n * (US / rate) % US == n * (US / rate)
  {
    var u, q, r := US / rate, n / rate, n % rate;
    assert rate * u == US;
    assert n == q * rate + r;
    Regroup(q, rate, r, u);
    assert u * rate == US by { assert rate * u == u * rate; }
    assert n * u == q * US + r * u;
    ScaledRemainder(r, 0, u, rate) by { assert u > 0; }
    DivModUnique(n * u, US, q, r * u);
  }

  /** The error of the 32-bit product, in microseconds. */
  function Error(n: u32, rate: u32): int
    requires rate > 0
  {
    Span(n, rate) % US - Wrap(Span(n, rate)) % US
  }

  // the inverse of 2^26 modulo 15625, and the quotient
  const INVERSE: nat := 12659
  const INVERSE_QUOTIENT: nat := 54369991

  /** 2^32 and a million share the factor 64 only, so the wraps cancel in multiples of 15625. */
  lemma WrapsCancel(q: nat)
    ensures q * TWO_32 % US == 0 <==> q % 15625 == 0
  {
    if q * TWO_32 % US == 0 {
      MultipleOf(q, q * TWO_32 / US);
    }
    if q % 15625 == 0 {
      var k := q / 15625;
      assert q * TWO_32 == US * (k * 0x400_0000);
    }
  }

  lemma MultipleOf(q: int, k: int)
    requires q * 0x400_0000 == 15625 * k
    ensures q % 15625 == 0
  {
    assert q == 15625 * (k * INVERSE - INVERSE_QUOTIENT * q);
  }

  lemma NoError(n: u32, rate: u32)
    requires rate > 0 && Span(n, rate) < TWO_32
    ensures Error(n, rate) == 0
  {
    var total: nat := Span(n, rate);
    hide TickLength;
    assert Wrap(total) == total;
  }

  lemma SameRemainder(x: nat, r: nat)
    ensures (x + r) % US == r % US <==> x % US == 0
  {
  }

  lemma ErrorIsWraps(n: u32, rate: u32)
    requires rate > 0
    ensures Error(n, rate) == 0 <==> Span(n, rate) / TWO_32 % 15625 == 0
  {
    var total: nat := Span(n, rate);
    var q, r := total / TWO_32, total % TWO_32;
    SameRemainder(q * TWO_32, r);
    WrapsCancel(q);
    assert Error(n, rate) == total % US - r % US;
    hide Error, TickLength;
    assert total == q * TWO_32 + r;
  }

  // ---------------------------------------------------------------- set, then get

  /** A time that `m` ticks later can still be represented. */
  predicate Fits(t: Time, m: nat, rate: u32)
    requires rate > 0
  {
    t.Normalised() && t.sec >= 0 && t.sec + m / rate + 1 < 0x7FFF_FFFF
  }

  lemma DivSum(a: nat, b: nat, d: nat)
    requires d > 0
    ensures a / d + b / d <= (a + b) / d <= a / d + b / d + 1
  {
    DivSumParts(a, b, d, a / d, a % d, b / d, b % d);
  }

  lemma DivSumParts(a: nat, b: nat, d: nat, p: nat, r: nat, q: nat, s: nat)
    requires d > 0 && a == p * d + r && b == q * d + s && r < d && s < d
    ensures p + q <= (a + b) / d <= p + q + 1
  {
    assert (p + q) * d == p * d + q * d;
    if r + s < d {
      DivModUnique(a + b, d, p + q, r + s);
    } else {
      assert (p + q + 1) * d == (p + q) * d + d;
      DivModUnique(a + b, d, p + q + 1, r + s - d);
    }
  }

  /** The seconds of the sum at counter value `w` can be represented. */
  predicate InRange(t: Time, n: u32, w: u32, rate: u32)
    requires rate > 0
  {
    -0x8000_0000 <= t.sec - n / rate + w / rate < 0x8000_0000
  }

  /** The sum that `gettimeofday` starts from, at counter value `w`. */
  lemma SumAt(t: Time, n: u32, w: u32, rate: u32)
    requires rate > 0 && t.Normalised() && InRange(t, n, w, rate)
    ensures var s := Sum(Offset(t, n, rate), w, rate);
      && s.sec == t.sec - n / rate + w / rate
      && s.usec == t.usec - Wrap(Span(n, rate)) % US + Span(w, rate) % US
  {
    Int32Sum(t.sec - n / rate, w / rate);
    Int32Sum(t.usec - Wrap(Span(n, rate)) % US, Span(w, rate) % US);
  }

  lemma SumMicrosAt(t: Time, n: u32, w: u32, rate: u32)
    requires rate > 0 && US % rate == 0 && t.Normalised() && InRange(t, n, w, rate)
    ensures Sum(Offset(t, n, rate), w, rate).Micros() == t.Micros() + Error(n, rate) + Span(w, rate) - Span(n, rate)
  {
    SumAt(t, n, w, rate);
    TicksAddUp(n, rate);
    TicksAddUp(w, rate);
    hide Sum, Offset, InRange;
  }

  lemma SumMicros(t: Time, n: u32, m: nat, rate: u32)
    requires rate > 0 && US % rate == 0 && n + m < TWO_32 && Fits(t, m, rate)
    ensures t.Normalised() && t.sec >= 0
    ensures Sum(Offset(t, n, rate), n + m, rate).Micros() == t.Micros() + Error(n, rate) + Span(m, rate)
  {
    DivSum(n, m, rate);
    SpanSum(n, m, rate);
    assert InRange(t, n, n + m, rate);
    hide Sum, Offset, Error, Span, InRange;
    SumMicrosAt(t, n, n + m, rate);
  }

  lemma SpanSum(a: nat, b: nat, rate: u32)
    requires rate > 0
    ensures Span(a + b, rate) == Span(a, rate) + Span(b, rate)
  {
  }

  lemma NormalOf(s: Time, t: Time, us: nat)
    requires s.Micros() == t.Micros() + us && t.Normalised() && t.sec >= 0
    ensures s.Micros() >= 0
    ensures Normal(s) == Later(t, us) && Normal(s).Normalised() && Normal(s).sec >= 0
    ensures Normal(s).Micros() == t.Micros() + us
  {
  }

  /** Setting the clock and reading it `m` ticks later gives exactly `m` ticks more, in normal form,
      as long as the 32-bit product did not wrap when the clock was set; the time is never clamped. */
  lemma ClockIsExact(t: Time, n: u32, m: nat, rate: u32)
    requires rate > 0 && US % rate == 0 && n + m < TWO_32 && Fits(t, m, rate)
    requires Span(n, rate) < TWO_32
    ensures var r := Reading(Offset(t, n, rate), n + m, rate);
      r == Later(t, Span(m, rate)) && r.Normalised() && r.sec >= 0
    ensures Sum(Offset(t, n, rate), n + m, rate).Micros() >= 0
  {
    hide Sum, Offset, Error, Span, Normal, Later, Fits;
    SumMicros(t, n, m, rate);
    NoError(n, rate);
    NormalOf(Sum(Offset(t, n, rate), n + m, rate), t, Span(m, rate));
  }

  lemma FitsEarlier(t: Time, m: nat, k: nat, rate: u32)
    requires rate > 0 && m <= k && Fits(t, k, rate)
    ensures Fits(t, m, rate)
  {
    DivSum(m, k - m, rate);
  }

  /** Once the tick counter has wrapped the clock is wrong: it has jumped back by 2^32 ticks. */
  lemma BehindAfterWrap(t: Time, n: u32, m: nat, rate: u32)
    requires rate > 1 && US % rate == 0 && n + m >= TWO_32 && Fits(t, m, rate) && Span(n, rate) < TWO_32
    ensures Reading(Offset(t, n, rate), Wrap(n + m), rate).Micros() < Later(t, Span(m, rate)).Micros()
  {
    var w := Wrap(n + m);
    var back := n + m - w;
    WrapInRange(t, n, m, rate);
    SumMicrosAt(t, n, w, rate);
    NoError(n, rate);
    SpanSum(n, m, rate);
    SpanSum(w, back, rate);
    SpanPositive(back, rate);
    SpanPositive(m, rate);
    hide Sum, Offset, Error, Span, InRange, Fits;
    LaterMicros(t, Span(m, rate));
  }

  lemma LaterMicros(t: Time, us: nat)
    ensures Later(t, us).Micros() == t.Micros() + us
  {
  }

  lemma SpanPositive(n: nat, rate: u32)
    requires n > 0 && 0 < rate && US % rate == 0
    ensures Span(n, rate) > 0
  {
    assert TickLength(rate) > 0;
    MulGap(0, n, TickLength(rate));
  }

  lemma WrapInRange(t: Time, n: u32, m: nat, rate: u32)
    requires rate > 1 && n + m >= TWO_32 && Fits(t, m, rate)
    ensures InRange(t, n, Wrap(n + m), rate)
  {
    AtMostHalf(n, rate);
    DivSum(n, m, rate);
    DivMonotone(Wrap(n + m), n + m, rate);
  }

  lemma DivMonotone(a: nat, b: nat, d: nat)
    requires a <= b && d > 0
    ensures 0 <= a / d <= b / d
  {
    DivSum(a, b - a, d);
  }

  lemma AtMostHalf(n: u32, rate: u32)
    requires rate > 1
    ensures n / rate < 0x8000_0000
  {
  }

  /** A clock that is set without a wrap of the product stays exact exactly until the tick counter
      wraps; only at one tick a second does it survive that, because the seconds wrap as well. */
  lemma ExactUntilWrap(t: Time, n: u32, m: nat, rate: u32)
    requires rate > 0 && US % rate == 0 && Fits(t, m, rate) && Span(n, rate) < TWO_32
    ensures Reading(Offset(t, n, rate), Wrap(n + m), rate) == Later(t, Span(m, rate)) <==> n + m < TWO_32 || rate == 1
  {
    assert n + m < TWO_32 ==> Wrap(n + m) == n + m;
    hide Reading, Offset, Later, Fits, Span, Wrap, TickLength;
    if n + m < TWO_32 {
      ClockIsExact(t, n, m, rate);
    } else if rate > 1 {
      BehindAfterWrap(t, n, m, rate);
    } else {
      OneTickASecond(t, n, m);
    }
  }

  lemma OneTickASecond(t: Time, n: u32, m: nat)
    requires Fits(t, m, 1) && Span(n, 1) < TWO_32
    ensures Reading(Offset(t, n, 1), Wrap(n + m), 1) == Later(t, Span(m, 1))
  {
    WholeSeconds(m);
    SumInSeconds(t, n, m);
    hide Sum, Offset, Normal, Later, Span;
    NormalOf(Sum(Offset(t, n, 1), Wrap(n + m), 1), t, Span(m, 1));
  }

  lemma WholeSeconds(n: nat)
    ensures Span(n, 1) == n * US && Span(n, 1) % US == 0 && n / 1 == n
  {
  }

  lemma SumInSeconds(t: Time, n: u32, m: nat)
    requires Fits(t, m, 1) && Span(n, 1) < TWO_32
    ensures Sum(Offset(t, n, 1), Wrap(n + m), 1) == Time(t.sec + m, t.usec)
  {
    var w, k := Wrap(n + m), (n + m) / TWO_32;
    assert n + m == w + k * TWO_32;
    WholeSeconds(n);
    WholeSeconds(w);
    WholeSeconds(m);
    assert Wrap(Span(n, 1)) == Span(n, 1);
    hide Wrap, Span, Int32;
    Int32Wrapped(t.sec - n, w, t.sec + m, k);
    Int32Of(t.usec, t.usec, 0);
  }

  /** Adding in 32 bits, off by a multiple of 2^32. */
  lemma Int32Wrapped(a: int, b: int, y: int, k: int)
    requires -0x8000_0000 <= y < 0x8000_0000 && a + b == y - k * TWO_32
    ensures Int32(Int32(a) + b) == y
  {
    var q := (a + 0x8000_0000) / TWO_32;
    assert Int32(a) == a - q * TWO_32;
    Int32Of(Int32(a) + b, y, -k - q);
  }

  /** Time never runs backwards: each tick adds its length. */
  lemma ClockIsMonotone(t: Time, n: u32, m: nat, k: nat, rate: u32)
    requires rate > 0 && US % rate == 0 && m <= k && n + k < TWO_32 && Fits(t, k, rate)
    requires Span(n, rate) < TWO_32
    ensures Reading(Offset(t, n, rate), n + k, rate).Micros()
         == Reading(Offset(t, n, rate), n + m, rate).Micros() + Span(k - m, rate)
  {
    hide Sum, Offset, Error, Span, Normal, Later, Fits;
    FitsEarlier(t, m, k, rate);
    SumMicros(t, n, m, rate);
    SumMicros(t, n, k, rate);
    NoError(n, rate);
    NormalOf(Sum(Offset(t, n, rate), n + m, rate), t, Span(m, rate));
    NormalOf(Sum(Offset(t, n, rate), n + k, rate), t, Span(k, rate));
    SpanSum(m, k - m, rate);
  }

  /** A clock set to a time other than zero reads back that time if and only if the product wrapped
      a multiple of 15625 times. */
  lemma RoundTripIff(t: Time, n: u32, rate: u32)
    requires rate > 0 && US % rate == 0 && Fits(t, 0, rate) && t.Micros() > 0
    ensures Reading(Offset(t, n, rate), n, rate) == t <==> Span(n, rate) / TWO_32 % 15625 == 0
  {
    ErrorIsWraps(n, rate);
    SumMicros(t, n, 0, rate);
    var s := Sum(Offset(t, n, rate), n, rate);
    assert Later(t, 0) == t;
    if Normal(s) == t {
      assert t.Micros() == s.Micros();
    }
  }

  /** With at least 64 ticks a second, that means: if and only if it did not wrap at all, which it
      does 2^32 microseconds after reset. */
  lemma RoundTripIffEarly(t: Time, n: u32, rate: u32)
    requires rate >= 64 && US % rate == 0 && Fits(t, 0, rate) && t.Micros() > 0
    ensures Reading(Offset(t, n, rate), n, rate) == t <==> Span(n, rate) < TWO_32
  {
    RoundTripIff(t, n, rate);
    TicksAtMost(rate);
    hide Offset, Reading, TickLength;
    WrapsBelow(n, TickLength(rate));
  }

  /** At a thousand ticks a second, 72 minutes after reset. */
  lemma RoundTripFails()
    ensures Reading(Offset(Time(1, 0), 4_320_000, 1000), 4_320_000, 1000) != Time(1, 0)
  {
    assert TickLength(1000) == 1000 && Fits(Time(1, 0), 0, 1000);
    RoundTripIffEarly(Time(1, 0), 4_320_000, 1000);
  }

  lemma TicksAtMost(rate: u32)
    requires rate >= 64
    ensures TickLength(rate) <= 15625
  {
  }

  lemma WrapsBelow(n: u32, u: nat)
    requires u <= 15625
    ensures n * u / TWO_32 % 15625 == 0 <==> n * u < TWO_32
  {
    assert n * u + n * (15625 - u) == n * 15625;
    assert n * (15625 - u) >= 0;
    var total: nat := n * u;
    assert total / TWO_32 < 15625;
  }

  /** A clock set when the counter stood at zero stays exact if and only if the rate divides a
      million. */
  lemma ExactIffRateDivides(t: Time, rate: u32)
    requires rate > 0 && t.Normalised() && 0 <= t.sec < 0x7FFF_FFF0
    ensures (forall m: nat :: m < TWO_32 && Fits(t, m, rate) ==> ReadsLater(t, m, rate)) <==> US % rate == 0
  {
    if US % rate == 0 {
      forall m: nat | m < TWO_32 && Fits(t, m, rate)
        ensures ReadsLater(t, m, rate)
      {
        ClockIsExact(t, 0, m, rate);
      }
    } else {
      DriftsAtOnce(t, rate);
      hide ReadsLater;
    }
  }

  lemma ShortSecond(rate: u32)
    requires rate > 0 && US % rate != 0
    ensures Span(rate, rate) < US
  {
    assert US == US / rate * rate + US % rate;
  }

  lemma AtReset(rate: u32)
    requires rate > 0
    ensures 0 / rate == 0 && rate / rate == 1 && Span(0, rate) == 0
  {
    DivModUnique(0, rate, 0, 0);
    DivModUnique(rate, rate, 1, 0);
  }

  /** What a clock set at reset sums up to after as many ticks as there are in a second. */
  lemma SumOfSecond(t: Time, rate: u32)
    requires rate > 0 && t.Normalised() && 0 <= t.sec < 0x7FFF_FFF0 && US % rate != 0
    ensures Sum(Offset(t, 0, rate), rate, rate) == Time(t.sec + 1, t.usec + Span(rate, rate))
  {
    AtReset(rate);
    ShortSecond(rate);
    hide Span;
    SumAt(t, 0, rate, rate);
    hide Sum, Offset;
  }

  /** With another rate the clock is wrong after as many ticks as there are in a second. */
  lemma DriftsAtOnce(t: Time, rate: u32)
    requires rate > 0 && t.Normalised() && 0 <= t.sec < 0x7FFF_FFF0 && US % rate != 0
    ensures Fits(t, rate, rate) && !ReadsLater(t, rate, rate)
  {
    ShortSecond(rate);
    SumOfSecond(t, rate);
    hide Span;
    var us := Span(rate, rate);
    var s := Sum(Offset(t, 0, rate), rate, rate);
    hide Sum, Offset;
    assert Normal(s).Micros() == s.Micros() && Later(t, us).Micros() == t.Micros() + us;
  }

  predicate ReadsLater(t: Time, m: nat, rate: u32)
    requires rate > 0 && m < TWO_32
  {
    Reading(Offset(t, 0, rate), m, rate) == Later(t, Span(m, rate))
  }

  /** The reading is normalised and is the sum, to the microsecond, unless the sum is negative in both
      senses: then the reading is 0. */
  lemma ReadingIsSum(reset: Time, n: u32, rate: u32)
    requires rate > 0
    ensures var sum, r := Sum(reset, n, rate), Reading(reset, n, rate);
      && r.Normalised()
      && (sum.usec < 0 && sum.Micros() < 0 ==> r == Time(0, 0))
      && (r.Micros() == sum.Micros() <==> sum.usec >= 0 || sum.Micros() >= 0)
  {
    hide Sum;
  }

  // ---------------------------------------------------------------- the system calls

  /** One round of either normalisation loop keeps the normal form. */
  lemma RoundKeepsNormal(t: Time)
    ensures t.usec < 0 && t.sec <= 0 ==> Normal(t) == Time(0, 0) == Normal(Time(0, 0))
    ensures t.usec < 0 && t.sec > 0 ==> Normal(Time(t.sec - 1, t.usec + US)) == Normal(t)
    ensures t.usec >= US ==> Normal(Time(t.sec + 1, t.usec - US)) == Normal(t)
    ensures 0 <= t.usec < US ==> Normal(t) == t
  {
  }

  class Clock {
    var nticks: u32
    var tickRate: u32
    var resetTime: Time
    var timezone: Zone
    var errno: int

    constructor ()
      ensures nticks == 0 && tickRate == 0 && resetTime == Time(0, 0)
    {
      nticks, tickRate, resetTime, timezone, errno := 0, 0, Time(0, 0), Zone(0, 0), 0;
    }

    method SetTimeOfDay(t: Time, tz: Zone) returns (r: int)
      modifies this`resetTime, this`timezone, this`errno
      ensures tickRate > 0 ==>
        r == 0 && resetTime == Offset(t, nticks, tickRate) && timezone == tz && errno == old(errno)
      ensures tickRate == 0 ==>
        r == -1 && errno == ENOSYS && resetTime == old(resetTime) && timezone == old(timezone)
    {
      if tickRate != 0 {
        var u: nat := US / tickRate;
        resetTime := Time(Int32(t.sec - nticks / tickRate), Int32(t.usec - Wrap(nticks * u) % US));
        timezone := tz;
        return 0;
      }
      errno := ENOSYS;
      return -1;
    }

    /** The caller's structures are passed in and returned; there need not be one for the zone. */
    method GetTimeOfDay(t0: Time, tz0: Zone, wantZone: bool) returns (r: int, t: Time, tz: Zone)
      ensures tickRate > 0 ==> r == 0 && t == Reading(resetTime, nticks, tickRate)
      ensures tickRate > 0 ==> tz == if wantZone then timezone else tz0
      ensures tickRate == 0 ==> r == -ENOTSUP && t == t0 && tz == tz0
    {
      t, tz := t0, tz0;
      if tickRate != 0 {
        var sec := Int32(resetTime.sec + nticks / tickRate);
        var usec := Int32(resetTime.usec + nticks * (US / tickRate) % US);
        ghost var sum := Sum(resetTime, nticks, tickRate);
        assert sum == Time(sec, usec);
        hide Normal, Sum, Int32;
        while usec < 0
          invariant Normal(Time(sec, usec)) == Normal(sum)
          decreases -usec
        {
          RoundKeepsNormal(Time(sec, usec));
          if sec <= 0 {
            sec, usec := 0, 0;
            break;
          } else {
            sec := sec - 1;
            usec := usec + US;
          }
        }
        while usec >= US
          invariant usec >= 0 && Normal(Time(sec, usec)) == Normal(sum)
          decreases usec
        {
          RoundKeepsNormal(Time(sec, usec));
          sec := sec + 1;
          usec := usec - US;
        }
        RoundKeepsNormal(Time(sec, usec));
        t := Time(sec, usec);
        if wantZone {
          tz := timezone;
        }
        return 0, t, tz;
      }
      return -ENOTSUP, t, tz;
    }
  }
}
