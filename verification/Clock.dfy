/** The time of day: setting it at one tick and reading it at another. */
module Clock {
  import opened Arithmetic
  import opened Errno
  import opened Words

  const US: int := 1_000_000

  /** Storing a word in a signed field. */
  function ToSigned(x: int): int {
    (x + 0x8000_0000) % TWO32 - 0x8000_0000
  }

  datatype Time = Time(sec: int, usec: int)

  function Micros(t: Time): int {
    t.sec * US + t.usec
  }

  predicate Normal(t: Time) {
    0 <= t.usec < US
  }

  /** The microseconds of `n` ticks, before any wrap. */
  function TickMicros(n: U32, rate: U32): nat
    requires 0 < rate
  {
    n * (US / rate)
  }

  /** What `settimeofday` stores: its product is taken in 32 bits. */
  function ResetTime(n: U32, rate: U32, t: Time): Time
    requires 0 < rate
  {
    Time(ToSigned(t.sec - n / rate), ToSigned(t.usec - TickMicros(n, rate) % TWO32 % US))
  }

  /** What `gettimeofday` starts from: its product is taken in 64 bits. */
  function RawTime(n: U32, rate: U32, reset: Time): Time
    requires 0 < rate
  {
    Time(ToSigned(reset.sec + n / rate), ToSigned(reset.usec + TickMicros(n, rate) % US))
  }

  /** Bringing the microseconds into range; before the epoch everything is zero. */
  function Normalised(t: Time): (r: Time)
    ensures Normal(r)
    decreases if t.usec < 0 then US - t.usec else t.usec
  {
    if t.usec < 0 then
      if t.sec <= 0 then Time(0, 0) else Normalised(Time(t.sec - 1, t.usec + US))
    else if US <= t.usec then Normalised(Time(ToSigned(t.sec + 1), t.usec - US))
    else t
  }

  function Reading(n: U32, rate: U32, reset: Time): Time
    requires 0 < rate
  {
    Normalised(RawTime(n, rate, reset))
  }

  /** The seconds fit the signed field. */
  predicate Signed(t: Time) {
    -0x8000_0000 <= t.sec < 0x8000_0000
  }

  // ---------------------------------------------------------------- exactness

  /** A time in range is not changed by storing it. */
  lemma SignedFits(x: int)
    requires -0x8000_0000 <= x < 0x8000_0000
    ensures ToSigned(x) == x
  {
  }

  lemma SignedAdds(x: int, y: int)
    ensures ToSigned(ToSigned(x) + y) == ToSigned(x + y)
  {
  }

  /** Normalising keeps the number of microseconds, from the epoch on. */
  lemma NormalisedKeeps(t: Time)
    requires -US < t.usec < 2 * US && 0 <= Micros(t) && t.sec < 0x7FFF_FFFF
    ensures Micros(Normalised(t)) == Micros(t)
  {
    SignedFits(t.sec + 1);
  }

  /** What normalising gives, in seconds and microseconds: the same time, or zero when that
      is before the epoch and there are microseconds to be borrowed. */
  lemma {:induction false} NormalisedIs(t: Time)
    requires Signed(t) && t.sec + t.usec / 1_000_000 < 0x8000_0000
    ensures var m := t.sec * 1_000_000 + t.usec;
            Normalised(t) == if t.usec < 0 && m < 0 then Time(0, 0) else Time(m / 1_000_000, m % 1_000_000)
    decreases if t.usec < 0 then US - t.usec else t.usec
  {
    hide ToSigned;
    if t.usec < 0 {
      if 0 < t.sec {
        NormalisedIs(Time(t.sec - 1, t.usec + US));
      }
    } else if US <= t.usec {
      SignedFits(t.sec + 1);
      NormalisedIs(Time(t.sec + 1, t.usec - US));
    }
  }

  lemma StoredSum(reset: Time, s: nat, m: nat)
    requires Signed(reset) && -1_000_000 < reset.usec < 1_000_000 && m < 1_000_000 && reset.sec + s < 0x7FFF_FFFF
    ensures var u := reset.usec + m;
            var all := (reset.sec + s) * 1_000_000 + u;
            Normalised(Time(ToSigned(reset.sec + s), ToSigned(u))) ==
            if u < 0 && all < 0 then Time(0, 0) else Time(all / 1_000_000, all % 1_000_000)
  {
    hide ToSigned, Normalised;
    SignedFits(reset.sec + s);
    SignedFits(reset.usec + m);
    NormalisedIs(Time(reset.sec + s, reset.usec + m));
  }

  /** What is read, for every rate and every reset time that can have been stored, as long
      as the seconds fit. */
  lemma ReadingIs(n: U32, rate: U32, reset: Time)
    requires 0 < rate && Signed(reset) && -1_000_000 < reset.usec < 1_000_000
    requires reset.sec + n / rate < 0x7FFF_FFFF
    ensures var u := reset.usec + n * (1_000_000 / rate) % 1_000_000;
            var m := (reset.sec + n / rate) * 1_000_000 + u;
            Reading(n, rate, reset) == if u < 0 && m < 0 then Time(0, 0) else Time(m / 1_000_000, m % 1_000_000)
  {
    hide Normalised;
    StoredSum(reset, n / rate, TickMicros(n, rate) % 1_000_000);
  }

  /** The ticks of a whole number of seconds, and the rest. */
  lemma TicksToMicros(n: nat, rate: nat, k: nat)
    requires 0 < rate && rate * k == US
    ensures n / rate * US + n * k % US == n * k && n * k % US == n % rate * k
  {
    var (q, r) := (n / rate, n % rate);
    assert n == q * rate + r;
    assert n * k == q * US + r * k by {
      Expand(q, rate, r, k);
    }
    assert 0 <= r * k < US by {
      StrictProduct(r, rate, k);
    }
  }

  lemma Expand(q: nat, rate: nat, r: nat, k: nat)
    ensures (q * rate + r) * k == q * (rate * k) + r * k
  {
  }

  lemma Quotient(rate: nat)
    requires 0 < rate && US % rate == 0
    ensures rate * (US / rate) == US && 0 < US / rate
  {
  }

  // ---------------------------------------------------------------- the documented promise

  /** By how much the microseconds are off because one product is taken in 32 bits. */
  function Slip(n: U32, rate: U32): int
    requires 0 < rate
  {
    var p := TickMicros(n, rate);
    p % US - p % TWO32 % US
  }

  /** The high word of the product is what the 32-bit product loses. */
  lemma SlipIsVisible(p: nat)
    ensures p % US == p % TWO32 % US <==> p / TWO32 % 15625 == 0
  {
    var (high, low) := (p / TWO32, p % TWO32);
    assert p == high * TWO32 + low;
    // 2^32 is 64 * 2^26 and US is 64 * 15625, and 2^26 has an inverse modulo 15625.
    if p % US == low % US {
      var m := p / US - low / US;
      assert high * 0x400_0000 == m * 15625;
      assert high == 15625 * (m * 12659 - 54369991 * high);
    }
    if high % 15625 == 0 {
      var m := high / 15625;
      assert p == m * 0x400_0000 * US + low;
    }
  }

  /** What is taken away when setting the clock and added when reading it. */
  lemma BackAndForth(t: Time, s: nat, lost: nat, added: nat)
    requires Normal(t) && Signed(t) && lost < US && added < US
    ensures ToSigned(ToSigned(t.sec - s) + s) == t.sec
    ensures ToSigned(ToSigned(t.usec - lost) + added) == t.usec + (added - lost)
  {
    SignedFits(t.usec - lost);
    SignedFits(t.usec + (added - lost));
    SignedAdds(t.sec - s, s);
    SignedFits(t.sec);
  }

  lemma ReadAtOnce(n: U32, rate: U32, t: Time)
    requires 0 < rate && Normal(t) && Signed(t)
    ensures Reading(n, rate, ResetTime(n, rate, t)) == Normalised(Time(t.sec, t.usec + Slip(n, rate)))
  {
    hide TickMicros, ToSigned, Normalised;
    BackAndForth(t, n / rate, TickMicros(n, rate) % TWO32 % US, TickMicros(n, rate) % US);
  }

  lemma SlippedTime(t: Time, slip: int)
    requires Normal(t) && Signed(t) && -US < slip < US
    ensures Normalised(Time(t.sec, t.usec + slip)) == t <==> slip == 0 || (t == Time(0, 0) && slip < 0)
  {
    assert ToSigned(t.sec + 1) != t.sec;
    if US <= t.usec + slip {
      assert Normalised(Time(t.sec, t.usec + slip)) == Time(ToSigned(t.sec + 1), t.usec + slip - US);
    } else if t.usec + slip < 0 && 0 < t.sec {
      assert Normalised(Time(t.sec, t.usec + slip)) == Time(t.sec - 1, t.usec + slip + US);
    }
  }

  /** Exactly when reading the clock right after setting it gives the time that was set:
      when the word the product loses is a multiple of 15625, and besides only when a
      backward slip from zero is cut off at zero. */
  lemma SetThenGet(n: U32, rate: U32, t: Time)
    requires 0 < rate && Normal(t) && Signed(t)
    ensures Reading(n, rate, ResetTime(n, rate, t)) == t
       <==> TickMicros(n, rate) / TWO32 % 15625 == 0 || (t == Time(0, 0) && Slip(n, rate) < 0)
  {
    hide TickMicros, ToSigned, Normalised;
    ReadAtOnce(n, rate, t);
    SlipIsVisible(TickMicros(n, rate));
    SlippedTime(t, Slip(n, rate));
  }

  /** The promise fails for a clock of 1000 ticks a second after 4294968 ticks. */
  lemma SetThenGetMaySlip()
    ensures Reading(4294968, 1000, ResetTime(4294968, 1000, Time(1, 0))) != Time(1, 0)
  {
    SetThenGet(4294968, 1000, Time(1, 0));
  }

  // ---------------------------------------------------------------- elapsed time

  /** Taking away one stretch of seconds and microseconds, and adding a longer one. */
  lemma ShiftedTime(t: Time, s1: nat, m1: nat, s2: nat, m2: nat)
    requires Normal(t) && 0 <= t.sec && m1 < US && m2 < US
    requires s1 * US + m1 <= s2 * US + m2 && s2 < TWO32 && t.sec + s2 < 0x7FFF_FFFF
    ensures var reset := Time(ToSigned(t.sec - s1), ToSigned(t.usec - m1));
            var r := Normalised(Time(ToSigned(reset.sec + s2), ToSigned(reset.usec + m2)));
            Micros(r) == Micros(t) + (s2 * US + m2) - (s1 * US + m1)
  {
    SignedFits(t.usec - m1);
    SignedFits(t.usec - m1 + m2);
    SignedAdds(t.sec - s1, s2);
    SignedFits(t.sec - s1 + s2);
    NormalisedKeeps(Time(t.sec - s1 + s2, t.usec - m1 + m2));
  }

  /** When the tick rate divides a million and nothing wraps, the clock reads the time that
      was set and the time since, to the microsecond. */
  lemma ReadLater(n1: U32, n2: U32, rate: U32, t: Time)
    requires 0 < rate && US % rate == 0 && n1 <= n2 && Normal(t) && 0 <= t.sec
    requires TickMicros(n1, rate) / TWO32 % 15625 == 0 && t.sec + n2 / rate < 0x7FFF_FFFF
    ensures Micros(Reading(n2, rate, ResetTime(n1, rate, t))) == Micros(t) + (n2 - n1) * (US / rate)
  {
    hide Normalised, ToSigned;
    var k := US / rate;
    Quotient(rate);
    TicksToMicros(n1, rate, k);
    TicksToMicros(n2, rate, k);
    SlipIsVisible(n1 * k);
    Elapsed(n1, n2, k);
    ShiftedTime(t, n1 / rate, n1 * k % US, n2 / rate, n2 * k % US);
  }

  lemma Elapsed(n1: nat, n2: nat, k: nat)
    requires n1 <= n2
    ensures 0 <= (n2 - n1) * k == n2 * k - n1 * k
  {
  }

  /** So it never runs backwards. */
  lemma ReadingsAreMonotone(n1: U32, n2: U32, n3: U32, rate: U32, t: Time)
    requires 0 < rate && US % rate == 0 && n1 <= n2 <= n3 && Normal(t) && 0 <= t.sec
    requires TickMicros(n1, rate) / TWO32 % 15625 == 0 && t.sec + n3 / rate < 0x7FFF_FFFF
    ensures Micros(Reading(n2, rate, ResetTime(n1, rate, t))) <= Micros(Reading(n3, rate, ResetTime(n1, rate, t)))
  {
    hide Reading, ResetTime, TickMicros, Micros;
    QuotientGrows(n2, n3, rate);
    ReadLater(n1, n2, rate, t);
    ReadLater(n1, n3, rate, t);
    Product(n2 - n1, n3 - n1, US / rate);
  }

  // ---------------------------------------------------------------- what the counter alone says

  /** The reading is the time of `n` ticks, to the microsecond below. */
  predicate Exact(n: U32, rate: U32)
    requires 0 < rate
  {
    var m := Micros(Reading(n, rate, Time(0, 0)));
    m * rate <= n * US < (m + 1) * rate
  }

  lemma ReadRaw(n: U32, rate: U32)
    requires 0 < rate && n / rate < 0x7FFF_FFFF
    ensures Reading(n, rate, Time(0, 0)) == Time(n / rate, TickMicros(n, rate) % US)
  {
    hide TickMicros;
    SignedFits(n / rate);
    SignedFits(TickMicros(n, rate) % US);
  }

  lemma TimesRate(n: nat, k: nat, rate: nat)
    ensures n * k * rate == n * (rate * k)
    ensures (n * k + 1) * rate == n * (rate * k) + rate
  {
  }

  /** A rate that divides a million reads exactly at every tick. */
  lemma DividingRateIsExact(n: U32, rate: U32)
    requires 0 < rate && US % rate == 0 && n / rate < 0x7FFF_FFFF
    ensures Exact(n, rate)
  {
    var k := US / rate;
    Quotient(rate);
    TicksToMicros(n, rate, k);
    ReadRaw(n, rate);
    assert Micros(Reading(n, rate, Time(0, 0))) == n * k;
    TimesRate(n, k, rate);
  }

  lemma RateIsOneSecond(rate: U32)
    requires 0 < rate < US && US % rate != 0
    ensures rate / rate == 1 && 0 < TickMicros(rate, rate) < US
  {
  }

  /** Any other rate is wrong somewhere in the first second. */
  lemma OtherRateIsNotExact(rate: U32) returns (n: U32)
    requires 0 < rate && US % rate != 0
    ensures n / rate < 0x7FFF_FFFF && !Exact(n, rate)
  {
    if rate < US {
      n := rate;
      RateIsOneSecond(rate);
      ReadRaw(n, rate);
      hide Reading, TickMicros;
      StrictProduct(US, US + TickMicros(n, rate), rate);
    } else {
      n := rate - 1;
      NoMicros(n, rate);
      ReadRaw(n, rate);
    }
  }

  lemma NoMicros(n: U32, rate: U32)
    requires US < rate && n < rate
    ensures n / rate == 0 && TickMicros(n, rate) == 0
  {
    SmallQuotient(US, rate);
    SmallQuotient(n, rate);
  }

  /** The clock reads exactly if and only if the tick rate divides a million. */
  lemma ExactIffRateDivides(rate: U32)
    requires 0 < rate
    ensures US % rate == 0 <==> forall n: U32 :: n / rate < 0x7FFF_FFFF ==> Exact(n, rate)
  {
    if US % rate == 0 {
      forall n: U32 | n / rate < 0x7FFF_FFFF ensures Exact(n, rate) {
        DividingRateIsExact(n, rate);
      }
    } else {
      var n := OtherRateIsNotExact(rate);
    }
  }

  // ---------------------------------------------------------------- the calls

  datatype Zone = Zone(minutesWest: int, dstTime: int)

  class TimeOfDay {
    var resetTime: Time
    var timezone: Zone
    var errno: int

    constructor ()
      ensures resetTime == Time(0, 0) && timezone == Zone(0, 0)
    {
      resetTime, timezone, errno := Time(0, 0), Zone(0, 0), 0;
    }

    /** `settimeofday`, at tick counter `nticks`; a rate of zero says that there is no
        clock. */
    method Set(nticks: U32, tickRate: U32, t: Time, tz: Zone) returns (status: int)
      modifies this
      ensures tickRate != 0 ==>
                status == 0 && resetTime == ResetTime(nticks, tickRate, t) && timezone == tz && errno == old(errno)
      ensures tickRate == 0 ==>
                status == -1 && errno == ENOSYS && resetTime == old(resetTime) && timezone == old(timezone)
    {
      if tickRate != 0 {
        resetTime := Time(ToSigned(t.sec - nticks / tickRate),
                          ToSigned(t.usec - nticks * (US / tickRate) % TWO32 % US));
        timezone := tz;
        return 0;
      }
      errno := ENOSYS;
      return -1;
    }

    /** `gettimeofday`: the time and the zone that the caller's structures are left with. */
    method Get(nticks: U32, tickRate: U32, t0: Time, tz0: Option<Zone>)
      returns (status: int, t: Time, tz: Option<Zone>)
      ensures tickRate != 0 ==>
                status == 0 && t == Reading(nticks, tickRate, resetTime) && tz == (if tz0.Some? then Some(timezone) else None)
      ensures tickRate == 0 ==> status == -ENOTSUP && t == t0 && tz == tz0
    {
      t, tz := t0, tz0;
      if tickRate != 0 {
        var sec := ToSigned(resetTime.sec + nticks / tickRate);
        var usec := ToSigned(resetTime.usec + nticks * (US / tickRate) % US);
        ghost var raw := Time(sec, usec);
        while usec < 0
          invariant Normalised(raw) == Normalised(Time(sec, usec))
          decreases -usec
        {
          if sec <= 0 {
            sec, usec := 0, 0;
            break;
          } else {
            sec := sec - 1;
            usec := usec + US;
          }
        }
        while usec >= US
          invariant 0 <= usec && Normalised(raw) == Normalised(Time(sec, usec))
        {
          sec := ToSigned(sec + 1);
          usec := usec - US;
        }
        t := Time(sec, usec);
        if tz0.Some? {
          tz := Some(timezone);
        }
        return 0, t, tz;
      }
      return -ENOTSUP, t, tz;
    }
  }
}
