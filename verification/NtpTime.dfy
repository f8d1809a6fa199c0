/** The 64-bit NTP timestamp (section 6 of RFC 5905) and its conversion from and to
    time.Time, which is modelled as an integer count of nanoseconds since 1970. */
module NtpTime {
  import opened GoInt

  const EPOCH: int := -2208988800           // seconds from 1970 to 1900
  const NANOS_PER_SECOND: int := 1_000_000_000
  const SECONDS_PER_ERA: int := 0x1_0000_0000
  const FIVE_TO_THE_9: int := 1953125

  type Uint32 = x: int | 0 <= x < 0x1_0000_0000

  datatype Time64 = Time64(seconds: Uint32, fraction: Uint32) {
    // The timestamp as one 64-bit number.
    ghost function Ordinal(): int {
      seconds * 0x1_0000_0000 + fraction
    }

    predicate Before(u: Time64): (b: bool)
      ensures b <==> Ordinal() < u.Ordinal()
    {
      seconds < u.seconds || (seconds == u.seconds && fraction < u.fraction)
    }

    predicate After(u: Time64): (b: bool)
      ensures b <==> Ordinal() > u.Ordinal()
    {
      seconds > u.seconds || (seconds == u.seconds && fraction > u.fraction)
    }
  }

  lemma OrdinalInjective(t: Time64, u: Time64)
    requires t.Ordinal() == u.Ordinal()
    ensures t == u
  {
  }

  // time.Time.Unix and time.Time.Nanosecond: the floor and its remainder.
  function Unix(t: int): int {
    t / NANOS_PER_SECOND
  }

  function Nanosecond(t: int): (r: int)
    ensures 0 <= r < NANOS_PER_SECOND
    ensures t == Unix(t) * NANOS_PER_SECOND + r
  {
    t % NANOS_PER_SECOND
  }

  function FractionOf(nanos: int): (r: Uint32)
    requires 0 <= nanos < NANOS_PER_SECOND
    ensures r * NANOS_PER_SECOND <= nanos * 0x1_0000_0000 < (r + 1) * NANOS_PER_SECOND
  {
    nanos * 0x1_0000_0000 / NANOS_PER_SECOND
  }

  function NanosOf(fraction: Uint32): (r: int)
    ensures r * 0x1_0000_0000 <= fraction * NANOS_PER_SECOND < (r + 1) * 0x1_0000_0000
    ensures 0 <= r < NANOS_PER_SECOND
  {
    fraction * NANOS_PER_SECOND / 0x1_0000_0000
  }

  function Time64FromTime(t: int): Time64 {
    Time64((Unix(t) - EPOCH) % SECONDS_PER_ERA, FractionOf(Nanosecond(t)))
  }

  // The era of an instant: 0 from 1900 on, 1 from 2036 on, -1 before 1900.
  function Era(t: int): int {
    (Unix(t) - EPOCH) / SECONDS_PER_ERA
  }

  // The era TimeFromTime64 starts from. Its quotient truncates, so a reference time
  // before 1900 is put into era 0 for one era too many.
  function ReferenceEra(t0: int): (e: int)
    ensures Unix(t0) >= EPOCH ==> e == Era(t0)
  {
    Quo(Unix(t0) - EPOCH, SECONDS_PER_ERA)
  }

  function ResolvedSeconds(t: Time64, t0: int): int {
    var tref := Unix(t0);
    var sec := EPOCH + ReferenceEra(t0) * SECONDS_PER_ERA + t.seconds;
    if sec < tref - SECONDS_PER_ERA / 2 then sec + SECONDS_PER_ERA else sec
  }

  function TimeFromTime64(t: Time64, t0: int): int {
    ResolvedSeconds(t, t0) * NANOS_PER_SECOND + NanosOf(t.fraction)
  }

  /* ---- The calendar ---- */

  // The days of the years from year to end, by the Gregorian calendar.
  ghost function Days(year: int, end: int): int
    decreases end - year
  {
    if year >= end then 0
    else (if year % 4 == 0 && (year % 100 != 0 || year % 400 == 0) then 366 else 365) + Days(year + 1, end)
  }

  // 70 years from 1900 to 1970, 17 of them leap years.
  lemma SeventyYears()
    ensures Days(1900, 1970) == 70 * 365 + 17
  {
    FourYears(1904, 16);
    assert Days(1968, 1970) == 366 + 365;
    assert Days(1902, 1970) == 365 + 365 + Days(1904, 1970);
    assert Days(1900, 1970) == 365 + 365 + Days(1902, 1970);
  }

  // Without a century in between, n periods of four years from a leap year on.
  lemma {:induction false} FourYears(year: int, n: nat)
    requires year % 4 == 0 && 1900 < year && year + 4 * n < 2000
    ensures forall end :: end >= year + 4 * n ==> Days(year, end) == 1461 * n + Days(year + 4 * n, end)
    decreases n
  {
    if n > 0 {
      FourYears(year + 4, n - 1);
      forall end | end >= year + 4 * n ensures Days(year, end) == 1461 + Days(year + 4, end) {
        assert Days(year + 2, end) == 730 + Days(year + 4, end);
      }
    }
  }

  // The seconds of a timestamp count from the year 1900, modulo 2^32.
  lemma SecondsSince1900(t: int)
    ensures Time64FromTime(t).seconds == (t / NANOS_PER_SECOND + Days(1900, 1970) * 86400) % 0x1_0000_0000
  {
    SeventyYears();
  }

  /* ---- Order ---- */

  // Before is a strict total order on timestamps and After is its converse.
  lemma BeforeIsTotalOrder(t: Time64, u: Time64, v: Time64)
    ensures !t.Before(t)
    ensures t.Before(u) || t == u || u.Before(t)
    ensures t.Before(u) && u.Before(v) ==> t.Before(v)
    ensures t.After(u) <==> u.Before(t)
  {
  }

  // Different nanoseconds have fractions in the same order, as 2^32 > 10^9.
  lemma FractionOfMonotone(m: int, n: int)
    requires 0 <= m < n < NANOS_PER_SECOND
    ensures FractionOf(m) < FractionOf(n)
  {
    var p, q := FractionOf(m), FractionOf(n);
    assert p * NANOS_PER_SECOND <= m * 0x1_0000_0000;
    assert n * 0x1_0000_0000 < (q + 1) * NANOS_PER_SECOND;
    assert (m + 1) * 0x1_0000_0000 <= n * 0x1_0000_0000;
  }

  // Within one era the conversion is strictly order-preserving in both directions.
  lemma OrderPreserved(t: int, u: int)
    requires Era(t) == Era(u)
    ensures t < u <==> Time64FromTime(t).Before(Time64FromTime(u))
    ensures t > u <==> Time64FromTime(t).After(Time64FromTime(u))
  {
    SecondsInEra(t);
    SecondsInEra(u);
    var m, n := Nanosecond(t), Nanosecond(u);
    if m < n {
      FractionOfMonotone(m, n);
    } else if n < m {
      FractionOfMonotone(n, m);
    }
  }

  lemma SecondsInEra(t: int)
    ensures Time64FromTime(t).seconds == Unix(t) - EPOCH - Era(t) * SECONDS_PER_ERA
  {
  }

  // Two instants less than 2^32 seconds apart have different timestamps.
  lemma Time64Injective(t: int, u: int)
    requires t < u < t + SECONDS_PER_ERA * NANOS_PER_SECOND
    ensures Time64FromTime(t) != Time64FromTime(u)
  {
    SecondsInEra(t);
    SecondsInEra(u);
    var m, n := Nanosecond(t), Nanosecond(u);
    if m < n {
      FractionOfMonotone(m, n);
    } else if n < m {
      FractionOfMonotone(n, m);
    }
  }

  /* ---- Round trip ---- */

  // A conversion there and back loses no nanosecond if 5^9 divides them, else one.
  lemma NanosRoundTrip(n: int)
    requires 0 <= n < NANOS_PER_SECOND
    ensures NanosOf(FractionOf(n)) == if n % FIVE_TO_THE_9 == 0 then n else n - 1
  {
    var f := FractionOf(n);
    var r := NanosOf(f);
    assert NANOS_PER_SECOND == FIVE_TO_THE_9 * 512;
    if n % FIVE_TO_THE_9 == 0 {
      var k := n / FIVE_TO_THE_9;
      assert n == k * FIVE_TO_THE_9;
      assert f == k * 0x80_0000;
    } else {
      if f * NANOS_PER_SECOND == n * 0x1_0000_0000 {
        assert f * FIVE_TO_THE_9 == n * 0x80_0000;
        PowerOfTwoCancels(n, f);
      }
    }
  }

  // 5^9 and 2^23 are coprime: 5^9 divides n if it divides n * 2^23.
  lemma PowerOfTwoCancels(n: int, f: int)
    requires n >= 0 && f * FIVE_TO_THE_9 == n * 0x80_0000
    ensures n % FIVE_TO_THE_9 == 0
  {
    // the Bezout pair 3054701 * 5^9 - 711228 * 2^23 == 1
    assert n == (3054701 * n - 711228 * f) * FIVE_TO_THE_9;
  }

  lemma UnixOfSum(sec: int, nanos: int)
    requires 0 <= nanos < NANOS_PER_SECOND
    ensures Unix(sec * NANOS_PER_SECOND + nanos) == sec
    ensures Nanosecond(sec * NANOS_PER_SECOND + nanos) == nanos
  {
  }

  // A conversion there and back moves an instant by whole eras and at most one
  // nanosecond. With no bound on t or t0, it restores the seconds exactly when t lies
  // in the reference era not more than half an era before t0, or in the next era and
  // less than half an era after t0.
  lemma RoundTrip(t: int, t0: int)
    ensures var r := TimeFromTime64(Time64FromTime(t), t0);
      && Nanosecond(r) == (if Nanosecond(t) % FIVE_TO_THE_9 == 0 then Nanosecond(t) else Nanosecond(t) - 1)
      && (Unix(r) == Unix(t) <==>
            || (Era(t) == ReferenceEra(t0) && Unix(t) >= Unix(t0) - SECONDS_PER_ERA / 2)
            || (Era(t) == ReferenceEra(t0) + 1 && Unix(t) < Unix(t0) + SECONDS_PER_ERA / 2))
  {
    RoundTripSplit(t, t0);
    SecondsInEra(t);
  }

  lemma RoundTripSplit(t: int, t0: int)
    ensures var r := TimeFromTime64(Time64FromTime(t), t0);
      && Unix(r) == ResolvedSeconds(Time64FromTime(t), t0)
      && Nanosecond(r) == (if Nanosecond(t) % FIVE_TO_THE_9 == 0 then Nanosecond(t) else Nanosecond(t) - 1)
  {
    NanosRoundTrip(Nanosecond(t));
    UnixOfSum(ResolvedSeconds(Time64FromTime(t), t0), NanosOf(FractionOf(Nanosecond(t))));
  }

  // The familiar sufficient condition: a reference time from 1900 on, an instant not in
  // an earlier era, and less than half an era between the two.
  lemma RoundTripNearReference(t: int, t0: int)
    requires Unix(t0) >= EPOCH && Era(t0) <= Era(t)
    requires -SECONDS_PER_ERA / 2 <= Unix(t) - Unix(t0) < SECONDS_PER_ERA / 2
    ensures var r := TimeFromTime64(Time64FromTime(t), t0);
      t - 1 <= r <= t && (r == t <==> Nanosecond(t) % FIVE_TO_THE_9 == 0)
  {
    RoundTrip(t, t0);
  }

  // An instant of the era before the reference era never comes back right: the
  // resolution moves a timestamp forward only. It is one era late, or two if it would
  // still be more than half an era before t0.
  lemma PreviousEraIsLate(t: int, t0: int)
    requires Era(t) == ReferenceEra(t0) - 1
    ensures Unix(TimeFromTime64(Time64FromTime(t), t0)) == Unix(t) +
              (if Unix(t) + SECONDS_PER_ERA < Unix(t0) - SECONDS_PER_ERA / 2 then 2 else 1) * SECONDS_PER_ERA
  {
    RoundTripSplit(t, t0);
    SecondsInEra(t);
  }
}
