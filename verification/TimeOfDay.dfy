/** alt_settod.c and alt_gettod.c: the wall clock kept as an offset to the tick counter. */
module TimeOfDay {
  import opened Words

  const ALT_US: int := 1_000_000
  const ENOTSUP: int := 134

  /** A 32-bit tick count. */
  type Ticks = n: nat | n < 0x1_0000_0000

  datatype TimeVal = TimeVal(sec: int, usec: int)

  datatype TimeZone = TimeZone(minutesWest: int, dstTime: int)

  function Total(t: TimeVal): int { t.sec * 1_000_000 + t.usec }

  predicate Normalised(t: TimeVal) { 0 <= t.usec < ALT_US }

  /** Whole seconds are carried; a time that would be negative for want of microseconds becomes zero. */
  function Normal(t: TimeVal): TimeVal {
    var q := t.usec / 1_000_000;
    if t.usec < 0 && t.sec + q < 0 then TimeVal(0, 0) else TimeVal(I32(t.sec + q), t.usec % 1_000_000)
  }

  lemma NormalIsTotal(t: TimeVal)
    requires -0x8000_0000 <= t.sec + t.usec / 1_000_000 < 0x8000_0000
    ensures t.usec >= 0 || Total(t) >= 0 ==> Normalised(Normal(t)) && Total(Normal(t)) == Total(t)
    ensures t.usec < 0 && Total(t) < 0 ==> Normal(t) == TimeVal(0, 0)
  {
  }

  function MicrosPerTick(rate: nat): nat
    requires rate > 0
  {
    1_000_000 / rate
  }

  function Seconds(n: nat, rate: nat): nat
    requires rate > 0
  {
    n / rate
  }

  /** The microseconds of n ticks. */
  function Micros(n: nat, rate: nat): nat
    requires rate > 0
  {
    n * MicrosPerTick(rate)
  }

  /** The offset that a set at tick n leaves; the product is a 32-bit one. */
  function ResetTime(t: TimeVal, n: Ticks, rate: nat): TimeVal
    requires rate > 0
  {
    TimeVal(I32(t.sec - Seconds(n, rate)), I32(t.usec - U32(Micros(n, rate)) % 1_000_000))
  }

  /** The time that a get at tick n tells; the product is a 64-bit one. */
  function TimeAt(reset: TimeVal, n: Ticks, rate: nat): TimeVal
    requires rate > 0
  {
    Normal(TimeVal(I32(reset.sec + Seconds(n, rate)), I32(reset.usec + Micros(n, rate) % 1_000_000)))
  }

  class Clock {
    var resetTime: TimeVal
    var timezone: TimeZone

    constructor ()
      ensures resetTime == TimeVal(0, 0) && timezone == TimeZone(0, 0)
    {
      resetTime, timezone := TimeVal(0, 0), TimeZone(0, 0);
    }

    method SetTimeOfDay(t: TimeVal, tz: TimeZone, nticks: Ticks, rate: nat) returns (rc: int)
      modifies this
      ensures if rate > 0 then rc == 0 && resetTime == ResetTime(t, nticks, rate) && timezone == tz
              else rc == -1 && resetTime == old(resetTime) && timezone == old(timezone)
    {
      if rate > 0 {
        var sec := I32(t.sec - nticks / rate);
        var usec := I32(t.usec - U32(nticks * (ALT_US / rate)) % ALT_US);
        resetTime := TimeVal(sec, usec);
        timezone := tz;
        return 0;
      }
      rc := -1;
    }

    /** Without a system clock what the caller passed in stays as it is. */
    method GetTimeOfDay(was: TimeVal, wasZone: TimeZone, nticks: Ticks, rate: nat)
      returns (rc: int, tv: TimeVal, tz: TimeZone)
      ensures if rate > 0 then rc == 0 && tv == TimeAt(resetTime, nticks, rate) && tz == timezone
              else rc == -ENOTSUP && tv == was && tz == wasZone
    {
      tv, tz := was, wasZone;
      if rate > 0 {
        var sec := I32(resetTime.sec + nticks / rate);
        var usec := I32(resetTime.usec + nticks * (ALT_US / rate) % ALT_US);
        tv := Carry(sec, usec);
        tz := timezone;
        return 0, tv, tz;
      }
      rc := -ENOTSUP;
    }
  }

  lemma Borrow(sec: int, usec: int)
    requires usec < 0
    ensures sec > 0 ==> Normal(TimeVal(sec - 1, usec + 1_000_000)) == Normal(TimeVal(sec, usec))
    ensures sec <= 0 ==> Normal(TimeVal(sec, usec)) == TimeVal(0, 0) == Normal(TimeVal(0, 0))
  {
  }

  lemma CarryOver(sec: int, usec: int)
    requires usec >= 1_000_000
    ensures Normal(TimeVal(I32(sec + 1), usec - 1_000_000)) == Normal(TimeVal(sec, usec))
  {
    var q := usec / 1_000_000;
    assert (usec - 1_000_000) / 1_000_000 == q - 1 && (usec - 1_000_000) % 1_000_000 == usec % 1_000_000;
    I32Sum(q - 1, sec + 1);
  }

  /** The two normalising loops. */
  method Carry(sec0: int, usec0: int) returns (r: TimeVal)
    requires -0x8000_0000 <= sec0 < 0x8000_0000
    ensures r == Normal(TimeVal(sec0, usec0))
  {
    hide Normal;
    var sec, usec := sec0, usec0;
    while usec < 0
      invariant Normal(TimeVal(sec, usec)) == Normal(TimeVal(sec0, usec0)) && -0x8000_0000 <= sec < 0x8000_0000
      decreases -usec
    {
      Borrow(sec, usec);
      if sec <= 0 {
        sec, usec := 0, 0;
        break;
      } else {
        sec := sec - 1;
        usec := usec + ALT_US;
      }
    }
    while usec >= ALT_US
      invariant usec >= 0 && -0x8000_0000 <= sec < 0x8000_0000
      invariant Normal(TimeVal(sec, usec)) == Normal(TimeVal(sec0, usec0))
    {
      CarryOver(sec, usec);
      sec := I32(sec + 1);
      usec := usec - ALT_US;
    }
    r := TimeVal(sec, usec);
    AlreadyNormal(r);
  }

  lemma AlreadyNormal(t: TimeVal)
    requires Normalised(t) && -0x8000_0000 <= t.sec < 0x8000_0000
    ensures Normal(t) == t
  {
  }

  // ----- setting and reading -----

  /** How the 32-bit product of the set and the 64-bit product of the get agree on microseconds. */
  predicate Agrees(n: Ticks, rate: nat)
    requires rate > 0
  {
    Micros(n, rate) / 0x1_0000_0000 % 15_625 == 0
  }

  lemma Divides(q: nat)
    ensures q * 0x1_0000_0000 % 1_000_000 == 0 <==> q % 15_625 == 0
  {
    if q * 0x1_0000_0000 % 1_000_000 == 0 {
      var k := q * 0x1_0000_0000 / 1_000_000;
      assert q * 0x400_0000 == k * 15_625;
      // 0x400_0000 times its inverse is one more than a multiple of 15625
      assert q == (12659 * k - 54369991 * q) * 15_625;
    }
  }

  lemma Split(x: nat)
    ensures U32(x) % 1_000_000 == x % 1_000_000 <==> x / 0x1_0000_0000 % 15_625 == 0
  {
    var q := x / 0x1_0000_0000;
    assert x == q * 0x1_0000_0000 + U32(x);
    Divides(q);
    SameRest(x, U32(x), q * 0x1_0000_0000);
  }

  lemma SameRest(x: nat, r: nat, d: nat)
    requires x == r + d
    ensures r % 1_000_000 == x % 1_000_000 <==> d % 1_000_000 == 0
  {
  }

  /** A reading at the tick of the setting tells the time that was set, exactly when the products agree. */
  lemma SetThenGet(t: TimeVal, n: Ticks, rate: nat)
    requires rate > 0 && Normalised(t) && 0 < t.sec < 0x7FFF_FFFF
    ensures TimeAt(ResetTime(t, n, rate), n, rate) == t <==> Agrees(n, rate)
  {
    var x := Micros(n, rate);
    Split(x);
    WrapBack(t.sec, n / rate, n / rate);
    var a, b := U32(x) % 1_000_000, x % 1_000_000;
    assert I32(I32(t.usec - a) + b) == t.usec - a + b;
  }

  /** Wrapping in between does not matter when the result fits. */
  lemma WrapBack(sec: int, a: int, b: int)
    requires -0x8000_0000 <= sec - a + b < 0x8000_0000
    ensures I32(I32(sec - a) + b) == sec - a + b
  {
  }

  /** Ticks in seconds and microseconds, when the rate divides a million. */
  lemma TicksSplit(n: nat, rate: nat, us: nat)
    requires rate > 0 && rate * us == 1_000_000
    ensures n / rate * 1_000_000 + n * us % 1_000_000 == n * us
  {
    var q, r := n / rate, n % rate;
    assert n == q * rate + r;
    Expand(q, rate, r, us, n);
    Below(r, rate, us);
    assert (q * 1_000_000 + r * us) % 1_000_000 == r * us;
  }

  lemma Expand(q: nat, rate: nat, r: nat, us: nat, n: nat)
    requires n == q * rate + r && rate * us == 1_000_000
    ensures n * us == q * 1_000_000 + r * us
  {
    assert q * rate * us == q * (rate * us);
  }

  lemma Below(r: nat, rate: nat, us: nat)
    requires r < rate && rate * us == 1_000_000
    ensures r * us < 1_000_000
  {
    assert us > 0;
    assert r * us < rate * us;
  }

  /** The rate divides a million. */
  predicate WholeMicros(rate: nat) { rate > 0 && rate * MicrosPerTick(rate) == 1_000_000 }

  /** The time at tick m when t is the time at tick n. */
  function Later(t: TimeVal, n: Ticks, m: Ticks, rate: nat): int
    requires rate > 0
  {
    Total(t) - Micros(n, rate) + Micros(m, rate)
  }

  /** The seconds stay within their 32 bits, with room for a carry. */
  predicate SecondsFit(t: TimeVal, n: Ticks, m: Ticks, rate: nat)
    requires rate > 0
  {
    -0x7FFF_FFFF <= t.sec - Seconds(n, rate) + Seconds(m, rate) < 0x7FFF_FFFF
  }

  lemma WholeSeconds(n: nat, rate: nat)
    requires WholeMicros(rate)
    ensures Seconds(n, rate) * 1_000_000 + Micros(n, rate) % 1_000_000 == Micros(n, rate)
  {
    TicksSplit(n, rate, MicrosPerTick(rate));
  }

  lemma ReadAt(t: TimeVal, n: Ticks, m: Ticks, rate: nat, a: nat, b: nat)
    requires rate > 0 && Normalised(t) && a < 1_000_000 && b < 1_000_000
    requires U32(Micros(n, rate)) % 1_000_000 == a && Micros(m, rate) % 1_000_000 == b
    requires SecondsFit(t, n, m, rate)
    ensures TimeAt(ResetTime(t, n, rate), m, rate)
            == Normal(TimeVal(t.sec - Seconds(n, rate) + Seconds(m, rate), t.usec - a + b))
  {
    hide Normal, Micros, Seconds;
    WrapBack(t.sec, Seconds(n, rate), Seconds(m, rate));
  }

  /** Set at tick n and read at tick m, the clock tells the time set plus the ticks in between, to the microsecond. */
  lemma SetThenWait(t: TimeVal, n: Ticks, m: Ticks, rate: nat)
    requires rate > 0 && WholeMicros(rate) && Agrees(n, rate) && Normalised(t)
    requires SecondsFit(t, n, m, rate) && Later(t, n, m, rate) >= 0
    ensures var r := TimeAt(ResetTime(t, n, rate), m, rate);
            Normalised(r) && Total(r) == Later(t, n, m, rate)
  {
    hide Normal, TimeAt, ResetTime, Micros, Seconds, MicrosPerTick, WholeMicros, Agrees, Total;
    SplitMicros(n, rate);
    WholeSeconds(n, rate);
    WholeSeconds(m, rate);
    var a, b := Micros(n, rate) % 1_000_000, Micros(m, rate) % 1_000_000;
    ReadAt(t, n, m, rate, a, b);
    var mid := TimeVal(t.sec - Seconds(n, rate) + Seconds(m, rate), t.usec - a + b);
    Shift(t, mid, Seconds(n, rate), Seconds(m, rate), a, b);
    assert Total(mid) == Later(t, n, m, rate);
    NormalIsTotal(mid);
  }

  /** The same in plain numbers: when the rate divides a million, and the microseconds up to the set have wrapped
      round 2^32 a multiple of 15625 times, each tick in between counts for a millionth part of the rate. */
  lemma TicksCount(t: TimeVal, n: Ticks, m: Ticks, rate: nat, us: nat)
    requires rate > 0 && us == 1_000_000 / rate && rate * us == 1_000_000
    requires n * us / 0x1_0000_0000 % 15_625 == 0
    requires 0 <= t.usec < 1_000_000 && -0x7FFF_FFFF <= t.sec - n / rate + m / rate < 0x7FFF_FFFF
    requires t.sec * 1_000_000 + t.usec - n * us + m * us >= 0
    ensures var r := TimeAt(ResetTime(t, n, rate), m, rate);
            0 <= r.usec < 1_000_000 && r.sec * 1_000_000 + r.usec == t.sec * 1_000_000 + t.usec - n * us + m * us
  {
    hide TimeAt, ResetTime;
    SetThenWait(t, n, m, rate);
  }

  lemma Shift(t: TimeVal, mid: TimeVal, sn: nat, sm: nat, a: nat, b: nat)
    requires mid == TimeVal(t.sec - sn + sm, t.usec - a + b)
    ensures Total(mid) == Total(t) - (sn * 1_000_000 + a) + (sm * 1_000_000 + b)
  {
  }

  lemma SplitMicros(n: Ticks, rate: nat)
    requires rate > 0
    ensures U32(Micros(n, rate)) % 1_000_000 == Micros(n, rate) % 1_000_000 <==> Agrees(n, rate)
  {
    Split(Micros(n, rate));
  }

  /** At a thousand ticks a second the agreement ends after some 71 minutes. */
  lemma LateSetIsOff()
    ensures MicrosPerTick(1000) == 1000 && !Agrees(4_294_968, 1000)
    ensures TimeAt(ResetTime(TimeVal(1_000_000, 0), 4_294_968, 1000), 4_294_968, 1000) != TimeVal(1_000_000, 0)
  {
    hide TimeAt, ResetTime;
    var us := MicrosPerTick(1000);
    assert us == 1000;
    assert Micros(4_294_968, 1000) / 0x1_0000_0000 == 1;
    SetThenGet(TimeVal(1_000_000, 0), 4_294_968, 1000);
  }
}
