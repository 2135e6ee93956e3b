/** Gregorian dates to seconds since 1970, as the clock driver computes them. */
module Calendar {

  const WORD64 := 0x1_0000_0000_0000_0000

  datatype Date = Date(year: nat, month: nat, day: nat)

  predicate Leap(y: nat) { y % 4 == 0 && (y % 100 != 0 || y % 400 == 0) }

  function DaysIn(y: nat, m: nat): nat {
    if m == 2 then (if Leap(y) then 29 else 28)
    else if m == 4 || m == 6 || m == 9 || m == 11 then 30
    else 31
  }

  ghost predicate Valid(d: Date) { 1 <= d.month <= 12 && 1 <= d.day <= DaysIn(d.year, d.month) }

  const EPOCH := Date(1970, 1, 1)

  function NextDay(d: Date): Date {
    if d.day < DaysIn(d.year, d.month) then Date(d.year, d.month, d.day + 1)
    else if d.month < 12 then Date(d.year, d.month + 1, 1)
    else Date(d.year + 1, 1, 1)
  }

  ghost predicate Before(a: Date, b: Date) {
    a.year < b.year || (a.year == b.year && (a.month < b.month || (a.month == b.month && a.day < b.day)))
  }

  // ------------------------------------------------------------------ closed form

  /** C's integer division: towards zero. */
  function Quot(a: int, b: int): int
    requires b > 0
  {
    if a >= 0 then a / b else -((-a) / b)
  }

  /** get_julian_day */
  function JulianDay(d: Date): int {
    var days, months, years := d.day, d.month, d.year;
    Quot(1461 * (years + 4800 + Quot(months - 14, 12)), 4)
      + Quot(367 * (months - 2 - 12 * Quot(months - 14, 12)), 12)
      - Quot(3 * Quot(years + 4900 + Quot(months - 14, 12), 100), 4) + days - 32075
  }

  /** Days contributed by the years before March of year z - 4800. */
  function YearTerm(z: nat): int { 365 * z + z / 4 - CenturyTerm(z + 100) }

  function CenturyTerm(z: nat): int { 3 * (z / 100) / 4 }

  function MonthTerm(m: nat): int { if m <= 2 then 367 * (m + 10) / 12 else 367 * (m - 2) / 12 }

  lemma Terms(d: Date)
    requires Valid(d)
    ensures JulianDay(d) == YearTerm(d.year + 4800 - if d.month <= 2 then 1 else 0) + MonthTerm(d.month) + d.day - 32075
  {
    var z := d.year + 4800 - if d.month <= 2 then 1 else 0;
    assert Quot(d.month - 14, 12) == if d.month <= 2 then -1 else 0;
    assert 1461 * z / 4 == 365 * z + z / 4;
  }

  /** March to March is 365 days, 366 across a leap day. */
  lemma YearStep(y: nat)
    ensures YearTerm(y + 4800) - YearTerm(y + 4799) == 365 + if Leap(y) then 1 else 0
  {
    QuarterStep(y);
    CenturyStep(y);
    LeapParts(y);
    hide CenturyTerm, Leap;
  }

  lemma LeapParts(y: nat)
    ensures (if Leap(y) then 1 else 0) == (if y % 4 == 0 then 1 else 0) - (if y % 100 == 0 && y % 400 != 0 then 1 else 0)
  {
    CenturyIsQuarter(y);
    LeapCenturyIsCentury(y);
  }

  lemma CenturyIsQuarter(y: nat)
    ensures y % 100 == 0 ==> y % 4 == 0
  {
    if y % 100 == 0 {
      var q := 25 * (y / 100);
      assert 4 * q == y;
      assert y / 4 == q;
    }
  }

  lemma LeapCenturyIsCentury(y: nat)
    ensures y % 400 == 0 ==> y % 100 == 0
  {
    if y % 400 == 0 {
      var q := 4 * (y / 400);
      assert 100 * q == y;
      assert y / 100 == q;
    }
  }

  lemma QuarterStep(y: nat)
    ensures (y + 4800) / 4 - (y + 4799) / 4 == if y % 4 == 0 then 1 else 0
  {
  }

  lemma CenturyStep(y: nat)
    ensures CenturyTerm(y + 4900) - CenturyTerm(y + 4899) == if y % 100 == 0 && y % 400 != 0 then 1 else 0
  {
    var c := (y + 4899) / 100;
    if y % 100 == 0 {
      assert (y + 4900) / 100 == c + 1 && y == 100 * (c + 1) - 4900;
      assert y % 400 == 0 <==> c % 4 == 0;
    } else {
      assert (y + 4900) / 100 == c;
    }
  }

  lemma MonthStep(m: nat)
    requires 1 <= m <= 12
    ensures m == 2 ==> MonthTerm(3) - MonthTerm(2) == 28 - 365
    ensures m != 2 ==> MonthTerm(if m < 12 then m + 1 else 1) - MonthTerm(m) == DaysIn(0, m)
  {
    hide Leap;
  }

  lemma NextValid(d: Date)
    requires Valid(d)
    ensures Valid(NextDay(d))
  {
    hide Leap;
  }

  /** The closed form advances by one across every day, month, year and leap boundary. */
  lemma JulianNext(d: Date)
    requires Valid(d)
    ensures Valid(NextDay(d)) && JulianDay(NextDay(d)) == JulianDay(d) + 1
  {
    hide YearTerm, JulianDay, MonthTerm, Leap;
    NextValid(d);
    Terms(d);
    Terms(NextDay(d));
    YearStep(d.year);
    MonthStep(d.month);
  }

  // ------------------------------------------------------------- day-by-day count

  /** The date n days after the first of January 1970. */
  function DayNumber(n: nat): Date { if n == 0 then EPOCH else NextDay(DayNumber(n - 1)) }

  lemma {:induction false} DayNumberJulian(n: nat)
    ensures Valid(DayNumber(n)) && JulianDay(DayNumber(n)) == JulianDay(EPOCH) + n
  {
    if n > 0 {
      DayNumberJulian(n - 1);
      JulianNext(DayNumber(n - 1));
    }
  }

  lemma PreviousDay(d: Date, a: Date) returns (p: Date)
    requires Valid(d) && Valid(a) && Before(a, d)
    ensures Valid(p) && NextDay(p) == d && Before(p, d) && (p == a || Before(a, p))
    ensures p.year <= d.year && (p.year == d.year ==> p.month <= d.month)
  {
    hide Leap;
    if d.day > 1 {
      p := Date(d.year, d.month, d.day - 1);
    } else if d.month > 1 {
      p := Date(d.year, d.month - 1, DaysIn(d.year, d.month - 1));
    } else {
      p := Date(d.year - 1, 12, 31);
    }
  }

  /** Every date from 1970 on is some number of days after the epoch. */
  lemma {:induction false} DayNumberReaches(d: Date) returns (n: nat)
    requires Valid(d) && (d == EPOCH || Before(EPOCH, d))
    ensures DayNumber(n) == d
    decreases d.year, d.month, d.day
  {
    if d == EPOCH {
      n := 0;
    } else {
      var p := PreviousDay(d, EPOCH);
      n := DayNumberReaches(p);
      n := n + 1;
    }
  }

  // ----------------------------------------------------------------------- mktime

  datatype Time = Time(hours: nat, minutes: nat, seconds: nat)

  ghost predicate ValidTime(t: Time) { t.hours < 24 && t.minutes < 60 && t.seconds < 60 }

  function SecondOfDay(t: Time): nat { t.hours * 3600 + t.minutes * 60 + t.seconds }

  const MIDNIGHT := Time(0, 0, 0)

  /** The clock one second on; the last second of the day is followed by midnight. */
  function NextSecond(t: Time): Time {
    if t.seconds < 59 then Time(t.hours, t.minutes, t.seconds + 1)
    else if t.minutes < 59 then Time(t.hours, t.minutes + 1, 0)
    else if t.hours < 23 then Time(t.hours + 1, 0, 0)
    else MIDNIGHT
  }

  ghost predicate Earlier(s: Time, t: Time) {
    s.hours < t.hours || (s.hours == t.hours && (s.minutes < t.minutes || (s.minutes == t.minutes && s.seconds < t.seconds)))
  }

  /** The time n seconds after midnight. */
  function SecondNumber(n: nat): Time { if n == 0 then MIDNIGHT else NextSecond(SecondNumber(n - 1)) }

  lemma SecondNext(t: Time)
    requires ValidTime(t)
    ensures ValidTime(NextSecond(t)) && (NextSecond(t) == MIDNIGHT <==> t == Time(23, 59, 59))
    ensures SecondOfDay(t) < 86400 && (t == Time(23, 59, 59) <==> SecondOfDay(t) == 86399)
    ensures t != Time(23, 59, 59) ==> SecondOfDay(NextSecond(t)) == SecondOfDay(t) + 1
  {
  }

  /** The second of the day is the number of seconds counted one by one from midnight. */
  lemma {:induction false} SecondNumberCounts(n: nat)
    requires n < 86400
    ensures ValidTime(SecondNumber(n)) && SecondOfDay(SecondNumber(n)) == n
  {
    if n > 0 {
      SecondNumberCounts(n - 1);
      SecondNext(SecondNumber(n - 1));
    }
  }

  /** Every time is the n-th second for one n below 86400: its second of the day. */
  lemma SecondNumberReaches(t: Time)
    requires ValidTime(t)
    ensures SecondOfDay(t) < 86400 && SecondNumber(SecondOfDay(t)) == t
  {
    SecondNext(t);
    SecondNumberCounts(SecondOfDay(t));
    SameSecond(t, SecondNumber(SecondOfDay(t)));
  }

  lemma SameSecond(s: Time, t: Time)
    requires ValidTime(s) && ValidTime(t)
    ensures SecondOfDay(s) == SecondOfDay(t) <==> s == t
    ensures SecondOfDay(s) < SecondOfDay(t) <==> Earlier(s, t)
  {
  }

  /** rtc_mktime, with its 64-bit unsigned wrap-around. */
  function MkTime(d: Date, t: Time): nat {
    Seconds(JulianDay(d) - JulianDay(EPOCH), SecondOfDay(t))
  }

  /** The day difference is wrapped before it is scaled, and the total again. */
  function Seconds(days: int, second: nat): nat {
    Wrap(Wrap(days) * 86400 + second)
  }

  function Wrap(x: int): nat { x % WORD64 }

  /**
   From 1970 on, MkTime of the s-th second of the n-th day is n days of seconds plus s, and
   every valid date and time is the s-th second of the n-th day for some n and s.
   */
  lemma MkTimeCounts(d: Date, t: Time) returns (n: nat, s: nat)
    requires Valid(d) && (d == EPOCH || Before(EPOCH, d)) && d.year < 0x1_0000 && ValidTime(t)
    ensures DayNumber(n) == d && s < 86400 && SecondNumber(s) == t && MkTime(d, t) == n * 86400 + s
  {
    hide JulianDay, DayNumber, Seconds, SecondNumber, SecondOfDay;
    SecondNumberReaches(t);
    s := SecondOfDay(t);
    n := DayNumberReaches(d);
    DayNumberJulian(n);
    DayBound(d);
    NoWrap(n, s);
  }

  lemma NoWrap(n: nat, s: nat)
    requires n < 0x1_0000_0000 && s < 86400
    ensures Seconds(n, s) == n * 86400 + s
  {
    assert n % WORD64 == n;
  }

  lemma DayBound(d: Date)
    requires Valid(d) && d.year < 0x1_0000
    ensures JulianDay(d) - JulianDay(EPOCH) < 0x1_0000_0000
  {
    Terms(d);
    Terms(EPOCH);
  }

  lemma {:induction false} JulianMonotone(a: Date, b: Date)
    requires Valid(a) && Valid(b) && Before(a, b)
    ensures JulianDay(a) < JulianDay(b)
    decreases b.year, b.month, b.day
  {
    var p := PreviousDay(b, a);
    JulianNext(p);
    if p != a { JulianMonotone(a, p); }
  }

  /** Later dates and times give strictly larger values. */
  lemma MkTimeMonotone(a: Date, s: Time, b: Date, t: Time)
    requires Valid(a) && Valid(b) && ValidTime(s) && ValidTime(t) && (a == EPOCH || Before(EPOCH, a)) && b.year < 0x1_0000
    requires Before(a, b) || (a == b && Earlier(s, t))
    ensures MkTime(a, s) < MkTime(b, t)
  {
    hide JulianDay, DayNumber, SecondNumber, MkTime, SecondOfDay;
    var n, x := MkTimeCounts(a, s);
    var m, y := MkTimeCounts(b, t);
    DayNumberJulian(n);
    DayNumberJulian(m);
    SecondNumberCounts(x);
    SecondNumberCounts(y);
    SameSecond(s, t);
    if Before(a, b) { JulianMonotone(a, b); }
  }

  /** Dates before 1970 too: the result is the signed second count in two's complement. */
  lemma MkTimeWraps(d: Date, t: Time)
    requires Valid(d) && ValidTime(t)
    ensures MkTime(d, t) == Wrap((JulianDay(d) - JulianDay(EPOCH)) * 86400 + SecondOfDay(t))
  {
    hide JulianDay, Seconds, Wrap;
    WrapCommutes(JulianDay(d) - JulianDay(EPOCH), SecondOfDay(t));
  }

  /** One second later on the clock is one more, across midnight and for every date. */
  lemma MkTimeNext(d: Date, t: Time)
    requires Valid(d) && ValidTime(t)
    ensures var (e, u) := NextMoment(d, t); Valid(e) && ValidTime(u) && MkTime(e, u) == Wrap(MkTime(d, t) + 1)
  {
    hide JulianDay, MkTime, NextSecond, SecondOfDay;
    var (e, u) := NextMoment(d, t);
    SecondNext(t);
    SecondAtMidnight();
    NextValid(d);
    JulianNext(d);
    MkTimeWraps(d, t);
    MkTimeWraps(e, u);
    var x, y := JulianDay(d) - JulianDay(EPOCH), JulianDay(e) - JulianDay(EPOCH);
    assert y * 86400 + SecondOfDay(u) == x * 86400 + SecondOfDay(t) + 1;
    WrapNext(x * 86400 + SecondOfDay(t));
  }

  function NextMoment(d: Date, t: Time): (Date, Time) {
    (if t == Time(23, 59, 59) then NextDay(d) else d, NextSecond(t))
  }

  /** The date and time n seconds after the first of January 1970. */
  function MomentNumber(n: nat): (Date, Time) {
    if n == 0 then (EPOCH, MIDNIGHT) else var (d, t) := MomentNumber(n - 1); NextMoment(d, t)
  }

  /** rtc_mktime of the n-th second counted one by one from 1970 is n, in 64 bits. */
  lemma {:induction false} MkTimeOfMoment(n: nat)
    ensures var (d, t) := MomentNumber(n); Valid(d) && ValidTime(t) && MkTime(d, t) == Wrap(n)
  {
    hide MkTime, NextMoment, Wrap;
    if n == 0 {
      MkTimeEpoch();
    } else {
      MkTimeOfMoment(n - 1);
      var (d, t) := MomentNumber(n - 1);
      MkTimeNext(d, t);
      WrapNext(n - 1);
    }
  }

  lemma MkTimeEpoch()
    ensures Valid(EPOCH) && ValidTime(MIDNIGHT) && MkTime(EPOCH, MIDNIGHT) == Wrap(0)
  {
    hide JulianDay, Seconds, Wrap;
    MkTimeWraps(EPOCH, MIDNIGHT);
  }

  lemma SecondAtMidnight()
    ensures SecondOfDay(MIDNIGHT) == 0
  {
  }

  lemma WrapNext(x: int)
    ensures Wrap(Wrap(x) + 1) == Wrap(x + 1)
  {
  }

  lemma WrapCommutes(x: int, s: nat)
    ensures Seconds(x, s) == Wrap(x * 86400 + s)
  {
    var r, q := x % WORD64, x / WORD64;
    assert x * 86400 + s == r * 86400 + s + q * 86400 * WORD64;
    ModShift(r * 86400 + s, q * 86400);
  }

  lemma ModShift(x: int, k: int)
    ensures (x + k * WORD64) % WORD64 == x % WORD64
  {
  }
}
