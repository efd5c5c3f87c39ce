/** The part of Go's time package the service relies on, for UTC only:
    the proleptic Gregorian calendar, absolute day and second numbers, the
    normalising constructor time.Date, AddDate, Add and Before. A time.Time
    is represented by the civil fields it reports; every time.Time value
    satisfies Valid. */
module Calendar {

  /** A civil instant with second precision, as reported by Date() and Clock(). */
  datatype Instant = Instant(year: int, month: int, day: int, hour: int, minute: int, second: int)

  /** The zero time.Time value: 1 January of year 1, 00:00:00 UTC. */
  const Zero := Instant(1, 1, 1, 0, 0, 0)

  predicate IsLeap(y: int)
  {
    y % 4 == 0 && (y % 100 != 0 || y % 400 == 0)
  }

  function DaysInYear(y: int): int
  {
    if IsLeap(y) then 366 else 365
  }

  function DaysInMonth(y: int, m: int): (n: int)
    requires 1 <= m <= 12
    ensures 28 <= n <= 31
  {
    if m == 2 then (if IsLeap(y) then 29 else 28)
    else if m == 4 || m == 6 || m == 9 || m == 11 then 30
    else 31
  }

  /** True when the fields name a real calendar date and time of day. */
  predicate Valid(t: Instant)
  {
    && 1 <= t.month <= 12
    && 1 <= t.day <= DaysInMonth(t.year, t.month)
    && 0 <= t.hour < 24
    && 0 <= t.minute < 60
    && 0 <= t.second < 60
  }

  /** Days from 1 January of year 0 to 1 January of year y (negative before year 0). */
  function DaysBeforeYear(y: int): int
    decreases if y < 0 then -y else y
  {
    if y == 0 then 0
    else if y > 0 then DaysBeforeYear(y - 1) + DaysInYear(y - 1)
    else DaysBeforeYear(y + 1) - DaysInYear(y)
  }

  /** Days from 1 January to the first day of month m; m == 13 stands for the next 1 January. */
  function DaysBeforeMonth(y: int, m: int): int
    requires 1 <= m <= 13
  {
    if m == 1 then 0 else DaysBeforeMonth(y, m - 1) + DaysInMonth(y, m - 1)
  }

  /** The absolute number of a day; the day of the month may lie outside the month. */
  function DayNumber(y: int, m: int, d: int): int
    requires 1 <= m <= 12
  {
    DaysBeforeYear(y) + DaysBeforeMonth(y, m) + d - 1
  }

  /** Seconds of the time of day. */
  function Clock(t: Instant): int
  {
    t.hour * 3600 + t.minute * 60 + t.second
  }

  /** Seconds since 0000-01-01T00:00:00Z. */
  function Seconds(t: Instant): int
    requires 1 <= t.month <= 12
  {
    DayNumber(t.year, t.month, t.day) * 86400 + Clock(t)
  }

  // ---------------------------------------------------------------------
  // Year and month lengths add up.

  lemma YearStep(y: int)
    ensures DaysBeforeYear(y + 1) == DaysBeforeYear(y) + DaysInYear(y)
  {
  }

  lemma {:induction false} YearsIncrease(a: int, b: int)
    requires a < b
    ensures DaysBeforeYear(a + 1) <= DaysBeforeYear(b)
    decreases b - a
  {
    YearStep(b - 1);
    if a + 1 < b {
      YearsIncrease(a, b - 1);
    }
  }

  /** Every year has 365 or 366 days. */
  lemma {:induction false} YearBounds(y: int)
    ensures y >= 0 ==> 365 * y <= DaysBeforeYear(y) <= 366 * y
    ensures y <= 0 ==> 366 * y <= DaysBeforeYear(y) <= 365 * y
    decreases if y < 0 then -y else y
  {
    if y > 0 {
      YearBounds(y - 1);
    } else if y < 0 {
      YearBounds(y + 1);
    }
  }

  lemma MonthStep(y: int, m: int)
    requires 1 <= m <= 12
    ensures DaysBeforeMonth(y, m + 1) == DaysBeforeMonth(y, m) + DaysInMonth(y, m)
  {
  }

  lemma {:induction false} MonthsIncrease(y: int, a: int, b: int)
    requires 1 <= a < b <= 13
    ensures DaysBeforeMonth(y, a + 1) <= DaysBeforeMonth(y, b)
    decreases b - a
  {
    if a + 1 < b {
      MonthStep(y, b - 1);
      MonthsIncrease(y, a, b - 1);
    }
  }

  /** The twelve months make up the year. */
  lemma MonthsMakeYear(y: int)
    ensures DaysBeforeMonth(y, 13) == DaysInYear(y)
  {
    var f := DaysInMonth(y, 2);
    assert DaysBeforeMonth(y, 2) == 31;
    assert DaysBeforeMonth(y, 3) == 31 + f;
    assert DaysBeforeMonth(y, 4) == 62 + f;
    assert DaysBeforeMonth(y, 5) == 92 + f;
    assert DaysBeforeMonth(y, 6) == 123 + f;
    assert DaysBeforeMonth(y, 7) == 153 + f;
    assert DaysBeforeMonth(y, 8) == 184 + f;
    assert DaysBeforeMonth(y, 9) == 215 + f;
    assert DaysBeforeMonth(y, 10) == 245 + f;
    assert DaysBeforeMonth(y, 11) == 276 + f;
    assert DaysBeforeMonth(y, 12) == 306 + f;
  }

  // ---------------------------------------------------------------------
  // From an absolute day number back to the civil date.

  /** The year containing day n, searched upwards from year y. */
  function YearFrom(y: int, n: int): (r: int)
    requires DaysBeforeYear(y) <= n
    ensures y <= r && DaysBeforeYear(r) <= n < DaysBeforeYear(r + 1)
    decreases n - DaysBeforeYear(y)
  {
    YearStep(y);
    if n < DaysBeforeYear(y + 1) then y else YearFrom(y + 1, n)
  }

  /** The year containing day n. */
  function YearOf(n: int): (r: int)
    ensures DaysBeforeYear(r) <= n < DaysBeforeYear(r + 1)
  {
    var start := if n >= 0 then n / 366 else n / 365 - 1;
    YearBounds(start);
    YearFrom(start, n)
  }

  /** The month of year y containing day r of that year, searched upwards from month m. */
  function MonthFrom(y: int, r: int, m: int): (mo: int)
    requires 1 <= m <= 12 && DaysBeforeMonth(y, m) <= r < DaysInYear(y)
    ensures m <= mo <= 12 && DaysBeforeMonth(y, mo) <= r < DaysBeforeMonth(y, mo + 1)
    decreases 12 - m
  {
    MonthsMakeYear(y);
    if m == 12 || r < DaysBeforeMonth(y, m + 1) then m else MonthFrom(y, r, m + 1)
  }

  /** Midnight of the day with absolute number n. */
  function MidnightOf(n: int): (t: Instant)
    ensures Valid(t) && t.hour == 0 && t.minute == 0 && t.second == 0
    ensures DayNumber(t.year, t.month, t.day) == n
  {
    var y := YearOf(n);
    YearStep(y);
    var m := MonthFrom(y, n - DaysBeforeYear(y), 1);
    MonthStep(y, m);
    Instant(y, m, n - DaysBeforeYear(y) - DaysBeforeMonth(y, m) + 1, 0, 0, 0)
  }

  /** The clock reading of the r-th second of a day. */
  function ClockOf(t: Instant, r: int): (c: Instant)
    requires 0 <= r < 86400
    ensures 0 <= c.hour < 24 && 0 <= c.minute < 60 && 0 <= c.second < 60
    ensures Clock(c) == r
  {
    t.(hour := r / 3600, minute := r % 3600 / 60, second := r % 60)
  }

  lemma DaySplit(s: int)
    ensures s == s / 86400 * 86400 + s % 86400 && 0 <= s % 86400 < 86400
  {
  }

  /** The civil fields of second s, computed through the day number. */
  function CivilOf(s: int): (t: Instant)
    ensures Valid(t) && Seconds(t) == s
  {
    DaySplit(s);
    ClockOf(MidnightOf(s / 86400), s % 86400)
  }

  /** Exactly one valid instant has second number s. */
  lemma OneInstantAt(s: int)
    ensures exists c: Instant :: Valid(c) && Seconds(c) == s && forall t: Instant :: Valid(t) && Seconds(t) == s ==> t == c
  {
    var c := CivilOf(s);
    forall t: Instant | Valid(t) && Seconds(t) == s
      ensures t == c
    {
      SecondsInjective(t, c);
    }
  }

  /** The instant a given number of seconds after 0000-01-01T00:00:00Z: the
      one valid instant with that second number. */
  function FromSeconds(s: int): (t: Instant)
    ensures Valid(t) && Seconds(t) == s
  {
    OneInstantAt(s);
    var t :| Valid(t) && Seconds(t) == s;
    t
  }

  // ---------------------------------------------------------------------
  // Day and second numbers are one-to-one on valid instants.

  lemma DayNumberInYear(y: int, m: int, d: int)
    requires 1 <= m <= 12 && 1 <= d <= DaysInMonth(y, m)
    ensures DaysBeforeYear(y) <= DayNumber(y, m, d) < DaysBeforeYear(y + 1)
  {
    YearStep(y);
    MonthsMakeYear(y);
    MonthStep(y, m);
    MonthsIncrease(y, m, 13);
    if m > 1 {
      MonthsIncrease(y, 1, m);
    }
  }

  lemma {:induction false} DayNumberInjective(y1: int, m1: int, d1: int, y2: int, m2: int, d2: int)
    requires 1 <= m1 <= 12 && 1 <= d1 <= DaysInMonth(y1, m1)
    requires 1 <= m2 <= 12 && 1 <= d2 <= DaysInMonth(y2, m2)
    requires DayNumber(y1, m1, d1) == DayNumber(y2, m2, d2)
    ensures y1 == y2 && m1 == m2 && d1 == d2
  {
    DayNumberInYear(y1, m1, d1);
    DayNumberInYear(y2, m2, d2);
    if y1 < y2 {
      YearsIncrease(y1, y2);
    } else if y2 < y1 {
      YearsIncrease(y2, y1);
    }
    MonthStep(y1, m1);
    MonthStep(y1, m2);
    if m1 < m2 {
      MonthsIncrease(y1, m1, m2);
    } else if m2 < m1 {
      MonthsIncrease(y1, m2, m1);
    }
  }

  lemma {:induction false} SecondsInjective(a: Instant, b: Instant)
    requires Valid(a) && Valid(b) && Seconds(a) == Seconds(b)
    ensures a == b
  {
    var ta := a.hour * 3600 + a.minute * 60 + a.second;
    var tb := b.hour * 3600 + b.minute * 60 + b.second;
    var da := DayNumber(a.year, a.month, a.day);
    var db := DayNumber(b.year, b.month, b.day);
    assert Seconds(a) / 86400 == da && Seconds(a) % 86400 == ta;
    assert Seconds(b) / 86400 == db && Seconds(b) % 86400 == tb;
    assert ta / 3600 == a.hour && ta % 3600 == a.minute * 60 + a.second;
    assert tb / 3600 == b.hour && tb % 3600 == b.minute * 60 + b.second;
    DayNumberInjective(a.year, a.month, a.day, b.year, b.month, b.day);
  }

  /** Converting a valid instant to seconds and back gives it unchanged. */
  lemma FromSecondsOfValid(t: Instant)
    requires Valid(t)
    ensures FromSeconds(Seconds(t)) == t
  {
    SecondsInjective(FromSeconds(Seconds(t)), t);
  }

  // ---------------------------------------------------------------------
  // The operations of Go's time package used by the service.

  /** time.Date in UTC: out-of-range fields carry into the next larger unit
      (months into years, then seconds, minutes, hours and days into the date). */
  function Date(year: int, month: int, day: int, hour: int, min: int, sec: int): (t: Instant)
    ensures Valid(t) && Seconds(t) == DateSeconds(year, month, day, hour, min, sec)
  {
    FromSeconds(DateSeconds(year, month, day, hour, min, sec))
  }

  /** The second number time.Date arrives at once months have carried into years. */
  function DateSeconds(year: int, month: int, day: int, hour: int, min: int, sec: int): int
  {
    DayNumber(year + (month - 1) / 12, (month - 1) % 12 + 1, day) * 86400 + hour * 3600 + min * 60 + sec
  }

  /** Normalisation leaves fields that already name a valid instant unchanged. */
  lemma DateOfValid(t: Instant)
    requires Valid(t)
    ensures Date(t.year, t.month, t.day, t.hour, t.minute, t.second) == t
  {
    assert (t.month - 1) / 12 == 0 && (t.month - 1) % 12 + 1 == t.month;
    var d := Date(t.year, t.month, t.day, t.hour, t.minute, t.second);
    assert Seconds(d) == Seconds(t);
    SecondsInjective(d, t);
  }

  /** time.Time.AddDate: add to the civil fields, then normalise as time.Date does. */
  function AddDate(t: Instant, years: int, months: int, days: int): (r: Instant)
    ensures Valid(r)
  {
    Date(t.year + years, t.month + months, t.day + days, t.hour, t.minute, t.second)
  }

  /** time.Time.Add of an exact duration given in seconds. */
  function Add(t: Instant, secs: int): (r: Instant)
    requires Valid(t)
    ensures Valid(r) && Seconds(r) == Seconds(t) + secs
  {
    FromSeconds(Seconds(t) + secs)
  }

  /** time.Time.Before: strictly earlier on the time line. */
  predicate Before(a: Instant, b: Instant)
    requires Valid(a) && Valid(b)
  {
    Seconds(a) < Seconds(b)
  }

  // ---------------------------------------------------------------------
  // Months counted on one axis: month index k is month k % 12 + 1 of year k / 12.

  /** The day number of the first day of month index k. */
  function MonthStart(k: int): int
  {
    DaysBeforeYear(k / 12) + DaysBeforeMonth(k / 12, k % 12 + 1)
  }

  lemma DivMod12(k: int, q: int, r: int)
    requires k == 12 * q + r && 0 <= r < 12
    ensures k / 12 == q && k % 12 == r
  {
  }

  /** Month index k is month m of year y. */
  lemma MonthStartOf(k: int, y: int, m: int)
    requires 1 <= m <= 12 && k == 12 * y + m - 1
    ensures MonthStart(k) == DaysBeforeYear(y) + DaysBeforeMonth(y, m)
  {
    DivMod12(k, y, m - 1);
  }

  /** Month index k, month m of year y, is followed by the month index
      that starts DaysInMonth(y, m) days later. */
  lemma MonthLength(k: int, y: int, m: int)
    requires 1 <= m <= 12 && k == 12 * y + m - 1
    ensures MonthStart(k + 1) == MonthStart(k) + DaysInMonth(y, m)
  {
    MonthStartOf(k, y, m);
    MonthStep(y, m);
    if m == 12 {
      MonthStartOf(k + 1, y + 1, 1);
      YearStep(y);
      MonthsMakeYear(y);
    } else {
      MonthStartOf(k + 1, y, m + 1);
    }
  }

  lemma MonthStartNext(k: int)
    ensures MonthStart(k) < MonthStart(k + 1)
  {
    MonthLength(k, k / 12, k % 12 + 1);
  }

  lemma {:induction false} MonthStartIncreases(a: int, b: int)
    requires a < b
    ensures MonthStart(a) < MonthStart(b)
    decreases b - a
  {
    MonthStartNext(b - 1);
    if a + 1 < b {
      MonthStartIncreases(a, b - 1);
    }
  }

  lemma AddDateSeconds(t: Instant, years: int, months: int, days: int)
    ensures Seconds(AddDate(t, years, months, days)) ==
              DayNumber(t.year + years + (t.month + months - 1) / 12, (t.month + months - 1) % 12 + 1, t.day + days)
                * 86400 + Clock(t)
  {
  }

  /** Day d of month m of year y, counted from the start of month index k. */
  lemma DayOfMonthIndex(k: int, y: int, m: int, d: int)
    requires 1 <= m <= 12 && k == 12 * y + m - 1
    ensures DayNumber(y, m, d) == MonthStart(k) + d - 1
  {
    MonthStartOf(k, y, m);
  }

  /** AddDate moves to month index k = 12 * (year + years) + month - 1 + months
      and counts the day of the month from its start, carrying days past its
      end forward. */
  lemma AddDateAt(t: Instant, years: int, months: int, days: int, k: int)
    requires k == 12 * (t.year + years) + t.month - 1 + months
    ensures Seconds(AddDate(t, years, months, days)) == (MonthStart(k) + t.day + days - 1) * 86400 + Clock(t)
  {
    var q, r := (t.month + months - 1) / 12, (t.month + months - 1) % 12;
    AddDateSeconds(t, years, months, days);
    DayOfMonthIndex(k, t.year + years + q, r + 1, t.day + days);
  }

  /** Days past the date of t count on from its day number. */
  lemma DaySeconds(t: Instant, a: int)
    requires Valid(t)
    ensures DateSeconds(t.year, t.month, t.day + a, t.hour, t.minute, t.second) == Seconds(t) + a * 86400
  {
    DivMod12(t.month - 1, 0, t.month - 1);
  }

  /** Adding whole days to a valid instant moves it by exactly that many 24-hour days. */
  lemma AddDaysSeconds(t: Instant, a: int)
    requires Valid(t)
    ensures Seconds(AddDate(t, 0, 0, a)) == Seconds(t) + a * 86400
  {
    DaySeconds(t, a);
  }

  /** AddDate applied to the zero time lands on the date written in the fields. */
  lemma AddDateToZero(y: int, m: int, d: int)
    ensures AddDate(Zero, y - 1, m - 1, d - 1) == Date(y, m, d, 0, 0, 0)
  {
    assert Zero.year + (y - 1) == y && Zero.month + (m - 1) == m && Zero.day + (d - 1) == d;
  }

  /** Starting from the zero time, AddDate by the fields of a valid date less
      one reaches midnight of that date. */
  lemma ZeroAddDate(v: Instant)
    requires Valid(v)
    ensures AddDate(Zero, v.year - 1, v.month - 1, v.day - 1) == v.(hour := 0, minute := 0, second := 0)
  {
    AddDateToZero(v.year, v.month, v.day);
    DateOfValid(v.(hour := 0, minute := 0, second := 0));
  }

  /** A valid instant is its midnight plus its clock reading. */
  lemma MidnightPlusClock(t: Instant)
    requires Valid(t)
    ensures Add(t.(hour := 0, minute := 0, second := 0), Clock(t)) == t
  {
    SecondsInjective(Add(t.(hour := 0, minute := 0, second := 0), Clock(t)), t);
  }

  /** Later instants never have earlier years. */
  lemma YearsOrdered(a: Instant, b: Instant)
    requires Valid(a) && Valid(b) && Seconds(a) <= Seconds(b)
    ensures a.year <= b.year
  {
    DayNumberInYear(a.year, a.month, a.day);
    DayNumberInYear(b.year, b.month, b.day);
    if b.year < a.year {
      YearsIncrease(b.year, a.year);
    }
  }

  /** The month index of an instant. */
  function MonthIndex(t: Instant): int
  {
    12 * t.year + t.month - 1
  }

  /** The first day of month index k, at the clock time of t. */
  function FirstOf(k: int, t: Instant): (r: Instant)
    ensures 1 <= r.month <= 12 && MonthIndex(r) == k && r.day == 1
    ensures r.hour == t.hour && r.minute == t.minute && r.second == t.second
  {
    Instant(k / 12, k % 12 + 1, 1, t.hour, t.minute, t.second)
  }

  /** The second number of an instant, counted from the start of its month index k. */
  lemma SecondsAt(t: Instant, k: int)
    requires 1 <= t.month <= 12 && k == MonthIndex(t)
    ensures Seconds(t) == (MonthStart(k) + t.day - 1) * 86400 + Clock(t)
  {
    DayOfMonthIndex(k, t.year, t.month, t.day);
  }

  /** From the first of a month, AddDate by whole years and months lands on
      the first of month index k, the target month, at the same clock time. */
  lemma AddMonthsFromFirst(t: Instant, years: int, months: int, k: int)
    requires Valid(t) && t.day == 1 && k == MonthIndex(t) + 12 * years + months
    ensures AddDate(t, years, months, 0) == FirstOf(k, t)
  {
    AddDateAt(t, years, months, 0, k);
    SecondsAt(FirstOf(k, t), k);
    SecondsInjective(AddDate(t, years, months, 0), FirstOf(k, t));
  }

  /** The same, starting from a first of month written with FirstOf. */
  lemma FirstOfAdd(k: int, t: Instant, years: int, months: int, j: int)
    requires 0 <= t.hour < 24 && 0 <= t.minute < 60 && 0 <= t.second < 60
    requires j == k + 12 * years + months
    ensures AddDate(FirstOf(k, t), years, months, 0) == FirstOf(j, t)
  {
    AddMonthsFromFirst(FirstOf(k, t), years, months, j);
    assert FirstOf(j, FirstOf(k, t)) == FirstOf(j, t);
  }
}
