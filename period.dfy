/** getPeriod (main.go): the unit named by the suffix of the period string,
    the step written before it, and the anchor, t1 truncated to the unit;
    and the unit step the generating loop of getResult applies. */
module Period {
  import opened Wrappers
  import opened Numbers
  import opened Calendar

  /** The units a period can name: "h", "d", "mo" and "y". */
  datatype Unit = Hour | Day | Month | Year

  /** The byte getPeriod reports as the period type of a unit: its last byte. */
  function Code(u: Unit): char
  {
    match u
    case Hour => 'h'
    case Day => 'd'
    case Month => 'o'
    case Year => 'y'
  }

  /** The unit the generating loop steps by for a period type, if any. */
  function UnitOf(c: char): (r: Option<Unit>)
    ensures r.Some? ==> Code(r.value) == c
    ensures forall u: Unit :: Code(u) == c ==> r == Some(u)
  {
    if c == 'h' then Some(Hour)
    else if c == 'd' then Some(Day)
    else if c == 'o' then Some(Month)
    else if c == 'y' then Some(Year)
    else None
  }

  /** The suffix that names a unit at the end of a period string. */
  function Suffix(u: Unit): string
  {
    if u == Month then "mo" else [Code(u)]
  }

  /** The error getPeriod returns: none, the empty error it starts from
      when the suffix names no unit, or the error of the step conversion. */
  datatype PeriodError = NoError | Unrecognised | StepError(e: NumError)

  /** What getPeriod produces: a panic when it indexes outside the period
      string, or the anchor, period type, step and error it returns. */
  datatype Derivation =
    | IndexOutOfRange
    | Derived(anchor: Instant, kind: char, step: int, err: PeriodError)

  /** The step text and its conversion, with the anchor of the case that parsed it. */
  function WithStep(anchor: Instant, kind: char, text: string): Derivation
  {
    Derived(anchor, kind, AtoiInt(text), if Atoi(text).Ok? then NoError else StepError(Atoi(text).error))
  }

  /** getPeriod: dispatch on the last byte of the period; for 'o' the byte
      before it must be 'm'. The anchor is built from the zero time with
      AddDate and Add, keeping the fields of t1 down to the unit. On an
      unrecognised period the zero time, step 0 and the empty error are returned. */
  function GetPeriod(t1: Instant, per: string): (d: Derivation)
    requires Valid(t1)
    ensures d.Derived? ==> Valid(d.anchor)
  {
    if |per| == 0 then IndexOutOfRange
    else
      var kind := per[|per| - 1];
      if kind == 'h' then WithStep(StartOfHour(t1), kind, per[..|per| - 1])
      else if kind == 'd' then WithStep(StartOfDay(t1), kind, per[..|per| - 1])
      else if kind == 'o' then
        if |per| < 2 then IndexOutOfRange
        else if per[|per| - 2] == 'm' then WithStep(StartOfMonth(t1), kind, per[..|per| - 2])
        else Derived(Zero, kind, 0, Unrecognised)
      else if kind == 'y' then WithStep(StartOfYear(t1), kind, per[..|per| - 1])
      else Derived(Zero, kind, 0, Unrecognised)
  }

  /** The anchor of the 'h' case: AddDate from the zero time by the date of
      t1 less one, then Add of its hours. */
  function StartOfHour(t1: Instant): (r: Instant)
    requires Valid(t1)
    ensures Valid(r)
  {
    Add(AddDate(Zero, t1.year - 1, t1.month - 1, t1.day - 1), 3600 * t1.hour)
  }

  /** The anchor of the 'd' case. */
  function StartOfDay(t1: Instant): (r: Instant)
    ensures Valid(r)
  {
    AddDate(Zero, t1.year - 1, t1.month - 1, t1.day - 1)
  }

  /** The anchor of the "mo" case. */
  function StartOfMonth(t1: Instant): (r: Instant)
    ensures Valid(r)
  {
    AddDate(Zero, t1.year - 1, t1.month - 1, 0)
  }

  /** The anchor of the 'y' case. */
  function StartOfYear(t1: Instant): (r: Instant)
    ensures Valid(r)
  {
    AddDate(Zero, t1.year - 1, 0, 0)
  }

  /** The period strings getPeriod recognises: a unit suffix after some step text. */
  predicate Names(per: string, u: Unit)
  {
    |Suffix(u)| <= |per| && per[|per| - |Suffix(u)|..] == Suffix(u)
  }

  /** The step text in front of the suffix. */
  function StepText(per: string, u: Unit): string
    requires Names(per, u)
  {
    per[..|per| - |Suffix(u)|]
  }

  // ---------------------------------------------------------------------
  // Truncation to a unit boundary and the unit step.

  /** t with every field below the unit reset: minutes and seconds for
      hours, the clock for days, the clock and the day for months, and the
      clock, the day and the month for years. */
  function Truncate(t: Instant, u: Unit): (r: Instant)
    requires Valid(t)
    ensures Valid(r)
  {
    match u
    case Hour => t.(minute := 0, second := 0)
    case Day => t.(hour := 0, minute := 0, second := 0)
    case Month => t.(day := 1, hour := 0, minute := 0, second := 0)
    case Year => Instant(t.year, 1, 1, 0, 0, 0)
  }

  /** One iteration of the switch in the loop of getResult: an exact
      duration of hours, or AddDate by days, months or years. */
  function Advance(t: Instant, u: Unit, step: int): (r: Instant)
    requires Valid(t)
    ensures Valid(r)
  {
    match u
    case Hour => Add(t, 3600 * step)
    case Day => AddDate(t, 0, 0, step)
    case Month => AddDate(t, 0, step, 0)
    case Year => AddDate(t, step, 0, 0)
  }

  /** Instants on which stepping by months or years composes: the first of a month. */
  predicate Aligned(t: Instant, u: Unit)
  {
    (u == Month || u == Year) ==> t.day == 1
  }

  // ---------------------------------------------------------------------
  // What getPeriod returns.

  /** getPeriod panics exactly on the empty period and on "o": the first has
      no last byte, the second no byte before its 'o'. */
  lemma PanicsExactly(t1: Instant, per: string)
    requires Valid(t1)
    ensures GetPeriod(t1, per) == IndexOutOfRange <==> per == "" || per == "o"
  {
    if |per| == 1 && per[0] == 'o' {
      assert per == "o";
    }
  }

  /** Which unit suffix ends a non-empty period is decided by its last byte,
      and for "mo" by the byte before it. */
  lemma NamesByLast(per: string)
    requires |per| > 0
    ensures Names(per, Hour) <==> per[|per| - 1] == 'h'
    ensures Names(per, Day) <==> per[|per| - 1] == 'd'
    ensures Names(per, Year) <==> per[|per| - 1] == 'y'
    ensures Names(per, Month) <==> |per| >= 2 && per[|per| - 2] == 'm' && per[|per| - 1] == 'o'
  {
    LastByte(per);
    if |per| >= 2 {
      LastTwoBytes(per);
    }
  }

  lemma LastByte(per: string)
    requires |per| > 0
    ensures per[|per| - 1..] == [per[|per| - 1]]
  {
  }

  lemma LastTwoBytes(per: string)
    requires |per| >= 2
    ensures per[|per| - 2..] == [per[|per| - 2], per[|per| - 1]]
  {
  }

  /** The period type is the last byte of the period; the error is the empty
      one exactly when no unit suffix ends the period, and then the zero time
      and step 0 come with it. */
  lemma UnrecognisedExactly(t1: Instant, per: string)
    requires Valid(t1) && GetPeriod(t1, per).Derived?
    ensures GetPeriod(t1, per).kind == per[|per| - 1]
    ensures GetPeriod(t1, per).err == Unrecognised <==> forall u: Unit :: !Names(per, u)
    ensures GetPeriod(t1, per).err == Unrecognised ==> GetPeriod(t1, per).anchor == Zero && GetPeriod(t1, per).step == 0
  {
    NamesByLast(per);
    assert !Names(per, Hour) && !Names(per, Day) && !Names(per, Month) && !Names(per, Year)
      ==> forall u: Unit :: !Names(per, u);
  }

  /** On a period ending in a unit suffix, getPeriod returns t1 truncated to
      that unit as the anchor, the unit's period type, and the conversion of
      the text before the suffix as the step. */
  lemma DerivesTruncation(t1: Instant, per: string, u: Unit)
    requires Valid(t1) && Names(per, u)
    ensures GetPeriod(t1, per) == WithStep(Truncate(t1, u), Code(u), StepText(per, u))
  {
    match u
    case Hour => DerivesHour(t1, per);
    case Day => DerivesDay(t1, per);
    case Month => DerivesMonth(t1, per);
    case Year => DerivesYear(t1, per);
  }

  lemma DerivesHour(t1: Instant, per: string)
    requires Valid(t1) && Names(per, Hour)
    ensures GetPeriod(t1, per) == WithStep(Truncate(t1, Hour), Code(Hour), StepText(per, Hour))
  {
    NamesByLast(per);
    assert per[|per| - 1] == 'h' && StepText(per, Hour) == per[..|per| - 1];
    BytesDiffer();
    HourBranch(t1, per);
    HourAnchor(t1);
  }

  lemma DerivesDay(t1: Instant, per: string)
    requires Valid(t1) && Names(per, Day)
    ensures GetPeriod(t1, per) == WithStep(Truncate(t1, Day), Code(Day), StepText(per, Day))
  {
    NamesByLast(per);
    assert per[|per| - 1] == 'd' && StepText(per, Day) == per[..|per| - 1];
    BytesDiffer();
    DayBranch(t1, per);
    DayAnchor(t1);
  }

  lemma DerivesMonth(t1: Instant, per: string)
    requires Valid(t1) && Names(per, Month)
    ensures GetPeriod(t1, per) == WithStep(Truncate(t1, Month), Code(Month), StepText(per, Month))
  {
    NamesByLast(per);
    assert per[|per| - 1] == 'o' && StepText(per, Month) == per[..|per| - 2];
    BytesDiffer();
    MonthBranch(t1, per);
    MonthAnchor(t1);
  }

  lemma DerivesYear(t1: Instant, per: string)
    requires Valid(t1) && Names(per, Year)
    ensures GetPeriod(t1, per) == WithStep(Truncate(t1, Year), Code(Year), StepText(per, Year))
  {
    NamesByLast(per);
    assert per[|per| - 1] == 'y' && StepText(per, Year) == per[..|per| - 1];
    BytesDiffer();
    YearBranch(t1, per);
    YearAnchor(t1);
  }

  /** The bytes getPeriod compares the period with are pairwise distinct. */
  lemma BytesDiffer()
    ensures 'h' != 'd' && 'h' != 'o' && 'h' != 'y' && 'd' != 'o' && 'd' != 'y' && 'o' != 'y'
    ensures 'm' != 'h' && 'm' != 'd' && 'm' != 'o' && 'm' != 'y'
  {
  }

  // The case of GetPeriod each unit suffix selects. Each first states that
  // the period bytes differ, so that the other cases are discarded at once.

  lemma HourBranch(t1: Instant, per: string)
    requires Valid(t1) && |per| > 0 && per[|per| - 1] == 'h'
    ensures GetPeriod(t1, per) == WithStep(StartOfHour(t1), 'h', per[..|per| - 1])
  {
    BytesDiffer();
  }

  lemma DayBranch(t1: Instant, per: string)
    requires Valid(t1) && |per| > 0 && per[|per| - 1] == 'd'
    ensures GetPeriod(t1, per) == WithStep(StartOfDay(t1), 'd', per[..|per| - 1])
  {
    BytesDiffer();
  }

  lemma MonthBranch(t1: Instant, per: string)
    requires Valid(t1) && |per| >= 2 && per[|per| - 2] == 'm' && per[|per| - 1] == 'o'
    ensures GetPeriod(t1, per) == WithStep(StartOfMonth(t1), 'o', per[..|per| - 2])
  {
    BytesDiffer();
  }

  lemma YearBranch(t1: Instant, per: string)
    requires Valid(t1) && |per| > 0 && per[|per| - 1] == 'y'
    ensures GetPeriod(t1, per) == WithStep(StartOfYear(t1), 'y', per[..|per| - 1])
  {
    BytesDiffer();
  }

  /** The anchor of the 'h' case: midnight of the day of t1 plus its hours. */
  lemma HourAnchor(t1: Instant)
    requires Valid(t1)
    ensures StartOfHour(t1) == Truncate(t1, Hour)
  {
    var h := t1.(minute := 0, second := 0);
    ZeroAddDate(t1);
    MidnightPlusClock(h);
    assert Clock(h) == 3600 * t1.hour;
  }

  /** The anchor of the 'd' case: midnight of the day of t1. */
  lemma DayAnchor(t1: Instant)
    requires Valid(t1)
    ensures StartOfDay(t1) == Truncate(t1, Day)
  {
    assert StartOfDay(t1) == AddDate(Zero, t1.year - 1, t1.month - 1, t1.day - 1);
    ZeroAddDate(t1);
  }

  /** The anchor of the "mo" case: the first of the month of t1 at midnight. */
  lemma MonthAnchor(t1: Instant)
    requires Valid(t1)
    ensures StartOfMonth(t1) == Truncate(t1, Month)
  {
    ZeroAddDate(t1.(day := 1));
  }

  /** The anchor of the 'y' case: January 1 of the year of t1 at midnight. */
  lemma YearAnchor(t1: Instant)
    requires Valid(t1)
    ensures StartOfYear(t1) == Truncate(t1, Year)
  {
    ZeroAddDate(Instant(t1.year, 1, 1, 0, 0, 0));
  }

  /** Any int64 step written in decimal before a unit suffix comes back as
      that step, with no error and the truncated anchor. */
  lemma DerivesWrittenStep(t1: Instant, n: int, u: Unit)
    requires Valid(t1) && MinInt64 <= n <= MaxInt64
    ensures GetPeriod(t1, Itoa(n) + Suffix(u)) == Derived(Truncate(t1, u), Code(u), n, NoError)
  {
    var per := Itoa(n) + Suffix(u);
    assert per[|per| - |Suffix(u)|..] == Suffix(u);
    assert StepText(per, u) == Itoa(n);
    AtoiItoa(n);
    DerivesTruncation(t1, per, u);
  }

  // ---------------------------------------------------------------------
  // Truncation finds the unit boundary at or before t.

  /** The truncation is the last unit boundary not after t: it is not after
      t, one unit step from it is after t, and truncating it again changes
      nothing. */
  lemma TruncateIsBoundary(t: Instant, u: Unit)
    requires Valid(t)
    ensures !Before(t, Truncate(t, u))
    ensures Before(t, Advance(Truncate(t, u), u, 1))
    ensures Truncate(Truncate(t, u), u) == Truncate(t, u) && Aligned(Truncate(t, u), u)
  {
    match u
    case Hour =>
    case Day => AddDaysSeconds(Truncate(t, u), 1);
    case Month => MonthBoundary(t);
    case Year => YearBoundary(t);
  }

  lemma MonthBoundary(t: Instant)
    requires Valid(t)
    ensures !Before(t, Truncate(t, Month))
    ensures Before(t, AddDate(Truncate(t, Month), 0, 1, 0))
  {
    var k := MonthIndex(t);
    AddDateAt(Truncate(t, Month), 0, 1, 0, k + 1);
    SecondsAt(t, k);
    MonthLength(k, t.year, t.month);
  }

  lemma YearBoundary(t: Instant)
    requires Valid(t)
    ensures !Before(t, Truncate(t, Year))
    ensures Before(t, AddDate(Truncate(t, Year), 1, 0, 0))
  {
    AddDateAt(Truncate(t, Year), 1, 0, 0, 12 * (t.year + 1));
    MonthStartOf(12 * (t.year + 1), t.year + 1, 1);
    DayNumberInYear(t.year, t.month, t.day);
  }

  // ---------------------------------------------------------------------
  // The unit step.

  /** A unit step moves forward exactly when the step is positive, and
      backward when it is negative. */
  lemma AdvanceMoves(t: Instant, u: Unit, step: int)
    requires Valid(t)
    ensures Before(t, Advance(t, u, step)) <==> step > 0
    ensures step < 0 ==> Before(Advance(t, u, step), t)
  {
    match u
    case Hour =>
    case Day => AddDaysSeconds(t, step);
    case Month => MonthsMove(t, 0, step);
    case Year => MonthsMove(t, step, 0);
  }

  /** AddDate by years and months moves forward exactly when they amount to
      a positive number of months, and backward when to a negative one. */
  lemma MonthsMove(t: Instant, years: int, months: int)
    requires Valid(t)
    ensures Seconds(t) < Seconds(AddDate(t, years, months, 0)) <==> 12 * years + months > 0
    ensures 12 * years + months < 0 ==> Seconds(AddDate(t, years, months, 0)) < Seconds(t)
  {
    var k := MonthIndex(t);
    AddDateAt(t, years, months, 0, k + (12 * years + months));
    SecondsAt(t, k);
    MonthShift(k, k + (12 * years + months));
  }

  /** Month index j starts later than month index k exactly when j > k,
      and earlier when j < k. */
  lemma MonthShift(k: int, j: int)
    ensures MonthStart(k) < MonthStart(j) <==> k < j
    ensures j < k ==> MonthStart(j) < MonthStart(k)
  {
    if k < j {
      MonthStartIncreases(k, j);
    } else if j < k {
      MonthStartIncreases(j, k);
    } else {
      assert j == k;
    }
  }

  /** A step of zero leaves the instant where it is. */
  lemma AdvanceZero(t: Instant, u: Unit)
    requires Valid(t)
    ensures Advance(t, u, 0) == t
  {
    if u == Hour {
      FromSecondsOfValid(t);
    } else {
      DateOfValid(t);
    }
  }
}
