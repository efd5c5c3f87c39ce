/** getResult (main.go): parse t1 and t2, derive the anchor, unit and step
    from the period, and run the generating loop. What it ends with is an
    Outcome; printing the JSON array is not modelled. */
module Service {
  import opened Wrappers
  import opened Numbers
  import opened Calendar
  import opened Timestamp
  import opened Period
  import opened Sequence

  /** The largest hour step whose duration, time.Hour * time.Duration(step),
      fits in int64 nanoseconds: 3600 * 10^9 * 2562047 <= 2^63 - 1. */
  const MaxHourStep := 2562047

  /** How getResult ends. */
  datatype Outcome =
    | Rejected(error: ParseError)  // handleTimeFormat rejected t1 or t2: return without output
    | Panics                       // getPeriod indexed outside the period string
    | Diverges                     // the loop never ends
    | DurationOverflow             // time.Hour * time.Duration(step) wraps around in int64
    | Stamps(stamps: seq<string>)  // the array of timestamps the loop collected

  /** getResult: t1 first, then t2, then getPeriod (whose error is only
      printed), then the loop. */
  function Run(period: string, t1: string, t2: string): Outcome
  {
    match ParseTimestamp(t1)
    case Err(e) => Rejected(e)
    case Ok(a) =>
      match ParseTimestamp(t2)
      case Err(e) => Rejected(e)
      case Ok(b) => Loop(GetPeriod(a, period), b)
  }

  /** getResult returns on the first of t1 and t2 that handleTimeFormat
      rejects, with that error. */
  lemma RunRejects(period: string, t1: string, t2: string)
    ensures Run(period, t1, t2).Rejected? <==> ParseTimestamp(t1).Err? || ParseTimestamp(t2).Err?
    ensures ParseTimestamp(t1).Err? ==> Run(period, t1, t2) == Rejected(ParseTimestamp(t1).error)
    ensures ParseTimestamp(t1).Ok? && ParseTimestamp(t2).Err? ==> Run(period, t1, t2) == Rejected(ParseTimestamp(t2).error)
  {
    if ParseTimestamp(t1).Ok? && ParseTimestamp(t2).Ok? {
      LoopNeverRejects(GetPeriod(ParseTimestamp(t1).value, period), ParseTimestamp(t2).value);
    }
  }

  /** The loop itself never ends in a rejection. */
  lemma LoopNeverRejects(d: Derivation, end: Instant)
    requires d.Derived? ==> Valid(d.anchor)
    requires Valid(end)
    ensures !Loop(d, end).Rejected?
  {
  }

  /** Once both timestamps are accepted, getResult panics exactly when the
      period is "" or "o". */
  lemma RunPanics(period: string, a: Instant, b: Instant)
    requires Valid(a) && Valid(b)
    ensures Loop(GetPeriod(a, period), b) == Panics <==> period == "" || period == "o"
  {
    PanicsExactly(a, period);
  }

  /** The loop of getResult from what getPeriod returned: nothing when the
      anchor is not before t2; otherwise it never ends when the period type
      matches no case of the switch or the step does not move forward; an
      hour step is multiplied into a Duration first. */
  function Loop(d: Derivation, end: Instant): (o: Outcome)
    requires d.Derived? ==> Valid(d.anchor)
    requires Valid(end)
    ensures o.Stamps? && d.Derived? && Before(d.anchor, end) ==>
      UnitOf(d.kind).Some? && 0 < d.step && o.stamps == FormatAll(Emitted(d.anchor, UnitOf(d.kind).value, d.step, end))
    ensures d.Derived? && !Before(d.anchor, end) ==> o == Stamps([])
  {
    match d
    case IndexOutOfRange => Panics
    case Derived(anchor, kind, step, _) =>
      if !Before(anchor, end) then Stamps([])
      else
        match UnitOf(kind)
        case None => Diverges
        case Some(u) =>
          if u == Hour && (step > MaxHourStep || step < -MaxHourStep) then DurationOverflow
          else if step <= 0 then Diverges
          else Stamps(FormatAll(Emitted(anchor, u, step, end)))
  }

  /** getResult, with the outcomes that never reach the end of the loop
      reported instead of run. */
  method GetResult(period: string, t1: string, t2: string) returns (o: Outcome)
    ensures o == Run(period, t1, t2)
  {
    var r1 := ParseTimestamp(t1);
    if r1.Err? {
      return Rejected(r1.error);
    }
    var r2 := ParseTimestamp(t2);
    if r2.Err? {
      return Rejected(r2.error);
    }
    var d := GetPeriod(r1.value, period);
    if d.IndexOutOfRange? {
      return Panics;
    }
    if !Before(d.anchor, r2.value) {
      return Stamps([]);
    }
    var unit := UnitOf(d.kind);
    if unit.None? {
      return Diverges;
    }
    if unit.value == Hour && (d.step > MaxHourStep || d.step < -MaxHourStep) {
      return DurationOverflow;
    }
    if d.step <= 0 {
      return Diverges;
    }
    var stamps := Generate(d.anchor, unit.value, d.step, r2.value);
    return Stamps(stamps);
  }

  // ---------------------------------------------------------------------
  // Properties of the outcome.

  /** The anchor keeps the year of t1 when the period names a unit, and is
      the zero time when it names none. */
  lemma AnchorYear(t1: Instant, per: string)
    requires Valid(t1) && GetPeriod(t1, per).Derived?
    ensures (exists u: Unit :: Names(per, u)) ==> GetPeriod(t1, per).anchor.year == t1.year
    ensures (forall u: Unit :: !Names(per, u)) ==> GetPeriod(t1, per).anchor == Zero
    ensures GetPeriod(t1, per).anchor.year == t1.year || GetPeriod(t1, per).anchor == Zero
  {
    UnrecognisedExactly(t1, per);
    if Names(per, Hour) {
      DerivesTruncation(t1, per, Hour);
    } else if Names(per, Day) {
      DerivesTruncation(t1, per, Day);
    } else if Names(per, Month) {
      DerivesTruncation(t1, per, Month);
    } else if Names(per, Year) {
      DerivesTruncation(t1, per, Year);
    }
  }

  /** The instants the loop produces all have four-digit years: they lie
      between an anchor in year 0 or later and t2. */
  lemma EmittedYears(anchor: Instant, u: Unit, step: int, end: Instant)
    requires Valid(anchor) && Valid(end) && step > 0 && 0 <= anchor.year && end.year <= 9999
    ensures forall i :: 0 <= i < |Emitted(anchor, u, step, end)| ==> 0 <= Emitted(anchor, u, step, end)[i].year <= 9999
  {
    var s := Emitted(anchor, u, step, end);
    EmittedBetween(anchor, u, step, end);
    forall i | 0 <= i < |s|
      ensures 0 <= s[i].year <= 9999
    {
      YearsOrdered(anchor, s[i]);
      YearsOrdered(s[i], end);
    }
  }

  /** Every timestamp getResult collects is accepted by handleTimeFormat,
      names an instant before t2, and the instants are strictly increasing. */
  lemma StampsParseBack(period: string, t1: string, t2: string)
    requires Run(period, t1, t2).Stamps?
    ensures ParseTimestamp(t1).Ok? && ParseTimestamp(t2).Ok?
    ensures var s := Run(period, t1, t2).stamps;
      forall i :: 0 <= i < |s| ==>
        ParseTimestamp(s[i]).Ok? && Before(ParseTimestamp(s[i]).value, ParseTimestamp(t2).value)
    ensures var s := Run(period, t1, t2).stamps;
      forall i, j :: 0 <= i < j < |s| ==>
        ParseTimestamp(s[i]).Ok? && ParseTimestamp(s[j]).Ok? && Before(ParseTimestamp(s[i]).value, ParseTimestamp(s[j]).value)
  {
    var a, b := ParseTimestamp(t1).value, ParseTimestamp(t2).value;
    var d := GetPeriod(a, period);
    var s := Run(period, t1, t2).stamps;
    if Before(d.anchor, b) {
      var u := UnitOf(d.kind).value;
      var e := Emitted(d.anchor, u, d.step, b);
      assert s == FormatAll(e);
      ParsedYearRange(t1);
      ParsedYearRange(t2);
      AnchorYear(a, period);
      EmittedYears(d.anchor, u, d.step, b);
      EmittedBetween(d.anchor, u, d.step, b);
      EmittedIncreasing(d.anchor, u, d.step, b);
      forall i | 0 <= i < |s|
        ensures ParseTimestamp(s[i]) == Ok(e[i])
      {
        FormatAllAt(e, i);
        FormatRoundTrip(e[i]);
      }
    }
  }

  /** When the loop never ends, tTimeTmp stays before t2 after any number
      of passes: either the period type matches no case of the switch and
      tTimeTmp never changes, or the step is not positive. */
  lemma LoopDiverges(d: Derivation, end: Instant, n: nat)
    requires Valid(end) && d.Derived? && Valid(d.anchor) && Loop(d, end) == Diverges
    ensures Before(d.anchor, end)
    ensures UnitOf(d.kind).Some? ==> d.step <= 0 && Before(Iterate(d.anchor, UnitOf(d.kind).value, d.step, n), end)
  {
    if UnitOf(d.kind).Some? {
      NoProgress(d.anchor, UnitOf(d.kind).value, d.step, end, n);
    }
  }

  /** From an aligned anchor and a positive step, the loop yields the
      timestamps of the anchor advanced by k * step units, for k = 1, 2, ...,
      as long as they are before end. */
  lemma LoopSteps(anchor: Instant, u: Unit, n: int, b: Instant)
    requires Valid(anchor) && Valid(b) && 0 < n && (u == Hour ==> n <= MaxHourStep) && Aligned(anchor, u)
    ensures var o := Loop(Derived(anchor, Code(u), n, NoError), b);
      && o.Stamps?
      && o.stamps == FormatAll(Emitted(anchor, u, n, b))
      && forall k :: 0 <= k < |o.stamps| ==> o.stamps[k] == Format(Advance(anchor, u, (k + 1) * n))
  {
    var e := Emitted(anchor, u, n, b);
    if !Before(anchor, b) {
      assert e == [];
    }
    EmittedClosedForm(anchor, u, n, b);
    forall k | 0 <= k < |e|
      ensures FormatAll(e)[k] == Format(Advance(anchor, u, (k + 1) * n))
    {
      FormatAllAt(e, k);
    }
  }

  /** A period written as a positive step and a unit suffix yields the
      timestamps of t1 truncated to the unit and advanced by k * step units,
      for k = 1, 2, ..., as long as they are before t2. */
  lemma StampsAreSteps(a: Instant, b: Instant, n: int, u: Unit)
    requires Valid(a) && Valid(b) && 0 < n <= MaxInt64 && (u == Hour ==> n <= MaxHourStep)
    ensures var o := Loop(GetPeriod(a, Itoa(n) + Suffix(u)), b);
      && o.Stamps?
      && o.stamps == FormatAll(Emitted(Truncate(a, u), u, n, b))
      && forall k :: 0 <= k < |o.stamps| ==> o.stamps[k] == Format(Advance(Truncate(a, u), u, (k + 1) * n))
  {
    DerivesWrittenStep(a, n, u);
    TruncateIsBoundary(a, u);
    LoopSteps(Truncate(a, u), u, n, b);
  }

  /** The first hours of 1 January 2024: the stamps toTimestamp writes for
      them, which handleTimeFormat reads back. */
  lemma ExampleTimes(h: int)
    requires 0 <= h <= 5
    ensures ParseTimestamp("20240101T0" + [DigitChar(h)] + "0000Z") == Ok(Instant(2024, 1, 1, h, 0, 0))
    ensures Format(Instant(2024, 1, 1, h, 0, 0)) == "20240101T0" + [DigitChar(h)] + "0000Z"
  {
    var v := Instant(2024, 1, 1, h, 0, 0);
    assert Itoa(2024) == "2024";
    assert Pad2(Itoa(h)) == "0" + [DigitChar(h)];
    assert Format(v) == "20240101T0" + [DigitChar(h)] + "0000Z";
    FormatRoundTrip(v);
  }

  /** On timestamps written by toTimestamp, getResult goes straight to
      getPeriod and the loop. */
  lemma RunOnFormatted(period: string, a: Instant, b: Instant)
    requires Valid(a) && Valid(b) && 0 <= a.year <= 9999 && 0 <= b.year <= 9999
    ensures Run(period, Format(a), Format(b)) == Loop(GetPeriod(a, period), b)
  {
    FormatRoundTrip(a);
    FormatRoundTrip(b);
  }

  /** Hourly steps from midnight up to 05:00 of the same day: the stamps
      of 01:00, 02:00, 03:00 and 04:00. */
  lemma HourlyLoop(v: Instant)
    requires Valid(v) && v.hour == 0 && v.minute == 0 && v.second == 0
    ensures var o := Loop(GetPeriod(v, "1h"), v.(hour := 5));
      o.Stamps? && |o.stamps| == 4 && forall i :: 0 <= i < 4 ==> o.stamps[i] == Format(v.(hour := i + 1))
  {
    var end := v.(hour := 5);
    assert Itoa(1) + Suffix(Hour) == "1h";
    assert Truncate(v, Hour) == v;
    StampsAreSteps(v, end, 1, Hour);
    var e := Emitted(v, Hour, 1, end);
    HourlyWithinDay(v, 5);
    forall i | 0 <= i < 4
      ensures FormatAll(e)[i] == Format(v.(hour := i + 1))
    {
      FormatAllAt(e, i);
    }
  }

  /** Hourly stamps between midnight and 05:00 of any day with a
      four-digit year: the four whole hours in between, neither end included. */
  lemma HourlyFromMidnight(v: Instant)
    requires Valid(v) && v.hour == 0 && v.minute == 0 && v.second == 0 && 0 <= v.year <= 9999
    ensures var o := Run("1h", Format(v), Format(v.(hour := 5)));
      o.Stamps? && |o.stamps| == 4 && forall i :: 0 <= i < 4 ==> o.stamps[i] == Format(v.(hour := i + 1))
  {
    RunOnFormatted("1h", v, v.(hour := 5));
    HourlyLoop(v);
  }
}
