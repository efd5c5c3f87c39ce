/** The generating loop of getResult (main.go): step tTimeTmp from the
    anchor by the period and collect, formatted by toTimestamp, every value
    that is still before t2. */
module Sequence {
  import opened Calendar
  import opened Timestamp
  import opened Period

  /** tTimeTmp after n passes through the switch of the loop, starting from t. */
  function Iterate(t: Instant, u: Unit, step: int, n: nat): (r: Instant)
    requires Valid(t)
    ensures Valid(r)
  {
    if n == 0 then t else Advance(Iterate(t, u, step, n - 1), u, step)
  }

  /** The instants the loop appends when tTimeTmp starts at t: while t is
      before end, advance it and append it if it is still before end. */
  function Emitted(t: Instant, u: Unit, step: int, end: Instant): (s: seq<Instant>)
    requires Valid(t) && Valid(end) && step > 0
    ensures forall i :: 0 <= i < |s| ==> Valid(s[i])
    decreases Seconds(end) - Seconds(t)
  {
    if !Before(t, end) then []
    else
      var next := Advance(t, u, step);
      AdvanceMoves(t, u, step);
      if Before(next, end) then [next] + Emitted(next, u, step, end) else []
  }

  /** toTimestamp applied to each instant, in order. */
  function FormatAll(s: seq<Instant>): (r: seq<string>)
    ensures |r| == |s|
  {
    if s == [] then [] else FormatAll(s[..|s| - 1]) + [Format(s[|s| - 1])]
  }

  /** The i-th stamp is the i-th instant, formatted. */
  lemma {:induction false} FormatAllAt(s: seq<Instant>, i: int)
    requires 0 <= i < |s|
    ensures FormatAll(s)[i] == Format(s[i])
  {
    if i < |s| - 1 {
      FormatAllAt(s[..|s| - 1], i);
    }
  }

  lemma FormatAllSnoc(s: seq<Instant>, x: Instant)
    ensures FormatAll(s + [x]) == FormatAll(s) + [Format(x)]
  {
    assert (s + [x])[..|s|] == s;
  }

  /** One pass of the loop of getResult from t, when t is before end: the
      next value of tTimeTmp is later, and it is appended exactly when it is
      still before end. */
  lemma EmittedStep(t: Instant, u: Unit, step: int, end: Instant)
    requires Valid(t) && Valid(end) && step > 0 && Before(t, end)
    ensures Seconds(t) < Seconds(Advance(t, u, step))
    ensures Emitted(t, u, step, end) ==
      if Before(Advance(t, u, step), end) then [Advance(t, u, step)] + Emitted(Advance(t, u, step), u, step, end) else []
  {
    AdvanceMoves(t, u, step);
  }

  /** One pass keeps the instants appended so far followed by those still
      to come equal to the whole sequence. */
  lemma PassPreserves(whole: seq<Instant>, u: Unit, step: int, end: Instant, done: seq<Instant>, t: Instant, next: Instant)
    requires Valid(end) && step > 0 && Valid(t) && Before(t, end)
    requires done + Emitted(t, u, step, end) == whole
    requires next == Advance(t, u, step)
    ensures Seconds(t) < Seconds(next)
    ensures Before(next, end) ==> (done + [next]) + Emitted(next, u, step, end) == whole
    ensures !Before(next, end) ==> done + Emitted(next, u, step, end) == whole
  {
    EmittedStep(t, u, step, end);
    if Before(next, end) {
      assert (done + [next]) + Emitted(next, u, step, end) == done + ([next] + Emitted(next, u, step, end));
    } else {
      NothingAfterEnd(next, u, step, end);
    }
  }

  /** Once tTimeTmp is no longer before t2 nothing more is appended. */
  lemma NothingAfterEnd(t: Instant, u: Unit, step: int, end: Instant)
    requires Valid(t) && Valid(end) && step > 0 && !Before(t, end)
    ensures Emitted(t, u, step, end) == []
  {
  }

  /** The loop of getResult, for a step that makes progress: the switch
      (Advance) moves tTimeTmp, and toTimestamp renders every value still before t2. */
  method Generate(anchor: Instant, u: Unit, step: int, end: Instant) returns (stamps: seq<string>)
    requires Valid(anchor) && Valid(end) && step > 0
    ensures stamps == FormatAll(Emitted(anchor, u, step, end))
  {
    var t := anchor;
    stamps := [];
    ghost var done: seq<Instant> := [];
    while Before(t, end)
      invariant Valid(t)
      invariant done + Emitted(t, u, step, end) == Emitted(anchor, u, step, end)
      invariant stamps == FormatAll(done)
      decreases Seconds(end) - Seconds(t)
    {
      var next := Advance(t, u, step);
      PassPreserves(Emitted(anchor, u, step, end), u, step, end, done, t, next);
      t := next;
      if Before(t, end) {
        var s := ToTimestamp(t);
        FormatAllSnoc(done, t);
        done := done + [t];
        stamps := stamps + [s];
      }
    }
    NothingAfterEnd(t, u, step, end);
    assert done + [] == done;
  }

  // ---------------------------------------------------------------------
  // What the loop appends.

  /** Every appended instant lies strictly between the anchor and end. */
  lemma {:induction false} EmittedBetween(t: Instant, u: Unit, step: int, end: Instant)
    requires Valid(t) && Valid(end) && step > 0
    ensures forall i :: 0 <= i < |Emitted(t, u, step, end)| ==>
      Before(t, Emitted(t, u, step, end)[i]) && Before(Emitted(t, u, step, end)[i], end)
    decreases Seconds(end) - Seconds(t)
  {
    if Before(t, end) {
      EmittedStep(t, u, step, end);
      var next := Advance(t, u, step);
      if Before(next, end) {
        var rest := Emitted(next, u, step, end);
        EmittedBetween(next, u, step, end);
        var s := Emitted(t, u, step, end);
        assert s == [next] + rest;
        forall i | 0 <= i < |s|
          ensures Before(t, s[i]) && Before(s[i], end)
        {
          if i > 0 {
            assert s[i] == rest[i - 1];
          }
        }
      }
    }
  }

  /** The appended instants are strictly increasing. */
  lemma {:induction false} EmittedIncreasing(t: Instant, u: Unit, step: int, end: Instant)
    requires Valid(t) && Valid(end) && step > 0
    ensures forall i, j :: 0 <= i < j < |Emitted(t, u, step, end)| ==>
      Before(Emitted(t, u, step, end)[i], Emitted(t, u, step, end)[j])
    decreases Seconds(end) - Seconds(t)
  {
    if Before(t, end) {
      EmittedStep(t, u, step, end);
      var next := Advance(t, u, step);
      if Before(next, end) {
        var rest := Emitted(next, u, step, end);
        EmittedIncreasing(next, u, step, end);
        EmittedBetween(next, u, step, end);
        var s := Emitted(t, u, step, end);
        assert s == [next] + rest;
        forall i, j | 0 <= i < j < |s|
          ensures Before(s[i], s[j])
        {
          assert s[j] == rest[j - 1];
          if i > 0 {
            assert s[i] == rest[i - 1];
          }
        }
      }
    }
  }

  /** Nothing is appended exactly when the first step already reaches end. */
  lemma EmittedEmpty(t: Instant, u: Unit, step: int, end: Instant)
    requires Valid(t) && Valid(end) && step > 0
    ensures Emitted(t, u, step, end) == [] <==> !Before(Advance(t, u, step), end)
  {
    AdvanceMoves(t, u, step);
    if Before(t, end) {
      EmittedStep(t, u, step, end);
    }
  }

  /** Stepping the advanced instant n times is stepping the original n + 1 times. */
  lemma {:induction false} IterateShift(t: Instant, u: Unit, step: int, n: nat)
    requires Valid(t)
    ensures Iterate(Advance(t, u, step), u, step, n) == Iterate(t, u, step, n + 1)
  {
    if n > 0 {
      IterateShift(t, u, step, n - 1);
    }
  }

  /** The k-th appended instant is the anchor stepped k + 1 times, and the
      loop stops at the first step that is not before end. */
  lemma {:induction false} EmittedAreIterates(t: Instant, u: Unit, step: int, end: Instant)
    requires Valid(t) && Valid(end) && step > 0
    ensures forall k :: 0 <= k < |Emitted(t, u, step, end)| ==> Emitted(t, u, step, end)[k] == Iterate(t, u, step, k + 1)
    ensures !Before(Iterate(t, u, step, |Emitted(t, u, step, end)| + 1), end)
    decreases Seconds(end) - Seconds(t)
  {
    FirstIterate(t, u, step);
    if Before(t, end) {
      EmittedStep(t, u, step, end);
      var next := Advance(t, u, step);
      if Before(next, end) {
        var rest := Emitted(next, u, step, end);
        EmittedAreIterates(next, u, step, end);
        ConsIterates(t, u, step, rest);
      }
    } else {
      AdvanceMoves(t, u, step);
    }
  }

  lemma FirstIterate(t: Instant, u: Unit, step: int)
    requires Valid(t)
    ensures Iterate(t, u, step, 1) == Advance(t, u, step)
  {
    assert Iterate(t, u, step, 1) == Advance(Iterate(t, u, step, 0), u, step);
  }

  /** Putting the first step in front of the steps from it gives the steps
      from the start. */
  lemma ConsIterates(t: Instant, u: Unit, step: int, rest: seq<Instant>)
    requires Valid(t)
    requires forall k :: 0 <= k < |rest| ==> rest[k] == Iterate(Advance(t, u, step), u, step, k + 1)
    ensures forall k :: 0 <= k < |rest| + 1 ==> ([Advance(t, u, step)] + rest)[k] == Iterate(t, u, step, k + 1)
    ensures Iterate(Advance(t, u, step), u, step, |rest| + 1) == Iterate(t, u, step, |rest| + 2)
  {
    forall k | 0 <= k < |rest| + 1
      ensures ([Advance(t, u, step)] + rest)[k] == Iterate(t, u, step, k + 1)
    {
      ConsIterateAt(t, u, step, rest, k);
    }
    IterateShift(t, u, step, |rest| + 1);
  }

  lemma ConsIterateAt(t: Instant, u: Unit, step: int, rest: seq<Instant>, k: int)
    requires Valid(t) && 0 <= k <= |rest|
    requires k > 0 ==> rest[k - 1] == Iterate(Advance(t, u, step), u, step, k)
    ensures ([Advance(t, u, step)] + rest)[k] == Iterate(t, u, step, k + 1)
  {
    if k == 0 {
      FirstIterate(t, u, step);
    } else {
      assert ([Advance(t, u, step)] + rest)[k] == rest[k - 1];
      IterateShift(t, u, step, k);
    }
  }

  // ---------------------------------------------------------------------
  // The n-th value of tTimeTmp in closed form.

  /** From an aligned anchor, stepping n times by step units is one step of
      n * step units. */
  lemma IterateClosedForm(t: Instant, u: Unit, step: int, n: nat)
    requires Valid(t) && Aligned(t, u)
    ensures Iterate(t, u, step, n) == Advance(t, u, n * step)
  {
    match u
    case Hour =>
      IterateHours(t, step, n);
      SecondsInjective(Iterate(t, u, step, n), Advance(t, u, n * step));
    case Day =>
      IterateDays(t, step, n);
      AddDaysSeconds(t, n * step);
      SecondsInjective(Iterate(t, u, step, n), Advance(t, u, n * step));
    case Month =>
      var k := MonthIndex(t);
      IterateMonths(t, step, n, k);
      AddMonthsFromFirst(t, 0, n * step, k + n * step);
    case Year =>
      var k := MonthIndex(t);
      IterateYears(t, step, n, k);
      AddMonthsFromFirst(t, n * step, 0, k + 12 * (n * step));
  }

  lemma {:induction false} IterateHours(t: Instant, step: int, n: nat)
    requires Valid(t)
    ensures Seconds(Iterate(t, Hour, step, n)) == Seconds(t) + 3600 * (n * step)
  {
    if n > 0 {
      IterateHours(t, step, n - 1);
      assert (n - 1) * step + step == n * step;
    }
  }

  lemma {:induction false} IterateDays(t: Instant, step: int, n: nat)
    requires Valid(t)
    ensures Seconds(Iterate(t, Day, step, n)) == Seconds(t) + (n * step) * 86400
  {
    if n > 0 {
      var previous := Iterate(t, Day, step, n - 1);
      IterateDays(t, step, n - 1);
      AddDaysSeconds(previous, step);
      assert (n - 1) * step + step == n * step;
    }
  }

  /** The first of a month stays the first of a month with the same clock. */
  lemma FirstOfItself(t: Instant, k: int)
    requires Valid(t) && t.day == 1 && k == MonthIndex(t)
    ensures FirstOf(k, t) == t
  {
    DivMod12(k, t.year, t.month - 1);
  }

  lemma {:induction false} IterateMonths(t: Instant, step: int, n: nat, k: int)
    requires Valid(t) && t.day == 1 && k == MonthIndex(t)
    ensures Iterate(t, Month, step, n) == FirstOf(k + n * step, t)
  {
    if n == 0 {
      FirstOfItself(t, k);
    } else {
      var i := k + (n - 1) * step;
      var previous := Iterate(t, Month, step, n - 1);
      IterateMonths(t, step, n - 1, k);
      assert previous == FirstOf(i, t);
      assert Iterate(t, Month, step, n) == AddDate(previous, 0, step, 0);
      assert i + step == k + n * step;
      FirstOfAdd(i, t, 0, step, k + n * step);
    }
  }

  lemma {:induction false} IterateYears(t: Instant, step: int, n: nat, k: int)
    requires Valid(t) && t.day == 1 && k == MonthIndex(t)
    ensures Iterate(t, Year, step, n) == FirstOf(k + 12 * (n * step), t)
  {
    if n == 0 {
      FirstOfItself(t, k);
    } else {
      var i := k + 12 * ((n - 1) * step);
      var previous := Iterate(t, Year, step, n - 1);
      IterateYears(t, step, n - 1, k);
      assert previous == FirstOf(i, t);
      assert Iterate(t, Year, step, n) == AddDate(previous, step, 0, 0);
      assert i + 12 * step == k + 12 * (n * step);
      FirstOfAdd(i, t, step, 0, k + 12 * (n * step));
    }
  }

  /** The k-th appended instant is the anchor advanced by (k + 1) * step units. */
  lemma EmittedClosedForm(t: Instant, u: Unit, step: int, end: Instant)
    requires Valid(t) && Valid(end) && step > 0 && Aligned(t, u)
    ensures forall k :: 0 <= k < |Emitted(t, u, step, end)| ==> Emitted(t, u, step, end)[k] == Advance(t, u, (k + 1) * step)
  {
    var e := Emitted(t, u, step, end);
    EmittedAreIterates(t, u, step, end);
    forall k | 0 <= k < |e|
      ensures e[k] == Advance(t, u, (k + 1) * step)
    {
      assert e[k] == Iterate(t, u, step, k + 1);
      IterateClosedForm(t, u, step, k + 1);
    }
  }

  // ---------------------------------------------------------------------
  // Steps that make no progress.

  /** With a step that is not positive, tTimeTmp never leaves the time
      before end once it starts there, so the loop of getResult never ends. */
  lemma {:induction false} NoProgress(t: Instant, u: Unit, step: int, end: Instant, n: nat)
    requires Valid(t) && Valid(end) && step <= 0 && Before(t, end)
    ensures Before(Iterate(t, u, step, n), end)
  {
    if n > 0 {
      NoProgress(t, u, step, end, n - 1);
      AdvanceMoves(Iterate(t, u, step, n - 1), u, step);
    }
  }

  // ---------------------------------------------------------------------
  // Hourly steps within one day.

  /** n hours after a whole hour of the same day is that day at hour + n. */
  lemma LaterHour(v: Instant, n: int)
    requires Valid(v) && v.minute == 0 && v.second == 0 && 0 <= v.hour + n <= 23
    ensures Add(v, 3600 * n) == v.(hour := v.hour + n)
  {
    SecondsInjective(Add(v, 3600 * n), v.(hour := v.hour + n));
  }

  /** Stepping by one hour from a whole hour to a later hour h of the same
      day yields exactly the whole hours strictly in between. */
  lemma HourlyWithinDay(v: Instant, h: int)
    requires Valid(v) && v.minute == 0 && v.second == 0 && v.hour < h <= 23
    ensures |Emitted(v, Hour, 1, v.(hour := h))| == h - v.hour - 1
    ensures forall i :: 0 <= i < h - v.hour - 1 ==> Emitted(v, Hour, 1, v.(hour := h))[i] == v.(hour := v.hour + i + 1)
  {
    var end := v.(hour := h);
    var e := Emitted(v, Hour, 1, end);
    assert Seconds(end) == Seconds(v) + 3600 * (h - v.hour);
    EmittedAreIterates(v, Hour, 1, end);
    EmittedBetween(v, Hour, 1, end);
    IterateHours(v, 1, |e| + 1);
    assert !Before(Iterate(v, Hour, 1, |e| + 1), end);
    assert |e| + 1 >= h - v.hour;
    if |e| > 0 {
      var k := |e| - 1;
      assert e[k] == Iterate(v, Hour, 1, k + 1);
      assert Before(e[k], end);
      IterateHours(v, 1, k + 1);
      assert k + 1 < h - v.hour;
    }
    forall i | 0 <= i < |e|
      ensures e[i] == v.(hour := v.hour + i + 1)
    {
      IterateClosedForm(v, Hour, 1, i + 1);
      LaterHour(v, i + 1);
    }
  }
}
