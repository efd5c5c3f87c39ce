# timestampService in Dafny

timestampService is a small Go HTTP service. Given a period such as `3h`, `2d`, `1mo` or `1y` and two UTC timestamps `t1` and `t2` in the layout `YYYYMMDDThhmmssZ`, it builds the list of timestamps between them. The list starts from `t1` truncated to the period's unit and steps forward one period at a time. Both ends are excluded.

This project models the computational core of `main.go`:

- `handleTimeFormat`, the validating timestamp parser (module `Timestamp`).
- `toTimestamp`, the formatter. It is imperative: a padding loop, modelled as a method with a loop invariant (module `Timestamp`).
- `getPeriod`, which derives the anchor, the period type and the step from the period string (module `Period`).
- The generating loop of `getResult` and the short-circuit of its two parses (modules `Sequence` and `Service`). The loop is a method with invariants, proved against the specification function `Emitted`.

The modules it relies on model exactly the parts of the Go library the core calls:

- `Numbers` models `strconv.Atoi`, through ParseInt and ParseUint in base 10 on a 64-bit platform, with Go's error order and range clamping. It also models `strconv.Itoa`.
- `Calendar` models the part of `time` the core calls, in UTC only. That covers the proleptic Gregorian calendar, the normalising `time.Date`, `AddDate`, `Add` and `Before`.
  - A `time.Time` is represented by the civil fields it reports. `Valid` says those fields are in range.
  - Absolute day and second numbers give the arithmetic. `FromSeconds` is the unique valid instant at a second number; `OneInstantAt` proves it is unique.

What the properties say:

- **Parsing.** The parser's five error cases come in the source's order, and each holds exactly when its condition does. The parser accepts exactly the texts whose six number fields form a real date and time, and it returns those fields.
- **Formatting.** `toTimestamp` writes a 16-byte text in the parser's layout, and the parser reads it back unchanged for four-digit years.
- **Anchors.** `getPeriod` panics exactly on `""` and `"o"`. For a recognised unit, its anchor equals `t1` truncated to that unit, and that truncation is the unit boundary at or before `t1`. An unrecognised period gives the zero time, step 0 and an error.
- **The loop.** It emits strictly increasing instants strictly between the anchor and `t2`, in closed form anchor + k·step. Each emitted stamp parses back.
- **How `getResult` ends.** It ends in one of these ways:
  - a rejection, exactly when one of the parses fails;
  - a panic;
  - a loop that never ends;
  - an overflowing hour duration;
  - the stamps.

The endpoint's intended behaviour, as its design describes it, differs from the code in three places. This model always follows the code:

- **Non-positive steps.** The intended behaviour rejects a step that is zero or below. The code parses the step with signed `Atoi`, so `0h` or `-1d` is accepted, and tTimeTmp then never moves forward. When the anchor is before `t2`, the model reports this as the `Diverges` outcome, and `LoopDiverges` and `NoProgress` prove the loop makes no progress. That holds for step 0 and for negative steps down to -2562047 hours or to the day, month and year limits under "## Left out". A more negative hour step such as `-3000000h` instead wraps Go's duration to a positive one; the model reports that as `DurationOverflow`.
- **Period errors.** The intended behaviour short-circuits the request on a period error. `getPeriod`'s error is only printed, and the loop runs with whatever was returned. An unrecognised period therefore yields the zero time with step 0.
- **Failure responses.** The intended behaviour answers a failure with a 400 JSON error body. The code returns nothing from `getResult`: on a parse error it returns early.

## Model

| member | source | states |
|---|---|---|
| Numbers.Atoi | main.go:127-132 | strconv.Atoi: a value is returned only when it lies in the int64 range |
| Numbers.AtoiInt | main.go:163 | the int Atoi hands back beside its error always lies in the int64 range, and equals the parsed value when there is no error |
| Numbers.AtoiItoa | main.go:185 | Atoi reads back every int64 that Itoa writes |
| Numbers.AtoiShortUnsigned | main.go:127-132 | on a field of at most 18 bytes with no '-', Atoi succeeds exactly on an optional '+' followed by digits, with the digits' value |
| Timestamp.ParseTimestamp | main.go:111-151 | handleTimeFormat: an accepted timestamp is a valid civil instant |
| Timestamp.ParseChecksInOrder | main.go:115-137 | each of the length, T/Z position, '-' and conversion errors is returned exactly when its own check fails after every earlier one passed |
| Timestamp.ParseAcceptsExactlyValid | main.go:139-150 | once all six fields are numbers, the result is exactly those fields when they name a real date and time (the AddDate/Add normalisation changes none), and the date error otherwise |
| Timestamp.CheckDateAcceptsExactlyValid | main.go:139-148 | building the instant by AddDate and Add from the zero time and comparing fields accepts exactly the valid field combinations |
| Timestamp.ConvertFields | main.go:127-148 | the conversion step fails only with the conversion or the date error, and succeeds only with a valid instant |
| Timestamp.ParsedYearRange | main.go:127 | an accepted timestamp's year is between 0 and 9999 |
| Timestamp.ToTimestamp | main.go:184-211 | toTimestamp, with its year-padding loop, writes exactly Format(t) |
| Timestamp.PaddedYear | main.go:185-188 | for a year from 0 to 9999 the padded year text has exactly four digits and reads back as that year |
| Timestamp.Padded2 | main.go:189-208 | for a field from 0 to 99 the padded text has exactly two digits and reads back as that field |
| Timestamp.FormatLayout | main.go:184-211 | for a four-digit year the text has 16 bytes, 'T' at 8, 'Z' at 15 and digits elsewhere, and its fields read back as t |
| Timestamp.FormatRoundTrip | main.go:111-151 | handleTimeFormat accepts what toTimestamp writes for a valid four-digit-year instant and returns that instant |
| Period.GetPeriod | main.go:153-182 | getPeriod: a returned anchor is a valid instant |
| Period.PanicsExactly | main.go:155-168 | getPeriod indexes outside the period exactly when it is "" or "o" |
| Period.NamesByLast | main.go:159-176 | a period names hour, day or year exactly by its last byte, and month exactly by the suffix "mo" |
| Period.UnrecognisedExactly | main.go:155-179 | the period type is the last byte; the result is the not-valid error exactly when the period names no unit, and then the anchor is the zero time and the step 0 |
| Period.DerivesTruncation | main.go:159-176 | for a period naming a unit, the anchor is t1 truncated to that unit, the period type is the unit's byte and the step is the conversion of the text before the suffix |
| Period.HourAnchor | main.go:161-162 | the 'h' anchor, built from the zero time by AddDate and Add, is t1 truncated to the hour |
| Period.DayAnchor | main.go:165 | the 'd' anchor, built from the zero time by AddDate, is t1 truncated to the day |
| Period.MonthAnchor | main.go:169 | the "mo" anchor, built from the zero time by AddDate, is t1 truncated to the month |
| Period.YearAnchor | main.go:175 | the 'y' anchor, built from the zero time by AddDate, is t1 truncated to the year |
| Period.DerivesWrittenStep | main.go:159-176 | a period written as an int64 and a unit suffix yields exactly the truncated anchor, the unit's byte, that number and no error |
| Period.TruncateIsBoundary | main.go:161-175 | the anchor is not after t1, one unit past it is after t1, and the anchor is aligned and fixed by truncation again |
| Period.AdvanceMoves | main.go:90-99 | one pass through the switch moves forward exactly when the step is positive, and backward when it is negative |
| Period.AdvanceZero | main.go:90-99 | a zero step leaves tTimeTmp unchanged |
| Period.MonthsMove | main.go:96-98 | AddDate by years and months moves forward exactly when 12·years + months is positive |
| Sequence.Generate | main.go:87-104 | the loop collects exactly the formatted Emitted instants from the anchor up to t2 |
| Sequence.EmittedStep | main.go:89-103 | from an instant before t2, the emitted list is the next instant followed by what it emits, when that instant is still before t2, and empty otherwise |
| Sequence.EmittedEmpty | main.go:89-103 | nothing is emitted exactly when the first step already reaches t2 |
| Sequence.EmittedBetween | main.go:89-103 | every emitted instant is strictly after the start and strictly before t2 |
| Sequence.EmittedIncreasing | main.go:89-103 | the emitted instants are strictly increasing |
| Sequence.EmittedAreIterates | main.go:89-103 | the k-th emitted instant is the start after k + 1 passes, and the pass after the last emitted one is not before t2 |
| Sequence.IterateClosedForm | main.go:90-99 | from an aligned instant, n passes equal one advance by n·step units |
| Sequence.IterateHours | main.go:92 | n hour passes add 3600·n·step seconds |
| Sequence.IterateDays | main.go:94 | n day passes add n·step·86400 seconds |
| Sequence.IterateMonths | main.go:96 | n month passes from the first of a month land on the first of the month n·step later |
| Sequence.IterateYears | main.go:98 | n year passes from the first of a month land on the first of the month 12·n·step later |
| Sequence.EmittedClosedForm | main.go:87-104 | from an aligned anchor the k-th stamp is the anchor advanced by (k + 1)·step units |
| Sequence.NoProgress | main.go:89-103 | with a step that is zero or negative, tTimeTmp stays before t2 after any number of passes |
| Sequence.HourlyWithinDay | main.go:89-103 | hourly steps from a whole hour to a later hour h of the same day emit exactly the hours in between |
| Service.Loop | main.go:87-104 | a Stamps outcome from an anchor before t2 means a known unit, a positive step and exactly the formatted Emitted instants; an anchor not before t2 gives the empty array |
| Service.GetResult | main.go:64-104 | getResult ends exactly with the Outcome Run describes for the three strings |
| Service.RunRejects | main.go:65-72 | getResult stops exactly when t1 or t2 is rejected, with t1's error first, then t2's |
| Service.LoopNeverRejects | main.go:77-104 | past the two parses, nothing is rejected |
| Service.RunPanics | main.go:155-168 | with both timestamps accepted, getResult panics exactly when the period is "" or "o" |
| Service.AnchorYear | main.go:161-178 | when the period names a unit the anchor has t1's year; when it names none the anchor is the zero time |
| Service.EmittedYears | main.go:89-103 | from an anchor with a year of at least 0, up to a t2 of year at most 9999, every emitted instant has a four-digit year |
| Service.StampsParseBack | main.go:65-104 | when stamps come out, both inputs were accepted; every stamp parses back to an instant before t2, and the stamps are strictly increasing in time |
| Service.LoopDiverges | main.go:89-104 | a loop that never ends starts from an anchor before t2; with a known unit the step is zero or negative, and tTimeTmp stays before t2 forever |
| Service.LoopSteps | main.go:87-104 | from an aligned anchor and a positive step, the k-th stamp is the anchor advanced by (k + 1)·step units |
| Service.StampsAreSteps | main.go:77-104 | a period written as a positive step and a suffix yields the stamps of t1 truncated to the unit and advanced by (k + 1)·step units |
| Service.ExampleTimes | main.go:111-151 | the stamps of hours 0 to 5 of 1 January 2024 are accepted as those instants, and they are what toTimestamp writes for them |
| Service.RunOnFormatted | main.go:64-77 | on timestamps written by toTimestamp, getResult goes straight to getPeriod and the loop |
| Service.HourlyLoop | main.go:87-104 | "1h" from midnight up to 05:00 yields exactly the stamps of 01:00 to 04:00 |
| Service.HourlyFromMidnight | main.go:64-104 | getResult with "1h" from a formatted midnight to 05:00 of that day yields exactly the four stamps of 01:00 to 04:00 |

## Left out

- The HTTP server, the route, `getPtList` and `os.Args` handling in `main` (main.go:19-62) are I/O. They are not modelled, and neither is the client in `test.go`.
- Service.GetResult: the `tz` parameter is dropped, because `getResult` never reads it.
- Service.GetResult: the `fmt.Printf` logging and the final `json.Marshal`/`Println` (main.go:74-85, 106-107) are output only. The result is returned as the `Stamps` outcome instead of being printed.
- Service.GetResult: ends that never reach the JSON output are reported as Outcome values (`Rejected`, `Panics`, `Diverges`, `DurationOverflow`), not run. This covers the early returns, the index panic in `getPeriod` and a loop that never terminates.
- Service.GetResult: for an hour step outside ±2562047, `time.Hour * time.Duration(step)` wraps in int64 nanoseconds. That case is reported as `DurationOverflow` and the wrapped duration is not computed.
- Service.GetResult: the error `getPeriod` returns (the `err`, including the empty error of an unrecognised period, and a step conversion error) is only printed by the source. The model carries it in the derivation and ignores it in `Loop`, as the source does.
- Sequence.Generate: day, month and year steps are added with unbounded integers. Go keeps a `time.Time` as a 64-bit count of seconds, about ±2.9·10^11 years around year 1, and `time.Date`, which `AddDate` calls, computes it in wrapping uint64 and int64 arithmetic. From an anchor in years 0 to 9999, one pass leaves that range for a day step beyond about 1.07·10^14 in magnitude (for example `200000000000000d`), a month step beyond about 3.5·10^12, or a year step beyond about 2.9·10^11. Go's wrapped result may then fall before `t2`, while the model lands far in the future and emits nothing. This wrap-around is not modelled.
- Period.Advance: the same unbounded arithmetic applies to the day, month and year cases of one pass through the switch, so its contracts (AdvanceMoves, IterateClosedForm) hold for the model's arithmetic, not for Go's beyond those limits.
- Service.Loop: this is where the loop's outcome is decided, and it carries both arithmetic gaps. An hour step outside ±2562047 is reported as `DurationOverflow` and the wrapped `time.Hour * time.Duration(step)` is not computed. Day, month and year steps beyond the limits above are advanced without Go's wrap-around. `Diverges` for a negative day, month or year step assumes time without bounds: in Go, after passes totalling about 2.9·10^11 years backwards, the wrapped date can land after `t2` and end the loop. Negative hour steps agree with the model, because Go's `Add` stops at the ends of its range and tTimeTmp stays before `t2`.
- Service.GetResult: it inherits Loop's gaps for those periods. A huge step such as `200000000000000d` gives `Stamps([])`, where Go's wrapped `AddDate` may produce other stamps.
- Calendar: `time.Time` is modelled at second precision and in UTC only, without monotonic clock readings or locations. The model's years are unbounded; Go's range of about ±2.9·10^11 years is not modelled. A single pass leaves it only for a step beyond the limits above, since the parser yields years 0 to 9999 and one hour step within ±2562047 moves less than 300 years. Repeated negative steps can leave it after enough passes; Service.Loop says what the model then assumes.
- Strings are sequences of `char`, each standing for one byte of the Go string. The core only compares bytes with ASCII characters, and `len` counts bytes.
- The converse of AtoiItoa, `Itoa(Atoi(s)) == s`, does not hold and is not claimed: Atoi also accepts a leading '+' and leading zeros, which Itoa never writes.
- Timestamp.FormatRoundTrip: the round trip is stated for years 0 to 9999 only. Outside them `toTimestamp` writes more than four digits or a '-', and `handleTimeFormat` rejects those texts. The parser yields only years 0 to 9999 (ParsedYearRange), so every instance that arises within the service is covered.
