/** The fixed timestamp layout YYYYMMDDThhmmssZ: the validating parser
    handleTimeFormat and the formatter toTimestamp (main.go). */
module Timestamp {
  import opened Wrappers
  import opened Numbers
  import opened Calendar

  /** The five errors handleTimeFormat returns, in the order it checks for them. */
  datatype ParseError =
    | WrongLength       // "Timestamp size must be 16"
    | MisplacedMarker   // "T or Z is in wrong position"
    | ContainsMinus     // "Timestamp can't contain '-'"
    | ConversionError   // "Conversion error"
    | IncorrectDate     // "Date or time is incorrect"

  /** The six numeric fields of a 16-byte timestamp: year, month, day, hour, minute, second. */
  function Fields(t: string): (f: seq<string>)
    requires |t| == 16
    ensures |f| == 6
  {
    [t[..4], t[4..6], t[6..8], t[9..11], t[11..13], t[13..15]]
  }

  /** handleTimeFormat: check the layout, convert the fields, build the instant
      from the zero time with normalising arithmetic, and reject it unless
      every field comes back unchanged. */
  function ParseTimestamp(t: string): (r: Result<Instant, ParseError>)
    ensures r.Ok? ==> Valid(r.value)
  {
    if |t| != 16 then Err(WrongLength)
    else if t[8] != 'T' || t[15] != 'Z' then Err(MisplacedMarker)
    else if '-' in t then Err(ContainsMinus)
    else ConvertFields(Fields(t))
  }

  /** The six strconv.Atoi conversions and the check that follows them. */
  function ConvertFields(f: seq<string>): (r: Result<Instant, ParseError>)
    requires |f| == 6
    ensures r.Ok? ==> Valid(r.value)
    ensures r.Err? ==> r.error == ConversionError || r.error == IncorrectDate
  {
    var year, month, day := Atoi(f[0]), Atoi(f[1]), Atoi(f[2]);
    var hour, min, sec := Atoi(f[3]), Atoi(f[4]), Atoi(f[5]);
    if year.Err? || month.Err? || day.Err? || hour.Err? || min.Err? || sec.Err? then
      Err(ConversionError)
    else
      CheckDate(year.value, month.value, day.value, hour.value, min.value, sec.value)
  }

  /** The instant handleTimeFormat builds: the zero time advanced by AddDate
      with the date fields, then by Add with the clock fields as a duration. */
  function BuildInstant(year: int, month: int, day: int, hour: int, min: int, sec: int): (r: Instant)
    ensures Valid(r)
  {
    Add(AddDate(Zero, year - 1, month - 1, day - 1), hour * 3600 + min * 60 + sec)
  }

  /** Accept the built instant only if all six fields come back as given. */
  function CheckDate(year: int, month: int, day: int, hour: int, min: int, sec: int): (r: Result<Instant, ParseError>)
    ensures r.Ok? ==> Valid(r.value)
    ensures r.Err? ==> r.error == IncorrectDate
  {
    var res := BuildInstant(year, month, day, hour, min, sec);
    if res.year != year || res.month != month || res.day != day
       || res.hour != hour || res.minute != min || res.second != sec
    then Err(IncorrectDate)
    else Ok(res)
  }

  /** The date check accepts exactly the fields of a real date and time
      (month 1..12, day within the month of that year, hour < 24, minute < 60,
      second < 60) and returns them unchanged; anything that normalisation
      would carry, such as 31 February or hour 24, is an IncorrectDate. */
  lemma CheckDateAcceptsExactlyValid(year: int, month: int, day: int, hour: int, min: int, sec: int)
    ensures CheckDate(year, month, day, hour, min, sec) ==
      var v := Instant(year, month, day, hour, min, sec);
      if Valid(v) then Ok(v) else Err(IncorrectDate)
  {
    var v := Instant(year, month, day, hour, min, sec);
    if Valid(v) {
      BuildOfValid(v);
    }
  }

  /** On the fields of a valid instant, handleTimeFormat's construction gives that instant back. */
  lemma BuildOfValid(v: Instant)
    requires Valid(v)
    ensures BuildInstant(v.year, v.month, v.day, v.hour, v.minute, v.second) == v
  {
    ZeroAddDate(v);
    MidnightPlusClock(v);
  }

  /** Every field is decimal text Atoi accepts: digits, optionally after one '+'. */
  predicate FieldsAreNumbers(t: string)
    requires |t| == 16
  {
    var f := Fields(t);
    IsUnsignedText(f[0]) && IsUnsignedText(f[1]) && IsUnsignedText(f[2])
    && IsUnsignedText(f[3]) && IsUnsignedText(f[4]) && IsUnsignedText(f[5])
  }

  /** The six numbers written in the fields, as an instant (not necessarily valid). */
  function FieldValues(t: string): Instant
    requires |t| == 16 && FieldsAreNumbers(t)
  {
    var f := Fields(t);
    Instant(UnsignedValue(f[0]), UnsignedValue(f[1]), UnsignedValue(f[2]),
            UnsignedValue(f[3]), UnsignedValue(f[4]), UnsignedValue(f[5]))
  }

  function UnsignedValue(s: string): nat
    requires IsUnsignedText(s)
  {
    assert AllDigits(UnsignedDigits(s));
    Value(UnsignedDigits(s))
  }

  lemma FieldHasNoMinus(t: string, i: int)
    requires |t| == 16 && '-' !in t && 0 <= i < 6
    ensures forall j :: 0 <= j < |Fields(t)[i]| ==> Fields(t)[i][j] != '-'
  {
    var f := Fields(t)[i];
    forall j | 0 <= j < |f|
      ensures f[j] != '-'
    {
      var k := if i == 0 then j else if i == 1 then 4 + j else if i == 2 then 6 + j
               else if i == 3 then 9 + j else if i == 4 then 11 + j else 13 + j;
      assert f[j] == t[k];
    }
  }

  /** Atoi on each field of a layout-correct timestamp: it succeeds exactly on
      decimal text and gives the field's value. */
  lemma AtoiFields(t: string)
    requires |t| == 16 && '-' !in t
    ensures forall i :: 0 <= i < 6 ==> (Atoi(Fields(t)[i]).Ok? <==> IsUnsignedText(Fields(t)[i]))
    ensures forall i :: 0 <= i < 6 && IsUnsignedText(Fields(t)[i]) ==>
              Atoi(Fields(t)[i]) == Ok(UnsignedValue(Fields(t)[i]))
  {
    forall i | 0 <= i < 6
      ensures Atoi(Fields(t)[i]).Ok? <==> IsUnsignedText(Fields(t)[i])
      ensures IsUnsignedText(Fields(t)[i]) ==> Atoi(Fields(t)[i]) == Ok(UnsignedValue(Fields(t)[i]))
    {
      FieldHasNoMinus(t, i);
      AtoiShortUnsigned(Fields(t)[i]);
    }
  }

  /** The checks of handleTimeFormat run in a fixed order and the first that
      fails decides the error: length, then the T and Z markers, then '-',
      then the numeric syntax of the six fields. */
  lemma ParseChecksInOrder(t: string)
    ensures ParseTimestamp(t) == Err(WrongLength) <==> |t| != 16
    ensures ParseTimestamp(t) == Err(MisplacedMarker) <==> |t| == 16 && (t[8] != 'T' || t[15] != 'Z')
    ensures ParseTimestamp(t) == Err(ContainsMinus) <==>
              |t| == 16 && t[8] == 'T' && t[15] == 'Z' && '-' in t
    ensures ParseTimestamp(t) == Err(ConversionError) <==>
              |t| == 16 && t[8] == 'T' && t[15] == 'Z' && '-' !in t && !FieldsAreNumbers(t)
  {
    if |t| == 16 && t[8] == 'T' && t[15] == 'Z' && '-' !in t {
      AtoiFields(t);
      var f := Fields(t);
      assert ParseTimestamp(t) == ConvertFields(f);
      assert FieldsAreNumbers(t) <==>
        Atoi(f[0]).Ok? && Atoi(f[1]).Ok? && Atoi(f[2]).Ok? && Atoi(f[3]).Ok? && Atoi(f[4]).Ok? && Atoi(f[5]).Ok?;
    }
  }

  /** Once the layout and the numeric syntax are right, a timestamp is
      accepted exactly when its fields name a real date and time
      (month 1..12, day within the month of that year, hour < 24,
      minute < 60, second < 60), and the result has exactly those fields;
      every other timestamp is an IncorrectDate. */
  lemma ParseAcceptsExactlyValid(t: string)
    requires |t| == 16 && t[8] == 'T' && t[15] == 'Z' && '-' !in t && FieldsAreNumbers(t)
    ensures ParseTimestamp(t) == if Valid(FieldValues(t)) then Ok(FieldValues(t)) else Err(IncorrectDate)
  {
    AtoiFields(t);
    var f := Fields(t);
    var v := FieldValues(t);
    assert Atoi(f[0]) == Ok(v.year) && Atoi(f[1]) == Ok(v.month) && Atoi(f[2]) == Ok(v.day);
    assert Atoi(f[3]) == Ok(v.hour) && Atoi(f[4]) == Ok(v.minute) && Atoi(f[5]) == Ok(v.second);
    assert ParseTimestamp(t) == ConvertFields(f);
    ConvertNumbers(f, v);
    CheckDateAcceptsExactlyValid(v.year, v.month, v.day, v.hour, v.minute, v.second);
  }

  /** An accepted timestamp has a year of at most four digits. */
  lemma ParsedYearRange(t: string)
    requires ParseTimestamp(t).Ok?
    ensures 0 <= ParseTimestamp(t).value.year <= 9999
  {
    ParseChecksInOrder(t);
    ParseAcceptsExactlyValid(t);
    var digits := UnsignedDigits(Fields(t)[0]);
    ValueBound(digits);
    Pow10Monotone(|digits|, 4);
    assert Pow10(4) == 10000;
  }

  lemma ConvertNumbers(f: seq<string>, v: Instant)
    requires |f| == 6
    requires Atoi(f[0]) == Ok(v.year) && Atoi(f[1]) == Ok(v.month) && Atoi(f[2]) == Ok(v.day)
    requires Atoi(f[3]) == Ok(v.hour) && Atoi(f[4]) == Ok(v.minute) && Atoi(f[5]) == Ok(v.second)
    ensures ConvertFields(f) == CheckDate(v.year, v.month, v.day, v.hour, v.minute, v.second)
  {
  }

  // ---------------------------------------------------------------------
  // toTimestamp

  /** The year is left-padded with zeros to four bytes. */
  function PadYear(s: string): string
  {
    if |s| < 4 then Zeros(4 - |s|) + s else s
  }

  /** Month, day, hour, minute and second get one leading zero when they have one byte. */
  function Pad2(s: string): string
  {
    if |s| < 2 then "0" + s else s
  }

  /** The text toTimestamp produces for an instant. */
  function Format(t: Instant): string
  {
    PadYear(Itoa(t.year)) + Pad2(Itoa(t.month)) + Pad2(Itoa(t.day)) + "T"
      + Pad2(Itoa(t.hour)) + Pad2(Itoa(t.minute)) + Pad2(Itoa(t.second)) + "Z"
  }

  lemma ZerosPrepend(k: nat, s: string)
    ensures "0" + (Zeros(k) + s) == Zeros(k + 1) + s
  {
  }

  /** toTimestamp, with its zero-padding loop for the year. */
  method ToTimestamp(t: Instant) returns (s: string)
    ensures s == Format(t)
  {
    var digits := Itoa(t.year);
    var year := digits;
    while |year| < 4
      invariant |digits| <= |year| && year == Zeros(|year| - |digits|) + digits
      invariant |year| <= 4 || year == digits
      decreases 4 - |year|
    {
      ZerosPrepend(|year| - |digits|, digits);
      year := "0" + year;
    }
    assert year == PadYear(digits);
    var month := Itoa(t.month);
    if |month| < 2 {
      month := "0" + month;
    }
    assert month == Pad2(Itoa(t.month));
    var day := Itoa(t.day);
    if |day| < 2 {
      day := "0" + day;
    }
    assert day == Pad2(Itoa(t.day));
    var hour := Itoa(t.hour);
    if |hour| < 2 {
      hour := "0" + hour;
    }
    assert hour == Pad2(Itoa(t.hour));
    var min := Itoa(t.minute);
    if |min| < 2 {
      min := "0" + min;
    }
    assert min == Pad2(Itoa(t.minute));
    var sec := Itoa(t.second);
    if |sec| < 2 {
      sec := "0" + sec;
    }
    assert sec == Pad2(Itoa(t.second));
    s := year + month + day + "T" + hour + min + sec + "Z";
  }

  /** A number 0 <= n < 10^k written by Itoa and padded to k digits. */
  lemma PaddedDigits(n: nat, k: nat)
    requires 1 <= k && n < Pow10(k)
    ensures |Itoa(n)| <= k && |Zeros(k - |Itoa(n)|) + Itoa(n)| == k
    ensures AllDigits(Zeros(k - |Itoa(n)|) + Itoa(n))
    ensures Value(Zeros(k - |Itoa(n)|) + Itoa(n)) == n
  {
    NatDigitsLength(n, k);
    ValueOfNatDigits(n);
    ValueOfPadded(k - |Itoa(n)|, Itoa(n));
  }

  lemma DigitsAreUnsigned(s: string)
    requires |s| >= 1 && AllDigits(s)
    ensures IsUnsignedText(s) && UnsignedValue(s) == Value(s)
  {
    assert IsDigit(s[0]);
  }

  /** Six digit fields of widths 4, 2, 2, 2, 2, 2 laid out around 'T' and 'Z'. */
  lemma Layout(y: string, mo: string, d: string, h: string, mi: string, s: string)
    requires |y| == 4 && |mo| == 2 && |d| == 2 && |h| == 2 && |mi| == 2 && |s| == 2
    requires AllDigits(y) && AllDigits(mo) && AllDigits(d) && AllDigits(h) && AllDigits(mi) && AllDigits(s)
    ensures var f := y + mo + d + "T" + h + mi + s + "Z";
      && |f| == 16 && f[8] == 'T' && f[15] == 'Z'
      && (forall i :: 0 <= i < 16 && i != 8 && i != 15 ==> IsDigit(f[i]))
      && Fields(f) == [y, mo, d, h, mi, s]
  {
    var f := y + mo + d + "T" + h + mi + s + "Z";
    assert f[..4] == y && f[4..6] == mo && f[6..8] == d;
    assert f[9..11] == h && f[11..13] == mi && f[13..15] == s;
    forall i | 0 <= i < 16 && i != 8 && i != 15
      ensures IsDigit(f[i])
    {
      if i < 4 { assert f[i] == y[i]; }
      else if i < 6 { assert f[i] == mo[i - 4]; }
      else if i < 8 { assert f[i] == d[i - 6]; }
      else if i < 11 { assert f[i] == h[i - 9]; }
      else if i < 13 { assert f[i] == mi[i - 11]; }
      else { assert f[i] == s[i - 13]; }
    }
  }

  /** Fields written in plain digits are numbers, with the values of those digits. */
  lemma DigitFields(t: string, v: Instant)
    requires |t| == 16
    requires var f := Fields(t);
      && |f[0]| >= 1 && |f[1]| >= 1 && |f[2]| >= 1 && |f[3]| >= 1 && |f[4]| >= 1 && |f[5]| >= 1
      && AllDigits(f[0]) && AllDigits(f[1]) && AllDigits(f[2])
      && AllDigits(f[3]) && AllDigits(f[4]) && AllDigits(f[5])
      && Value(f[0]) == v.year && Value(f[1]) == v.month && Value(f[2]) == v.day
      && Value(f[3]) == v.hour && Value(f[4]) == v.minute && Value(f[5]) == v.second
    ensures FieldsAreNumbers(t) && FieldValues(t) == v
  {
    var f := Fields(t);
    DigitsAreUnsigned(f[0]);
    DigitsAreUnsigned(f[1]);
    DigitsAreUnsigned(f[2]);
    DigitsAreUnsigned(f[3]);
    DigitsAreUnsigned(f[4]);
    DigitsAreUnsigned(f[5]);
  }

  lemma PadYearIsZeros(s: string)
    requires |s| <= 4
    ensures PadYear(s) == Zeros(4 - |s|) + s
  {
    if |s| < 4 {
      assert PadYear(s) == Zeros(4 - |s|) + s;
    } else {
      var none := Zeros(4 - |s|);
      assert |none| == 0;
      assert none + s == s;
    }
  }

  lemma Pad2IsZeros(s: string)
    requires 1 <= |s| <= 2
    ensures Pad2(s) == Zeros(2 - |s|) + s
  {
    if |s| == 2 {
      assert Zeros(0) + s == s;
    } else {
      assert Zeros(1) == "0";
    }
  }

  /** The year toTimestamp writes for 0 <= n <= 9999: four digits denoting n. */
  lemma PaddedYear(n: int)
    requires 0 <= n <= 9999
    ensures |PadYear(Itoa(n))| == 4 && AllDigits(PadYear(Itoa(n))) && Value(PadYear(Itoa(n))) == n
  {
    assert Pow10(4) == 10000;
    NatDigitsLength(n, 4);
    PadYearIsZeros(Itoa(n));
    PaddedDigits(n, 4);
  }

  /** Any other field toTimestamp writes for 0 <= n <= 99: two digits denoting n. */
  lemma Padded2(n: int)
    requires 0 <= n <= 99
    ensures |Pad2(Itoa(n))| == 2 && AllDigits(Pad2(Itoa(n))) && Value(Pad2(Itoa(n))) == n
  {
    assert Pow10(2) == 100;
    NatDigitsLength(n, 2);
    Pad2IsZeros(Itoa(n));
    PaddedDigits(n, 2);
  }

  /** For a valid instant in years 0..9999, toTimestamp writes exactly the
      layout handleTimeFormat expects: 16 bytes, 'T' at index 8, 'Z' at
      index 15, and the zero-padded digits of each field in its place. */
  lemma FormatLayout(t: Instant)
    requires Valid(t) && 0 <= t.year <= 9999
    ensures |Format(t)| == 16 && Format(t)[8] == 'T' && Format(t)[15] == 'Z'
    ensures forall i :: 0 <= i < 16 && i != 8 && i != 15 ==> IsDigit(Format(t)[i])
    ensures FieldsAreNumbers(Format(t)) && FieldValues(Format(t)) == t
  {
    PaddedYear(t.year);
    Padded2(t.month);
    Padded2(t.day);
    Padded2(t.hour);
    Padded2(t.minute);
    Padded2(t.second);
    Layout(PadYear(Itoa(t.year)), Pad2(Itoa(t.month)), Pad2(Itoa(t.day)),
           Pad2(Itoa(t.hour)), Pad2(Itoa(t.minute)), Pad2(Itoa(t.second)));
    DigitFields(Format(t), t);
  }

  /** Formatting a valid instant of years 0..9999 and parsing the text back
      gives the same instant. */
  lemma FormatRoundTrip(t: Instant)
    requires Valid(t) && 0 <= t.year <= 9999
    ensures ParseTimestamp(Format(t)) == Ok(t)
  {
    FormatLayout(t);
    var f := Format(t);
    assert '-' !in f by {
      forall i | 0 <= i < 16
        ensures f[i] != '-'
      {
        if i != 8 && i != 15 {
          assert IsDigit(f[i]);
        }
      }
    }
    ParseAcceptsExactlyValid(f);
  }
}
