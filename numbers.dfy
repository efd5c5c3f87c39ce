/** Decimal conversions of Go's strconv package on a 64-bit platform:
    Atoi (through ParseInt and ParseUint, base 10) and Itoa. Each element of a
    string stands for one byte of the Go string. */
module Numbers {
  import opened Wrappers

  /** The two kinds of strconv.NumError: ErrSyntax and ErrRange. */
  datatype NumError = Syntax | Range

  const MaxUint64 := 0xFFFF_FFFF_FFFF_FFFF
  const MaxInt64 := 0x7FFF_FFFF_FFFF_FFFF
  const MinInt64 := -0x8000_0000_0000_0000

  /** ParseUint's overflow guard: an accumulator this large cannot take another digit. */
  const Cutoff := MaxUint64 / 10 + 1

  predicate IsDigit(c: char)
  {
    '0' <= c <= '9'
  }

  predicate AllDigits(s: string)
  {
    forall i :: 0 <= i < |s| ==> IsDigit(s[i])
  }

  function DigitValue(c: char): (d: int)
    requires IsDigit(c)
    ensures 0 <= d <= 9
  {
    c as int - '0' as int
  }

  function DigitChar(d: int): (c: char)
    requires 0 <= d <= 9
    ensures IsDigit(c) && DigitValue(c) == d
  {
    ('0' as int + d) as char
  }

  /** The number a string of decimal digits denotes (positional notation). */
  function Value(s: string): nat
    requires AllDigits(s)
  {
    if s == [] then 0 else Value(s[..|s| - 1]) * 10 + DigitValue(s[|s| - 1])
  }

  function Pow10(k: nat): nat
  {
    if k == 0 then 1 else 10 * Pow10(k - 1)
  }

  function Zeros(k: nat): (s: string)
    ensures |s| == k
  {
    if k == 0 then "" else "0" + Zeros(k - 1)
  }

  // ---------------------------------------------------------------------
  // strconv.Atoi

  /** The digit loop of ParseUint, base 10, bit size 64, from accumulator n:
      a non-digit is a syntax error, and an overflow is a range error as soon
      as it happens, even when a later byte is not a digit. */
  function ScanUint(s: string, n: nat): (r: Result<int, NumError>)
    ensures r.Ok? ==> n <= r.value
  {
    if |s| == 0 then Ok(n)
    else if !IsDigit(s[0]) then Err(Syntax)
    else if n >= Cutoff then Err(Range)
    else if n * 10 + DigitValue(s[0]) > MaxUint64 then Err(Range)
    else ScanUint(s[1..], n * 10 + DigitValue(s[0]))
  }

  /** strconv.ParseUint(s, 10, 64): the empty string is a syntax error. */
  function ParseUint(s: string): Result<int, NumError>
  {
    if |s| == 0 then Err(Syntax) else ScanUint(s, 0)
  }

  /** strconv.Atoi: an optional sign, then ParseUint, then the int64 range check. */
  function Atoi(s: string): (r: Result<int, NumError>)
    ensures r.Ok? ==> MinInt64 <= r.value <= MaxInt64
  {
    if |s| == 0 then Err(Syntax)
    else
      var neg := s[0] == '-';
      var digits := if s[0] == '+' || s[0] == '-' then s[1..] else s;
      match ParseUint(digits)
      case Err(e) => Err(e)
      case Ok(u) =>
        if !neg && u > MaxInt64 then Err(Range)
        else if neg && u > MaxInt64 + 1 then Err(Range)
        else Ok(if neg then -u else u)
  }

  /** The int strconv.Atoi returns beside its error: the value itself, 0
      after a syntax error, and the int64 bound on the side of the sign
      after a range error (ParseInt clamps before reporting it). */
  function AtoiInt(s: string): (n: int)
    ensures MinInt64 <= n <= MaxInt64
    ensures Atoi(s).Ok? ==> n == Atoi(s).value
  {
    match Atoi(s)
    case Ok(v) => v
    case Err(Syntax) => 0
    case Err(Range) => if |s| > 0 && s[0] == '-' then MinInt64 else MaxInt64
  }

  // ---------------------------------------------------------------------
  // strconv.Itoa

  /** The decimal digits of n, without leading zeros. */
  function NatDigits(n: nat): (s: string)
    ensures |s| >= 1 && AllDigits(s)
  {
    if n < 10 then [DigitChar(n)] else NatDigits(n / 10) + [DigitChar(n % 10)]
  }

  /** strconv.Itoa: a minus sign for negative numbers, then the digits. */
  function Itoa(n: int): string
  {
    if n < 0 then "-" + NatDigits(-n) else NatDigits(n)
  }

  // ---------------------------------------------------------------------
  // Lemmas

  /** The digits Itoa writes denote the number itself. */
  lemma {:induction false} ValueOfNatDigits(n: nat)
    ensures Value(NatDigits(n)) == n
  {
    if n >= 10 {
      ValueOfNatDigits(n / 10);
      var s := NatDigits(n);
      assert s[..|s| - 1] == NatDigits(n / 10);
    }
  }

  /** Itoa writes at most k digits for a number below 10^k. */
  lemma {:induction false} NatDigitsLength(n: nat, k: nat)
    requires 1 <= k && n < Pow10(k)
    ensures |NatDigits(n)| <= k
  {
    if k <= 1 {
      assert Pow10(0) == 1 && Pow10(1) == 10;
    }
    if n >= 10 {
      assert k >= 2 && Pow10(k) == 10 * Pow10(k - 1);
      assert n / 10 < Pow10(k - 1);
      NatDigitsLength(n / 10, k - 1);
      assert |NatDigits(n)| == |NatDigits(n / 10)| + 1;
    }
  }

  /** k digits denote a number below 10^k. */
  lemma {:induction false} ValueBound(s: string)
    requires AllDigits(s)
    ensures Value(s) < Pow10(|s|)
  {
    if s != [] {
      ValueBound(s[..|s| - 1]);
    }
  }

  /** Leading zeros do not change the value. */
  lemma {:induction false} ValueOfPadded(k: nat, s: string)
    requires AllDigits(s)
    ensures AllDigits(Zeros(k) + s) && Value(Zeros(k) + s) == Value(s)
  {
    if s == [] {
      assert Zeros(k) + s == Zeros(k);
      ZerosValue(k);
    } else {
      var p := s[..|s| - 1];
      ValueOfPadded(k, p);
      assert (Zeros(k) + s)[..|Zeros(k) + s| - 1] == Zeros(k) + p;
    }
  }

  lemma {:induction false} ZerosValue(k: nat)
    ensures AllDigits(Zeros(k)) && Value(Zeros(k)) == 0
  {
    if k > 0 {
      ZerosValue(k - 1);
      var z := Zeros(k);
      assert z == "0" + Zeros(k - 1);
      assert z == Zeros(k - 1) + "0" by {
        ZerosCommute(k - 1);
      }
      assert z[..k - 1] == Zeros(k - 1);
    }
  }

  lemma {:induction false} ZerosCommute(k: nat)
    ensures "0" + Zeros(k) == Zeros(k) + "0"
  {
    if k > 0 {
      ZerosCommute(k - 1);
    }
  }

  /** Scanning one more digit multiplies by ten and adds it, unless that overflows. */
  lemma {:induction false} ScanAppend(s: string, c: char, n: nat, v: int)
    requires AllDigits(s) && IsDigit(c) && ScanUint(s, n) == Ok(v)
    ensures ScanUint(s + [c], n) ==
      if v >= Cutoff || v * 10 + DigitValue(c) > MaxUint64 then Err(Range) else Ok(v * 10 + DigitValue(c))
  {
    if s == [] {
      assert s + [c] == [c];
    } else {
      assert (s + [c])[0] == s[0];
      assert (s + [c])[1..] == s[1..] + [c];
      ScanAppend(s[1..], c, n * 10 + DigitValue(s[0]), v);
    }
  }

  /** On digit strings whose value fits in 64 bits, ParseUint's loop computes that value. */
  lemma {:induction false} ScanDigits(s: string)
    requires AllDigits(s) && Value(s) <= MaxUint64
    ensures ScanUint(s, 0) == Ok(Value(s))
  {
    if s != [] {
      var p := s[..|s| - 1];
      ScanDigits(p);
      assert p + [s[|s| - 1]] == s;
      ScanAppend(p, s[|s| - 1], 0, Value(p));
    }
  }

  /** A scan that succeeds has read digits only. */
  lemma {:induction false} ScanOkDigits(s: string, n: nat)
    requires ScanUint(s, n).Ok?
    ensures AllDigits(s)
  {
    if s != [] {
      ScanOkDigits(s[1..], n * 10 + DigitValue(s[0]));
      assert forall i :: 1 <= i < |s| ==> s[i] == s[1..][i - 1];
    }
  }

  /** Itoa and Atoi are inverse on the whole int64 range. */
  lemma AtoiItoa(n: int)
    requires MinInt64 <= n <= MaxInt64
    ensures Atoi(Itoa(n)) == Ok(n)
  {
    var m: nat := if n < 0 then -n else n;
    ValueOfNatDigits(m);
    ScanDigits(NatDigits(m));
    if n < 0 {
      assert ("-" + NatDigits(m))[1..] == NatDigits(m);
    }
  }

  /** The decimal syntax Atoi accepts when no minus sign is present:
      digits, optionally after a single plus sign. */
  predicate IsUnsignedText(s: string)
  {
    (|s| >= 1 && AllDigits(s)) || (|s| >= 2 && s[0] == '+' && AllDigits(s[1..]))
  }

  function UnsignedDigits(s: string): string
    requires IsUnsignedText(s)
  {
    if s[0] == '+' then s[1..] else s
  }

  /** On short strings without a minus sign, Atoi succeeds exactly on
      unsigned decimal text, and then returns the value of its digits. */
  lemma AtoiShortUnsigned(s: string)
    requires |s| <= 18 && forall i :: 0 <= i < |s| ==> s[i] != '-'
    ensures Atoi(s).Ok? <==> IsUnsignedText(s)
    ensures IsUnsignedText(s) ==> AllDigits(UnsignedDigits(s)) && Atoi(s) == Ok(Value(UnsignedDigits(s)))
  {
    if |s| > 0 {
      assert s[0] != '-';
      var digits := if s[0] == '+' then s[1..] else s;
      if ParseUint(digits).Ok? {
        ScanOkDigits(digits, 0);
      }
      if IsUnsignedText(s) {
        assert digits == UnsignedDigits(s);
        ValueBound(digits);
        Pow10Monotone(|digits|, 18);
        Pow10Of18();
        ScanDigits(digits);
      }
    }
  }

  lemma {:induction false} Pow10Monotone(a: nat, b: nat)
    requires a <= b
    ensures Pow10(a) <= Pow10(b)
    decreases b
  {
    if a < b {
      Pow10Monotone(a, b - 1);
    }
  }

  lemma Pow10Of18()
    ensures Pow10(18) == 1_000_000_000_000_000_000
  {
    assert Pow10(4) == 10000;
  }
}
