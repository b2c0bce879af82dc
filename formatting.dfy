/** The text forms the configuration messages interpolate: `int.ToString()`
    (decimal, leading '-' when negative), `TimeSpan.ToString()` (the constant
    format `[-][d.]hh:mm:ss[.fffffff]`) and `string.Join`. */
module Formatting {
  import opened Common

  predicate IsDigit(c: char) {
    '0' <= c <= '9'
  }

  predicate AllDigits(s: string) {
    forall i :: 0 <= i < |s| ==> IsDigit(s[i])
  }

  function DigitChar(d: nat): (c: char)
    requires d < 10
    ensures IsDigit(c) && c as int - '0' as int == d
  {
    ('0' as int + d) as char
  }

  /** Decimal digits, most significant first. */
  function FormatNat(n: nat): string {
    if n < 10 then [DigitChar(n)] else FormatNat(n / 10) + [DigitChar(n % 10)]
  }

  /** At least one digit, only digits, and no leading zero. */
  lemma {:induction false} FormatNatDigits(n: nat)
    ensures var s := FormatNat(n);
            |s| >= 1 && AllDigits(s) && (|s| > 1 ==> s[0] != '0')
  {
    if n >= 10 {
      FormatNatDigits(n / 10);
      var s, prefix := FormatNat(n), FormatNat(n / 10);
      assert forall i :: 0 <= i < |prefix| ==> s[i] == prefix[i];
    }
  }

  /** The value of a string of decimal digits. */
  function DigitsValue(s: string): nat
    requires AllDigits(s)
  {
    if s == [] then 0 else DigitsValue(s[..|s| - 1]) * 10 + (s[|s| - 1] as int - '0' as int)
  }

  lemma {:induction false} DigitsValueOfFormatNat(n: nat)
    ensures AllDigits(FormatNat(n)) && DigitsValue(FormatNat(n)) == n
  {
    FormatNatDigits(n);
    if n >= 10 {
      var s := FormatNat(n);
      assert s[..|s| - 1] == FormatNat(n / 10);
      DigitsValueOfFormatNat(n / 10);
    }
  }

  /** `int.ToString()` with the invariant culture. */
  function FormatInt(x: int): string {
    if x < 0 then "-" + FormatNat(-x) else FormatNat(x)
  }

  /** A minus sign leads exactly the negative numbers. */
  lemma FormatIntSign(x: int)
    ensures |FormatInt(x)| >= 1 && (FormatInt(x)[0] == '-' <==> x < 0)
  {
    FormatNatDigits(if x < 0 then -x else x);
  }

  /** Reads back what FormatInt writes. */
  function ParseInt(s: string): int
    requires |s| >= 1 && AllDigits(s[1..]) && (s[0] == '-' || IsDigit(s[0]))
  {
    if s[0] == '-' then -(DigitsValue(s[1..]) as int) else DigitsValue(s)
  }

  /** Distinct numbers print differently: the text can be read back. */
  lemma ParseFormatInt(x: int)
    ensures var s := FormatInt(x);
            |s| >= 1 && AllDigits(s[1..]) && (s[0] == '-' || IsDigit(s[0])) && ParseInt(s) == x
  {
    if x < 0 {
      assert FormatInt(x)[1..] == FormatNat(-x);
      DigitsValueOfFormatNat(-x);
    } else {
      DigitsValueOfFormatNat(x);
      var s := FormatNat(x);
      assert forall i :: 0 <= i < |s[1..]| ==> s[1..][i] == s[i + 1];
    }
  }

  /** `s` left-padded with zeros to `width` characters. */
  function PadLeft(s: string, width: nat): string {
    if |s| >= width then s else seq(width - |s|, _ => '0') + s
  }

  /** Padding only adds zeros in front, and only up to the width. */
  lemma PadLeftShape(s: string, width: nat)
    ensures var r := PadLeft(s, width);
            |r| == (if |s| >= width then |s| else width) && r[|r| - |s|..] == s
            && forall i :: 0 <= i < |r| - |s| ==> r[i] == '0'
  {
  }

  /** The components of a TimeSpan as its constant format shows them. */
  datatype TimeSpanParts = TimeSpanParts(
    negative: bool, days: nat, hours: nat, minutes: nat, seconds: nat, fraction: nat)

  function Magnitude(t: TimeSpan): nat {
    if t < 0 then -t else t
  }

  function Decompose(t: TimeSpan): (p: TimeSpanParts)
    ensures p.hours < 24 && p.minutes < 60 && p.seconds < 60 && p.fraction < TicksPerSecond
    ensures p.negative <==> t < 0
  {
    var m := Magnitude(t);
    var totalSeconds := m / TicksPerSecond;
    var totalMinutes := totalSeconds / 60;
    var totalHours := totalMinutes / 60;
    TimeSpanParts(t < 0, totalHours / 24, totalHours % 24, totalMinutes % 60, totalSeconds % 60, m % TicksPerSecond)
  }

  function Recompose(p: TimeSpanParts): TimeSpan {
    var m := (((p.days * 24 + p.hours) * 60 + p.minutes) * 60 + p.seconds) * TicksPerSecond + p.fraction;
    if p.negative then -m else m
  }

  /** The components shown are exactly the TimeSpan: nothing is lost. */
  lemma RecomposeDecompose(t: TimeSpan)
    ensures Recompose(Decompose(t)) == t
  {
    var m := Magnitude(t);
    var totalSeconds := m / TicksPerSecond;
    var totalMinutes := totalSeconds / 60;
    var totalHours := totalMinutes / 60;
    assert m == totalSeconds * TicksPerSecond + m % TicksPerSecond;
    assert totalSeconds == totalMinutes * 60 + totalSeconds % 60;
    assert totalMinutes == totalHours * 60 + totalMinutes % 60;
    assert totalHours == (totalHours / 24) * 24 + totalHours % 24;
  }

  /** `TimeSpan.ToString()`: days only when non-zero, the seven-digit fraction
      only when non-zero. */
  function FormatTimeSpan(t: TimeSpan): string {
    FormatParts(Decompose(t))
  }

  function FormatParts(p: TimeSpanParts): string {
    (if p.negative then "-" else "")
    + (if p.days != 0 then FormatNat(p.days) + "." else "")
    + PadLeft(FormatNat(p.hours), 2) + ":" + PadLeft(FormatNat(p.minutes), 2) + ":" + PadLeft(FormatNat(p.seconds), 2)
    + (if p.fraction != 0 then "." + PadLeft(FormatNat(p.fraction), 7) else "")
  }

  /** Zero-padded decimal digits, at least as many as the width. */
  lemma PaddedDigits(n: nat, width: nat)
    ensures var s := PadLeft(FormatNat(n), width);
            |s| >= width && |s| >= 1 && AllDigits(s)
  {
    FormatNatDigits(n);
    PadLeftShape(FormatNat(n), width);
    var s, digits := PadLeft(FormatNat(n), width), FormatNat(n);
    forall i | 0 <= i < |s| ensures IsDigit(s[i]) {
      if i >= |s| - |digits| {
        assert s[i] == s[|s| - |digits|..][i - (|s| - |digits|)];
      }
    }
  }

  /** A TimeSpan's text starts with '-' exactly when the span is negative, and
      always shows at least "hh:mm:ss". */
  lemma FormatTimeSpanSign(t: TimeSpan)
    ensures |FormatTimeSpan(t)| >= 8
    ensures FormatTimeSpan(t)[0] == '-' <==> t < 0
  {
    var p := Decompose(t);
    FormatNatDigits(p.days);
    PaddedDigits(p.hours, 2);
    PaddedDigits(p.minutes, 2);
    PaddedDigits(p.seconds, 2);
    var lead := if p.days != 0 then FormatNat(p.days) + "." else "";
    var hh := PadLeft(FormatNat(p.hours), 2);
    var first := lead + hh;
    assert IsDigit(first[0]);
    assert FormatParts(p)[0] == (if p.negative then '-' else first[0]);
  }

  /** What a failed RequestTimeout or ConnectionIdleTimeout check prints for zero. */
  lemma FormatZeroSpan()
    ensures FormatTimeSpan(0) == "00:00:00"
  {
    assert Decompose(0) == TimeSpanParts(false, 0, 0, 0, 0, 0);
    assert PadLeft(FormatNat(0), 2) == "00";
  }

  lemma FormatThirtySeconds()
    ensures FormatTimeSpan(30 * TicksPerSecond) == "00:00:30"
  {
    assert Decompose(30 * TicksPerSecond) == TimeSpanParts(false, 0, 0, 0, 30, 0);
    assert PadLeft(FormatNat(0), 2) == "00";
    assert PadLeft(FormatNat(30), 2) == "30";
  }

  /** A negative span carries a leading '-'. */
  lemma FormatNegativeSpan()
    ensures FormatTimeSpan(-TicksPerSecond) == "-00:00:01"
  {
    assert Decompose(-TicksPerSecond) == TimeSpanParts(true, 0, 0, 0, 1, 0);
    assert PadLeft(FormatNat(0), 2) == "00";
    assert PadLeft(FormatNat(1), 2) == "01";
  }

  /** Days show only when present. */
  lemma FormatOneDay()
    ensures FormatTimeSpan(TicksPerDay) == "1.00:00:00"
  {
    assert Decompose(TicksPerDay) == TimeSpanParts(false, 1, 0, 0, 0, 0);
    assert PadLeft(FormatNat(0), 2) == "00";
    assert FormatNat(1) == "1";
  }

  /** The seven-digit fraction of one tick. */
  lemma PadOneTick()
    ensures PadLeft(FormatNat(1), 7) == "0000001"
  {
    assert FormatNat(1) == "1";
  }

  /** A fraction shows with all seven digits: one tick is the last of them. */
  lemma FormatOneTick()
    ensures FormatTimeSpan(1) == "00:00:00.0000001"
  {
    assert Decompose(1) == TimeSpanParts(false, 0, 0, 0, 0, 1);
    assert PadLeft(FormatNat(0), 2) == "00";
    PadOneTick();
  }

  /** `string.Join(separator, parts)`. */
  function Join(parts: seq<string>, separator: string): string {
    if |parts| == 0 then ""
    else if |parts| == 1 then parts[0]
    else parts[0] + separator + Join(parts[1..], separator)
  }

  /** The separator stands only between parts: appending one more part adds one
      separator and the part. */
  lemma {:induction false} JoinAppend(parts: seq<string>, part: string, separator: string)
    requires |parts| >= 1
    ensures Join(parts + [part], separator) == Join(parts, separator) + separator + part
  {
    if |parts| > 1 {
      assert (parts + [part])[1..] == parts[1..] + [part];
      JoinAppend(parts[1..], part, separator);
    }
  }

  /** Two parts: one separator between them. */
  lemma JoinPair(first: string, second: string, separator: string)
    ensures Join([first, second], separator) == first + separator + second
  {
    JoinAppend([first], second, separator);
    assert [first] + [second] == [first, second];
  }
}
