/**
 * The values an asset row holds (int, str, date, datetime and None) and
 * Python's `str()` of each, which is what a report cell shows.
 */
module PyValues {
  import opened Wrappers

  /** A calendar date (`datetime.date`). */
  datatype Date = Date(year: nat, month: nat, day: nat)

  /** A timestamp without fractional seconds (`datetime.datetime` read from a TIMESTAMP column). */
  datatype Timestamp = Timestamp(date: Date, hour: nat, minute: nat, second: nat)

  /** A Python value as far as `str()` is concerned. */
  datatype PyValue =
    | PyNone
    | PyStr(s: string)
    | PyInt(i: int)
    | PyDate(d: Date)
    | PyDateTime(t: Timestamp)

  /** The dates `datetime.date` accepts (day bounded by 31 regardless of month). */
  predicate ValidDate(d: Date) {
    1 <= d.year <= 9999 && 1 <= d.month <= 12 && 1 <= d.day <= 31
  }

  predicate IsDigit(c: char) {
    '0' <= c <= '9'
  }

  predicate IsDigits(s: string) {
    forall i :: 0 <= i < |s| ==> IsDigit(s[i])
  }

  function DigitChar(d: nat): (c: char)
    requires d < 10
    ensures IsDigit(c) && c as int - '0' as int == d
  {
    (48 + d) as char
  }

  function DigitValue(c: char): (d: nat)
    requires IsDigit(c)
    ensures d < 10 && DigitChar(d) == c
  {
    c as int - '0' as int
  }

  /** The decimal digits of `n`, as `str(n)` prints a non-negative int. */
  function NatToDecimal(n: nat): (s: string)
    ensures |s| > 0 && IsDigits(s)
    ensures s[0] == '0' ==> n == 0
  {
    if n < 10 then [DigitChar(n)] else NatToDecimal(n / 10) + [DigitChar(n % 10)]
  }

  /** The value of a string of decimal digits (the partner of NatToDecimal). */
  function DecimalToNat(s: string): nat
    requires IsDigits(s)
  {
    if s == [] then 0 else DecimalToNat(s[..|s| - 1]) * 10 + DigitValue(s[|s| - 1])
  }

  /** Reading back the digits `str()` prints gives the number again. */
  lemma {:induction false} DecimalRoundTrip(n: nat)
    ensures DecimalToNat(NatToDecimal(n)) == n
  {
    if n >= 10 {
      var s := NatToDecimal(n);
      assert s[..|s| - 1] == NatToDecimal(n / 10);
      DecimalRoundTrip(n / 10);
    }
  }

  /** A number below 10^k has at most k digits. */
  lemma {:induction false} DecimalLength(n: nat, k: nat, bound: nat)
    requires bound == Pow10(k) && n < bound && k > 0
    ensures |NatToDecimal(n)| <= k
  {
    if n >= 10 {
      assert k > 1;
      assert n / 10 < Pow10(k - 1);
      DecimalLength(n / 10, k - 1, Pow10(k - 1));
    }
  }

  function Pow10(k: nat): (p: nat)
    ensures p > 0
  {
    if k == 0 then 1 else 10 * Pow10(k - 1)
  }

  /** Leading zeros do not change the value of a digit string. */
  lemma {:induction false} LeadingZeros(z: string, s: string)
    requires IsDigits(s) && forall i :: 0 <= i < |z| ==> z[i] == '0'
    ensures IsDigits(z + s) && DecimalToNat(z + s) == DecimalToNat(s)
  {
    if s == [] {
      ZerosValue(z);
      assert z + s == z;
    } else {
      var t := z + s;
      assert t[..|t| - 1] == z + s[..|s| - 1];
      LeadingZeros(z, s[..|s| - 1]);
    }
  }

  lemma {:induction false} ZerosValue(z: string)
    requires forall i :: 0 <= i < |z| ==> z[i] == '0'
    ensures IsDigits(z) && DecimalToNat(z) == 0
  {
    if z != [] {
      ZerosValue(z[..|z| - 1]);
    }
  }

  /** `str(i)` of a Python int: a minus sign before the digits of a negative number. */
  function IntToDecimal(i: int): (s: string)
  {
    if i < 0 then "-" + NatToDecimal(-i) else NatToDecimal(i)
  }

  /** Different ints print differently. */
  lemma IntToDecimalInjective(a: int, b: int)
    requires IntToDecimal(a) == IntToDecimal(b)
    ensures a == b
  {
    var s := IntToDecimal(a);
    if a < 0 {
      assert b < 0 by { assert s[0] == '-'; }
      assert s[1..] == NatToDecimal(-a) == NatToDecimal(-b);
      DecimalRoundTrip(-a);
      DecimalRoundTrip(-b);
    } else {
      assert b >= 0 by { assert IsDigit(s[0]); }
      DecimalRoundTrip(a);
      DecimalRoundTrip(b);
    }
  }

  /** `"%0<width>d" % n`: the digits of n, padded on the left with zeros to `width`. */
  function ZeroPadded(n: nat, width: nat): (s: string)
    ensures IsDigits(s) && |s| >= width
    ensures DecimalToNat(s) == n
  {
    var digits := NatToDecimal(n);
    var pad := if |digits| >= width then [] else seq(width - |digits|, _ => '0');
    LeadingZeros(pad, digits);
    DecimalRoundTrip(n);
    pad + digits
  }

  /** Zero padding gives exactly `width` characters when the number fits. */
  lemma ZeroPaddedLength(n: nat, width: nat)
    requires width > 0 && n < Pow10(width)
    ensures |ZeroPadded(n, width)| == width
  {
    DecimalLength(n, width, Pow10(width));
  }

  /** `str(d)` of a date: `YYYY-MM-DD`. */
  function DateStr(d: Date): string {
    ZeroPadded(d.year, 4) + "-" + ZeroPadded(d.month, 2) + "-" + ZeroPadded(d.day, 2)
  }

  /** `str(t)` of a datetime without microseconds: `YYYY-MM-DD HH:MM:SS`. */
  function TimestampStr(t: Timestamp): string {
    DateStr(t.date) + " " + ZeroPadded(t.hour, 2) + ":" + ZeroPadded(t.minute, 2) + ":" + ZeroPadded(t.second, 2)
  }

  /** Reads a `YYYY-MM-DD` string back into a date (the partner of DateStr). */
  function ParseDate(s: string): Option<Date> {
    if |s| == 10 && s[4] == '-' && s[7] == '-' && IsDigits(s[..4]) && IsDigits(s[5..7]) && IsDigits(s[8..])
    then Some(Date(DecimalToNat(s[..4]), DecimalToNat(s[5..7]), DecimalToNat(s[8..])))
    else None
  }

  /** A valid date prints as ten characters that read back as the same date. */
  lemma DateRoundTrip(d: Date)
    requires ValidDate(d)
    ensures |DateStr(d)| == 10
    ensures ParseDate(DateStr(d)) == Some(d)
  {
    ZeroPaddedLength(d.year, 4);
    assert d.month < Pow10(2) && d.day < Pow10(2);
    ZeroPaddedLength(d.month, 2);
    ZeroPaddedLength(d.day, 2);
    var y, m, dd := ZeroPadded(d.year, 4), ZeroPadded(d.month, 2), ZeroPadded(d.day, 2);
    assert |y| == 4 && |m| == 2 && |dd| == 2;
    var s := DateStr(d);
    assert s == ((y + "-") + m) + ("-" + dd);
    assert s[..4] == y;
    assert s[4] == '-' && s[7] == '-';
    assert s[5..7] == m;
    assert s[8..] == dd;
  }

  /** `str(v)`: a string is itself, None is "None", numbers and dates as Python prints them. */
  function Str(v: PyValue): string {
    match v
    case PyNone => "None"
    case PyStr(s) => s
    case PyInt(i) => IntToDecimal(i)
    case PyDate(d) => DateStr(d)
    case PyDateTime(t) => TimestampStr(t)
  }
}
