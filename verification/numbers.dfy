/** Decimal text for integers: Python's `str(n)`, the `{n:02d}` format and the
    `int(s)` constructor on ASCII text. */
module Numbers {
  import opened Results
  import Text

  predicate IsDigit(c: char) {
    '0' <= c <= '9'
  }

  /** Python's `s.isdigit()` restricted to ASCII: non-empty and all digits. */
  predicate IsDigits(s: string) {
    |s| > 0 && forall i | 0 <= i < |s| :: IsDigit(s[i])
  }

  function DigitChar(d: int): (c: char)
    requires 0 <= d < 10
    ensures IsDigit(c) && DigitValue(c) == d
  {
    ('0' as int + d) as char
  }

  function DigitValue(c: char): nat
    requires IsDigit(c)
  {
    c as int - '0' as int
  }

  /** The value of a string of decimal digits. */
  function DecimalValue(s: string): (v: nat)
    requires forall i | 0 <= i < |s| :: IsDigit(s[i])
  {
    if |s| == 0 then 0
    else DecimalValue(s[..|s| - 1]) * 10 + DigitValue(s[|s| - 1])
  }

  /** `str(n)` for a non-negative integer: digits only, no leading zero. */
  function NatToDecimal(n: nat): (r: string)
    ensures IsDigits(r)
    ensures r[0] == '0' ==> n == 0 && |r| == 1
    ensures n < 10 <==> |r| == 1
  {
    if n < 10 then [DigitChar(n)]
    else NatToDecimal(n / 10) + [DigitChar(n % 10)]
  }

  /** `str(i)` for any integer. */
  function IntToDecimal(i: int): (r: string)
    ensures |r| > 0
    ensures i < 0 <==> r[0] == '-'
    ensures i >= 0 ==> IsDigits(r)
    ensures i < 0 ==> IsDigits(r[1..])
  {
    if i < 0 then "-" + NatToDecimal(-i) else NatToDecimal(i)
  }

  /** Reading back the decimal text of `n` gives `n`. */
  lemma {:induction false} DecimalRoundTrip(n: nat)
    ensures DecimalValue(NatToDecimal(n)) == n
  {
    if n >= 10 {
      DecimalRoundTrip(n / 10);
      var r := NatToDecimal(n);
      assert r[..|r| - 1] == NatToDecimal(n / 10);
    }
  }

  /** Python's `f"{n:02d}"`: at least two characters, zero-padded on the left. */
  function Pad2(n: int): (r: string)
    ensures |r| >= 2
    ensures 0 <= n < 100 ==> |r| == 2
    ensures n >= 0 ==> IsDigits(r) && DecimalValue(r) == n
    ensures n < 0 ==> r == IntToDecimal(n)
    ensures n >= 100 ==> r == NatToDecimal(n)
  {
    if n < 0 then IntToDecimal(n)
    else if n < 10 then
      var r := "0" + NatToDecimal(n);
      assert r[..1] == "0" && r[1] == DigitChar(n);
      assert DecimalValue(r[..1]) == 0;
      r
    else
      DecimalRoundTrip(n);
      NatToDecimal(n)
  }

  /** The body of an integer literal as Python's `int()` accepts it: digits,
      where single underscores may separate two digits. */
  predicate IsDigitGroups(s: string) {
    && |s| > 0
    && IsDigit(s[0]) && IsDigit(s[|s| - 1])
    && (forall i | 0 <= i < |s| :: IsDigit(s[i]) || s[i] == '_')
    && (forall i | 0 <= i < |s| - 1 :: !(s[i] == '_' && s[i + 1] == '_'))
  }

  /** Python's `int(s)` on ASCII text: surrounding whitespace is ignored, an
      optional sign comes first, and the digits may be grouped by underscores.
      `None` stands for the `ValueError` Python raises. */
  function PyInt(s: string): (r: Option<int>)
  {
    var t := Text.Strip(s);
    if |t| == 0 then None else SignedValue(t)
  }

  /** The value of digits grouped by underscores, the underscores being skipped. */
  function GroupedValue(s: string): nat
    requires forall i | 0 <= i < |s| :: IsDigit(s[i]) || s[i] == '_'
  {
    if |s| == 0 then 0
    else if s[|s| - 1] == '_' then GroupedValue(s[..|s| - 1])
    else GroupedValue(s[..|s| - 1]) * 10 + DigitValue(s[|s| - 1])
  }

  lemma {:induction false} GroupedValueOfDigits(s: string)
    requires forall i | 0 <= i < |s| :: IsDigit(s[i])
    ensures GroupedValue(s) == DecimalValue(s)
  {
    if |s| > 0 {
      GroupedValueOfDigits(s[..|s| - 1]);
    }
  }

  /** The value of an optionally signed, underscore-grouped literal. */
  function SignedValue(t: string): (r: Option<int>)
    requires |t| > 0
  {
    var neg := t[0] == '-';
    var body := if t[0] == '-' || t[0] == '+' then t[1..] else t;
    if !IsDigitGroups(body) then None
    else
      var v: int := GroupedValue(body);
      Some(if neg then -v else v)
  }

  /** `int(str(i)) == i`. */
  lemma PyIntOfDecimal(i: int)
    ensures PyInt(IntToDecimal(i)) == Some(i)
  {
    if i >= 0 {
      PyIntOfNatural(i);
    } else {
      PyIntOfNegativeInt(i);
    }
  }

  lemma PyIntOfNatural(i: int)
    requires i >= 0
    ensures PyInt(IntToDecimal(i)) == Some(i)
  {
    var r := NatToDecimal(i);
    PyIntOfDigits(r);
    DecimalRoundTrip(i);
    assert PyInt(r) == Some(i);
    assert IntToDecimal(i) == r;
  }

  lemma PyIntOfNegativeInt(i: int)
    requires i < 0
    ensures PyInt(IntToDecimal(i)) == Some(i)
  {
    var n: nat := -i;
    var r := "-" + NatToDecimal(n);
    PyIntOfNegative(n);
    assert PyInt(r) == Some(i);
    assert IntToDecimal(i) == r;
  }

  lemma PyIntOfNegative(n: nat)
    requires n > 0
    ensures PyInt("-" + NatToDecimal(n)) == Some(-(n as int))
  {
    NegativeIsStripped(n);
    NegativeValue(n);
  }

  lemma NegativeIsStripped(n: nat)
    requires n > 0
    ensures Text.Strip("-" + NatToDecimal(n)) == "-" + NatToDecimal(n)
  {
    var digits := NatToDecimal(n);
    var r := "-" + digits;
    assert r[|r| - 1] == digits[|digits| - 1];
    Text.StripUnchanged(r);
  }

  lemma NegativeValue(n: nat)
    requires n > 0
    ensures SignedValue("-" + NatToDecimal(n)) == Some(-(n as int))
  {
    var digits := NatToDecimal(n);
    var r := "-" + digits;
    assert r[1..] == digits;
    DigitsAreGroups(digits);
    DecimalRoundTrip(n);
  }

  lemma DigitsAreGroups(s: string)
    requires IsDigits(s)
    ensures IsDigitGroups(s) && GroupedValue(s) == DecimalValue(s)
  {
    GroupedValueOfDigits(s);
  }

  /** An all-digit string is read by `int()` as the value of its digits. */
  lemma PyIntOfDigits(s: string)
    requires IsDigits(s)
    ensures PyInt(s) == Some(DecimalValue(s))
  {
    Text.StripUnchanged(s);
    DigitsAreGroups(s);
  }
}
