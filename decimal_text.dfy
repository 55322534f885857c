/** Decimal rendering of integers, as Python's `format(n, "n")` produces it
    under the C locale (no digit grouping), and the parser that reads it
    back. */
module DecimalText {

  predicate IsDigit(c: char) {
    '0' <= c <= '9'
  }

  predicate AllDigits(s: string) {
    forall i :: 0 <= i < |s| ==> IsDigit(s[i])
  }

  /** A canonical decimal numeral: at least one digit, no leading zero. */
  predicate IsNumeral(s: string) {
    |s| >= 1 && AllDigits(s) && (s[0] == '0' ==> |s| == 1)
  }

  function DigitValue(c: char): (d: nat)
    requires IsDigit(c)
    ensures d < 10
  {
    c as int - '0' as int
  }

  function DigitChar(d: nat): (c: char)
    requires d < 10
    ensures IsDigit(c) && DigitValue(c) == d
  {
    ('0' as int + d) as char
  }

  /** The decimal digits of `n`, most significant first. */
  function DecimalDigits(n: nat): (s: string)
    ensures IsNumeral(s)
    ensures s[0] == '0' ==> n == 0
  {
    if n < 10 then [DigitChar(n)] else DecimalDigits(n / 10) + [DigitChar(n % 10)]
  }

  /** The value of a string of decimal digits. */
  function ParseDigits(s: string): (n: nat)
    requires AllDigits(s)
  {
    if s == [] then 0 else 10 * ParseDigits(s[..|s| - 1]) + DigitValue(s[|s| - 1])
  }

  /** An optionally signed canonical numeral; zero carries no sign. */
  predicate IsDecimalText(s: string) {
    if |s| >= 1 && s[0] == '-' then IsNumeral(s[1..]) && s[1] != '0' else IsNumeral(s)
  }

  /** Reads back an optionally signed numeral. */
  function ParseDecimal(s: string): int
    requires IsDecimalText(s)
  {
    if s[0] == '-' then 0 - ParseDigits(s[1..]) as int else ParseDigits(s)
  }

  /** `s` is decimal text whose value is `v`. */
  predicate ReadsAs(s: string, v: int) {
    IsDecimalText(s) && ParseDecimal(s) == v
  }

  lemma {:induction false} ParseDecimalDigits(n: nat)
    ensures ParseDigits(DecimalDigits(n)) == n
  {
    var s := DecimalDigits(n);
    if n >= 10 {
      assert s[..|s| - 1] == DecimalDigits(n / 10);
      ParseDecimalDigits(n / 10);
    }
  }

  /** Python's `f"{n:n}"` for an `int` under the C locale: the text reads
      back as `n`. */
  function DecimalString(n: int): (s: string)
    ensures ReadsAs(s, n)
    ensures s[0] == '-' <==> n < 0
  {
    if n < 0 then
      var s := "-" + DecimalDigits(-n);
      assert s[1..] == DecimalDigits(-n);
      ParseDecimalDigits(-n);
      s
    else
      ParseDecimalDigits(n);
      DecimalDigits(n)
  }

  /** A non-empty numeral is at least its leading digit. */
  lemma {:induction false} ParseAtLeastLeadingDigit(s: string)
    requires |s| >= 1 && AllDigits(s)
    ensures ParseDigits(s) >= DigitValue(s[0])
  {
    if |s| > 1 {
      ParseAtLeastLeadingDigit(s[..|s| - 1]);
    }
  }

  /** Every canonical numeral is the rendering of its own value. */
  lemma {:induction false} DecimalDigitsOfParse(s: string)
    requires IsNumeral(s)
    ensures DecimalDigits(ParseDigits(s)) == s
  {
    var init, last := s[..|s| - 1], s[|s| - 1];
    var n := ParseDigits(s);
    if |s| == 1 {
      assert DigitChar(DigitValue(last)) == last;
    } else {
      ParseAtLeastLeadingDigit(init);
      assert n / 10 == ParseDigits(init) && n % 10 == DigitValue(last);
      DecimalDigitsOfParse(init);
      assert DigitChar(DigitValue(last)) == last;
      assert s == init + [last];
    }
  }

  /** The text of a value is unique: whatever decimal text reads as `v` is
      the rendering of `v`. */
  lemma DecimalStringUnique(s: string, v: int)
    requires ReadsAs(s, v)
    ensures s == DecimalString(v)
  {
    if s[0] == '-' {
      ParseAtLeastLeadingDigit(s[1..]);
      DecimalDigitsOfParse(s[1..]);
      assert s == "-" + s[1..];
    } else {
      DecimalDigitsOfParse(s);
    }
  }
}
