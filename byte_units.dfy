/** Human-readable byte counts: the count is shown in the largest of TB, GB,
    MB and KB that it strictly exceeds, with one decimal, or else as the bare
    count followed by `B`. */
module ByteUnits {
  import opened PythonInts
  import opened DecimalText

  const KB: nat := 1024
  const MB: nat := KB * 1024
  const GB: nat := MB * 1024
  const TB: nat := GB * 1024

  lemma UnitsArePowersOf1024()
    ensures KB == Pow2(10) && MB == Pow2(20) && GB == Pow2(30) && TB == Pow2(40)
  {
    assert Pow2(5) == 32;
    Pow2Add(5, 5);
    Pow2Add(10, 10);
    Pow2Add(20, 10);
    Pow2Add(30, 10);
  }

  datatype Unit = Tera | Giga | Mega | Kilo | Byte {
    /** Bytes per unit. */
    function Scale(): nat {
      match this
      case Tera => TB
      case Giga => GB
      case Mega => MB
      case Kilo => KB
      case Byte => 1
    }

    function Suffix(): string {
      match this
      case Tera => "TB"
      case Giga => "GB"
      case Mega => "MB"
      case Kilo => "KB"
      case Byte => "B"
    }
  }

  /** The unit a count is shown in. */
  function ChooseUnit(n: int): (u: Unit)
    ensures u == Tera <==> TB < n
    ensures u == Giga <==> GB < n <= TB
    ensures u == Mega <==> MB < n <= GB
    ensures u == Kilo <==> KB < n <= MB
    ensures u == Byte <==> n <= KB
  {
    if n > TB then Tera
    else if n > GB then Giga
    else if n > MB then Mega
    else if n > KB then Kilo
    else Byte
  }

  /** `num / den` rounded to the nearest integer, ties to even: how the `:0.1f`
      rounds the exact value of a double to tenths. */
  function RoundHalfEven(num: nat, den: nat): (q: nat)
    requires den > 0
    ensures -(den as int) <= 2 * (num - q * den) <= den
    ensures 2 * (num - q * den) == den ==> q % 2 == 0
    ensures 2 * (num - q * den) == -(den as int) ==> q % 2 == 0
  {
    var q0, rem := num / den, num % den;
    assert num - q0 * den == rem;
    assert num - (q0 + 1) * den == rem - den;
    if 2 * rem < den then q0
    else if 2 * rem > den then q0 + 1
    else if q0 % 2 == 0 then q0
    else q0 + 1
  }

  /** How far apart two remainders against multiples of `d` lie. */
  lemma MultipleDifference(a: int, p: int, q: int, d: int)
    ensures (q - p) * d == (a - p * d) - (a - q * d)
  {
  }

  /** A multiple of `d` lying within `d` of zero is `-d`, `0` or `d`. */
  lemma MultipleWithinDivisor(x: int, d: int)
    requires 0 < d && -d <= x * d <= d
    ensures -1 <= x <= 1
  {
    assert (x - 1) * d == x * d - d;
    assert (-x - 1) * d == -(x * d) - d;
    MultipleBelowDivisor(x - 1, d);
    MultipleBelowDivisor(-x - 1, d);
  }

  /** Nearest-with-ties-to-even determines the rounded value. */
  lemma RoundHalfEvenUnique(num: nat, den: nat, q: int)
    requires den > 0
    requires -(den as int) <= 2 * (num - q * den) <= den
    requires 2 * (num - q * den) == den ==> q % 2 == 0
    requires 2 * (num - q * den) == -(den as int) ==> q % 2 == 0
    ensures q == RoundHalfEven(num, den)
  {
    var p := RoundHalfEven(num, den);
    var ep, eq := num - p * den, num - q * den;
    MultipleDifference(num, p, q, den);
    MultipleWithinDivisor(q - p, den);
    assert (q == p + 1 ==> ep - eq == den) && (q == p - 1 ==> eq - ep == den);
  }

  /** `s` is a numeral, a point and one digit, reading as `tenths` tenths. */
  predicate ReadsAsTenths(s: string, tenths: nat) {
    |s| >= 3 && s[|s| - 2] == '.' && IsNumeral(s[..|s| - 2]) && IsDigit(s[|s| - 1])
    && ParseDigits(s[..|s| - 2]) * 10 + DigitValue(s[|s| - 1]) == tenths
  }

  /** Python's `f"{n / scale:0.1f}"` when the quotient is an exact double:
      the quotient rounded half-to-even to tenths. */
  function OneDecimal(n: nat, scale: nat): (s: string)
    requires scale > 0
    ensures ReadsAsTenths(s, RoundHalfEven(10 * n, scale))
  {
    var tenths := RoundHalfEven(10 * n, scale);
    var whole := DecimalDigits(tenths / 10);
    var s := whole + "." + [DigitChar(tenths % 10)];
    assert s[..|s| - 2] == whole;
    ParseDecimalDigits(tenths / 10);
    s
  }

  /** The one-decimal text of a count is unique: whatever reads as its
      rounded tenths is its rendering. */
  lemma ReadsAsTenthsUnique(s: string, n: nat, scale: nat)
    requires scale > 0 && ReadsAsTenths(s, RoundHalfEven(10 * n, scale))
    ensures s == OneDecimal(n, scale)
  {
    var whole, last := s[..|s| - 2], s[|s| - 1];
    var tenths := RoundHalfEven(10 * n, scale);
    DecimalDigitsOfParse(whole);
    assert tenths / 10 == ParseDigits(whole) && tenths % 10 == DigitValue(last);
    assert DigitChar(DigitValue(last)) == last;
    assert s == whole + "." + [last];
  }

  /** `humanize_bytes`: the count in its unit followed by the unit's suffix.
      The scaled text is exact for counts up to 2**53, where the division by a
      power of 1024 loses nothing. */
  function HumanizeBytes(n: int): (s: string)
    requires n <= MAX_EXACT_INT
    ensures var u := ChooseUnit(n);
      |s| > |u.Suffix()| && s[|s| - |u.Suffix()|..] == u.Suffix()
    ensures ChooseUnit(n) == Byte ==> ReadsAs(s[..|s| - 1], n)
    ensures ChooseUnit(n) != Byte ==>
      ReadsAsTenths(s[..|s| - 2], RoundHalfEven(10 * n, ChooseUnit(n).Scale()))
  {
    var u := ChooseUnit(n);
    if u == Byte then
      var s := DecimalString(n) + "B";
      assert s[..|s| - 1] == DecimalString(n);
      s
    else
      var s := OneDecimal(n, u.Scale()) + u.Suffix();
      assert s[..|s| - 2] == OneDecimal(n, u.Scale());
      s
  }

  /** The text of a count is unique: any text ending in the chosen unit's
      suffix whose rest reads as the count (in bytes) or as its rounded
      tenths (in a larger unit) is the rendering of the count. */
  lemma HumanizeBytesUnique(s: string, n: int)
    requires n <= MAX_EXACT_INT
    requires var u := ChooseUnit(n);
      |s| > |u.Suffix()| && s[|s| - |u.Suffix()|..] == u.Suffix()
    requires ChooseUnit(n) == Byte ==> ReadsAs(s[..|s| - 1], n)
    requires ChooseUnit(n) != Byte ==>
      ReadsAsTenths(s[..|s| - 2], RoundHalfEven(10 * n, ChooseUnit(n).Scale()))
    ensures s == HumanizeBytes(n)
  {
    var u := ChooseUnit(n);
    if u == Byte {
      DecimalStringUnique(s[..|s| - 1], n);
      assert s == s[..|s| - 1] + "B";
    } else {
      ReadsAsTenthsUnique(s[..|s| - 2], n, u.Scale());
      assert s == s[..|s| - 2] + u.Suffix();
    }
  }

  /** A count above one unit rounds to at least 1.0 of it. */
  lemma TenthsAtLeastOne(n: int, scale: int, t: int)
    requires 0 < scale < n && 2 * (10 * n - t * scale) <= scale
    ensures 10 <= t
  {
    assert (19 - 2 * t) * scale == 19 * scale - 2 * (t * scale);
    MultipleBelowDivisor(19 - 2 * t, scale);
  }

  /** A count of at most 1024 units rounds to at most 1024.0 of them. */
  lemma TenthsAtMostFullUnit(n: int, scale: int, t: int)
    requires 0 < scale && n <= 1024 * scale && -scale <= 2 * (10 * n - t * scale)
    ensures t <= 10240
  {
    assert (2 * t - 20481) * scale == 2 * (t * scale) - 20481 * scale;
    MultipleBelowDivisor(2 * t - 20481, scale);
  }

  /** What a scaled text shows: the count in its unit to the nearest tenth,
      never below 1.0, and (below TB) never above 1024.0. */
  lemma ScaledTextRange(n: int)
    requires n <= MAX_EXACT_INT && ChooseUnit(n) != Byte
    ensures var u, t := ChooseUnit(n), RoundHalfEven(10 * n, ChooseUnit(n).Scale());
      -(u.Scale() as int) <= 2 * (10 * n - t * u.Scale()) <= u.Scale()
      && 10 <= t && (u != Tera ==> t <= 10240)
  {
    var u := ChooseUnit(n);
    var scale := u.Scale();
    var t := RoundHalfEven(10 * n, scale);
    TenthsAtLeastOne(n, scale, t);
    if u != Tera {
      assert n <= 1024 * scale;
      TenthsAtMostFullUnit(n, scale, t);
    }
  }

  /** The test vector (0 bytes is "0B"), and exactly 1 KB stays in bytes. */
  lemma HumanizeByteExamples()
    ensures HumanizeBytes(0) == "0B"
    ensures HumanizeBytes(1024) == "1024B"
  {
    assert DecimalDigits(0) == "0";
    assert DecimalDigits(1024) == "1024";
  }

  /** Just above 1 KB the count is shown as 1.0 KB, and 1280 (1.25 KB)
      rounds to the even tenth. */
  lemma HumanizeKilobyteExamples()
    ensures HumanizeBytes(1025) == "1.0KB"
    ensures HumanizeBytes(1280) == "1.2KB"
  {
    assert RoundHalfEven(10250, 1024) == 10;
    assert OneDecimal(1025, KB) == "1.0";
    assert RoundHalfEven(12800, 1024) == 12;
    assert OneDecimal(1280, KB) == "1.2";
  }
}
