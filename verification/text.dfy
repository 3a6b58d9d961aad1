/**
 * The pieces of Java string handling the loader relies on, restricted to ASCII:
 * `%x` and decimal formatting of integers, prefix/suffix tests, lower-casing,
 * blank tests and `String.compareTo`.
 */
module Text {

  /** The digit character for `d` in bases up to 16, lower-case as `%x` formats it. */
  function DigitChar(d: nat): (c: char)
    requires d < 16
  {
    if d < 10 then (48 + d) as char else (97 + d - 10) as char
  }

  predicate IsDigitIn(c: char, base: nat)
  {
    ('0' <= c <= '9' && (c as int) - 48 < base) || ('a' <= c <= 'f' && (c as int) - 87 < base)
  }

  /** The value of a digit character. */
  function DigitValue(c: char): (d: nat)
    requires IsDigitIn(c, 16)
    ensures d < 16
  {
    if c <= '9' then (c as int) - 48 else (c as int) - 87
  }

  /**
   * `v` written in `base` (10 or 16) with no leading zeros and no sign: Java's
   * `Integer.toString` for a non-negative value, and its `%x` for one below 2^31.
   */
  function Digits(v: nat, base: nat): (t: string)
    requires base == 10 || base == 16
    ensures |t| >= 1
    ensures forall i :: 0 <= i < |t| ==> IsDigitIn(t[i], base)
    ensures t[0] == '0' <==> v == 0
    decreases v
  {
    if v < base then [DigitChar(v)] else Digits(v / base, base) + [DigitChar(v % base)]
  }

  /** Reads a string of digits in `base` back as a number. */
  function ParseDigits(t: string, base: nat): nat
    requires base == 10 || base == 16
    requires forall i :: 0 <= i < |t| ==> IsDigitIn(t[i], base)
    decreases |t|
  {
    if t == [] then 0
    else
      var last := t[|t| - 1];
      assert IsDigitIn(last, base);
      ParseDigits(t[..|t| - 1], base) * base + DigitValue(last)
  }

  /** Java's `%x` of a non-negative value: lower-case hexadecimal, unpadded. */
  function Hex(v: nat): string
  {
    Digits(v, 16)
  }

  /** Java's string conversion of an `int`: an optional minus sign, then decimal digits. */
  function Decimal(v: int): (t: string)
    ensures |t| >= 1 && (t[0] == '-' <==> v < 0)
  {
    if v < 0 then "-" + Digits(-v, 10) else Digits(v, 10)
  }

  /** Formatting a number and reading it back gives the number: the digits are a faithful notation. */
  lemma {:induction false} ParseDigitsOfDigits(v: nat, base: nat)
    requires base == 10 || base == 16
    ensures ParseDigits(Digits(v, base), base) == v
    decreases v
  {
    var t := Digits(v, base);
    if v >= base {
      ParseDigitsOfDigits(v / base, base);
      assert t[..|t| - 1] == Digits(v / base, base);
    }
  }

  /** Two numbers with the same decimal text are equal. */
  lemma DecimalInjective(a: int, b: int)
    requires Decimal(a) == Decimal(b)
    ensures a == b
  {
    if a < 0 {
      assert Decimal(a)[1..] == Digits(-a, 10) && Decimal(b)[1..] == Digits(-b, 10);
      DigitsInjective(-a, -b, 10);
    } else {
      DigitsInjective(a, b, 10);
    }
  }

  /** Two numbers with the same digits in one base are equal. */
  lemma DigitsInjective(x: nat, y: nat, base: nat)
    requires base == 10 || base == 16
    requires Digits(x, base) == Digits(y, base)
    ensures x == y
  {
    ParseDigitsOfDigits(x, base);
    ParseDigitsOfDigits(y, base);
  }

  /** The length of the run of hexadecimal digits that `t` starts with. */
  function HexDigitRun(t: string): (n: nat)
    ensures n <= |t|
    decreases |t|
  {
    if t == [] || !IsDigitIn(t[0], 16) then 0 else 1 + HexDigitRun(t[1..])
  }

  /** The run is all digits, and what follows it is not one. */
  lemma {:induction false} HexDigitRunDigits(t: string)
    ensures forall i :: 0 <= i < HexDigitRun(t) ==> IsDigitIn(t[i], 16)
    ensures HexDigitRun(t) < |t| ==> !IsDigitIn(t[HexDigitRun(t)], 16)
    decreases |t|
  {
    if t != [] && IsDigitIn(t[0], 16) {
      HexDigitRunDigits(t[1..]);
      forall i | 1 <= i < HexDigitRun(t)
        ensures IsDigitIn(t[i], 16)
      {
        assert t[i] == t[1..][i - 1];
      }
    }
  }

  /** Digits followed by nothing or by a non-digit: the run is exactly the digits. */
  lemma {:induction false} HexDigitRunOf(d: string, rest: string)
    requires forall i :: 0 <= i < |d| ==> IsDigitIn(d[i], 16)
    requires rest == [] || !IsDigitIn(rest[0], 16)
    ensures HexDigitRun(d + rest) == |d|
    decreases |d|
  {
    if d != [] {
      assert (d + rest)[1..] == d[1..] + rest;
      HexDigitRunOf(d[1..], rest);
    } else {
      assert d + rest == rest;
    }
  }

  /** A number below 256 takes at most two hexadecimal digits. */
  lemma HexOfByte(v: nat)
    requires v < 256
    ensures 1 <= |Hex(v)| <= 2
  {
    if v >= 16 {
      assert Digits(v / 16, 16) == [DigitChar(v / 16)];
    }
  }

  predicate StartsWith(s: string, prefix: string)
  {
    |prefix| <= |s| && s[..|prefix|] == prefix
  }

  predicate EndsWith(s: string, suffix: string)
  {
    |suffix| <= |s| && s[|s| - |suffix|..] == suffix
  }

  /** `Character.toLowerCase` on ASCII: only 'A'..'Z' change. */
  function LowerChar(c: char): char
  {
    if 'A' <= c <= 'Z' then (c as int + 32) as char else c
  }

  /** `String.toLowerCase`, restricted to ASCII letters. */
  function ToLower(s: string): (r: string)
    ensures |r| == |s| && forall i :: 0 <= i < |s| ==> r[i] == LowerChar(s[i])
  {
    seq(|s|, i requires 0 <= i < |s| => LowerChar(s[i]))
  }

  /** `Character.isWhitespace` on ASCII: tab, line feed, vertical tab, form feed, CR, the four separators and space. */
  predicate IsWhitespace(c: char)
  {
    9 <= c as int <= 13 || 28 <= c as int <= 32
  }

  /** `String.isBlank`: empty or whitespace only. */
  predicate IsBlank(s: string)
  {
    forall i :: 0 <= i < |s| ==> IsWhitespace(s[i])
  }

  /** `Character.isLetterOrDigit` on ASCII. */
  predicate IsLetterOrDigit(code: int)
  {
    48 <= code <= 57 || 65 <= code <= 90 || 97 <= code <= 122
  }

  /**
   * The comparison `String.compareTo` performs, over sequences of character
   * codes: the difference of the first pair of elements that differ, or else
   * the difference of the lengths.
   */
  function LexCompare(a: seq<int>, b: seq<int>): int
    decreases |a|
  {
    if a == [] || b == [] then |a| - |b|
    else if a[0] != b[0] then a[0] - b[0]
    else LexCompare(a[1..], b[1..])
  }

  /** The character codes of a string. */
  function Codes(s: string): (r: seq<int>)
    ensures |r| == |s| && forall i :: 0 <= i < |s| ==> r[i] == s[i] as int
  {
    seq(|s|, i requires 0 <= i < |s| => s[i] as int)
  }

  /** `String.compareTo`. */
  function CompareStrings(a: string, b: string): int
  {
    LexCompare(Codes(a), Codes(b))
  }

  /** Swapping the arguments negates the comparison. */
  lemma {:induction false} LexCompareAntisymmetric(a: seq<int>, b: seq<int>)
    ensures LexCompare(a, b) == -LexCompare(b, a)
    decreases |a|
  {
    if a != [] && b != [] && a[0] == b[0] {
      LexCompareAntisymmetric(a[1..], b[1..]);
    }
  }

  /** The comparison is zero exactly on equal sequences. */
  lemma {:induction false} LexCompareZero(a: seq<int>, b: seq<int>)
    ensures LexCompare(a, b) == 0 <==> a == b
    decreases |a|
  {
    if a != [] && b != [] && a[0] == b[0] {
      LexCompareZero(a[1..], b[1..]);
      assert a == [a[0]] + a[1..] && b == [b[0]] + b[1..];
    }
  }

  /** "At most" under the comparison is transitive. */
  lemma {:induction false} LexCompareTransitive(a: seq<int>, b: seq<int>, c: seq<int>)
    requires LexCompare(a, b) <= 0 && LexCompare(b, c) <= 0
    ensures LexCompare(a, c) <= 0
    decreases |a|
  {
    if a != [] && b != [] && c != [] && a[0] == b[0] && b[0] == c[0] {
      LexCompareTransitive(a[1..], b[1..], c[1..]);
    }
  }
}
