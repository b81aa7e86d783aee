/** Go strings as the byte sequences they are: the byte-wise order that
    Go's `<` on strings uses, and decimal rendering of integers as done by
    `fmt`'s `%d` verb and `strconv.Itoa`. */
module GoStrings {

  /** One byte of a Go string. */
  type byte = b: int | 0 <= b < 0x100

  /** A Go string: an immutable sequence of bytes (no encoding is assumed). */
  type GoString = seq<byte>

  /** The bytes of an ASCII literal, for writing Go string constants. */
  function Ascii(s: string): GoString
    requires forall i :: 0 <= i < |s| ==> s[i] as int < 0x80
  {
    seq(|s|, i requires 0 <= i < |s| => s[i] as int)
  }

  // ---------------------------------------------------------------------
  // Byte-wise lexicographic order (Go's `a < b` on strings)
  // ---------------------------------------------------------------------

  /** `a < b` on Go strings: the first differing byte decides, and a proper
      prefix is smaller than the longer string. */
  predicate Less(a: GoString, b: GoString)
    decreases |a|
  {
    if |a| == 0 then |b| != 0
    else if |b| == 0 then false
    else if a[0] != b[0] then a[0] < b[0]
    else Less(a[1..], b[1..])
  }

  lemma {:induction false} LessIrreflexive(a: GoString)
    ensures !Less(a, a)
    decreases |a|
  {
    if |a| > 0 {
      LessIrreflexive(a[1..]);
    }
  }

  lemma {:induction false} LessTransitive(a: GoString, b: GoString, c: GoString)
    requires Less(a, b) && Less(b, c)
    ensures Less(a, c)
    decreases |a|
  {
    if |a| > 0 && a[0] == b[0] && b[0] == c[0] {
      LessTransitive(a[1..], b[1..], c[1..]);
    }
  }

  /** Go's string order is total: exactly one of a < b, a == b, b < a. */
  lemma {:induction false} LessTrichotomy(a: GoString, b: GoString)
    ensures Less(a, b) || a == b || Less(b, a)
    ensures !(Less(a, b) && Less(b, a))
    decreases |a|
  {
    if |a| > 0 && |b| > 0 && a[0] == b[0] {
      LessTrichotomy(a[1..], b[1..]);
      if a[1..] == b[1..] {
        assert a == [a[0]] + a[1..] && b == [b[0]] + b[1..];
      }
    }
  }

  // ---------------------------------------------------------------------
  // Decimal rendering and its inverse
  // ---------------------------------------------------------------------

  const Zero: byte := 48
  const Minus: byte := 45

  predicate IsDigit(b: byte) {
    Zero <= b < Zero + 10
  }

  /** Decimal digits of n, most significant first, without leading zeros. */
  function Digits(n: nat): (r: GoString)
    ensures |r| >= 1
    ensures forall i :: 0 <= i < |r| ==> IsDigit(r[i])
    ensures r[0] == Zero ==> n == 0
    ensures n < 10 <==> |r| == 1
    decreases n
  {
    if n < 10 then [Zero + n] else Digits(n / 10) + [Zero + n % 10]
  }

  /** `%d` / `strconv.Itoa`: a minus sign before the digits of a negative number. */
  function FormatInt(n: int): GoString {
    if n < 0 then [Minus] + Digits(-n) else Digits(n)
  }

  /** The value of a string of decimal digits, read most significant first. */
  function DigitsValue(s: GoString): int
    decreases |s|
  {
    if s == [] then 0 else DigitsValue(s[..|s| - 1]) * 10 + (s[|s| - 1] - Zero)
  }

  /** The inverse of FormatInt on the strings it produces; not a general parser. */
  function ParseInt(s: GoString): int {
    if |s| > 0 && s[0] == Minus then -DigitsValue(s[1..]) else DigitsValue(s)
  }

  lemma {:induction false} DigitsRoundTrip(n: nat)
    ensures DigitsValue(Digits(n)) == n
    decreases n
  {
    if n >= 10 {
      DigitsRoundTrip(n / 10);
      var d := Digits(n / 10) + [Zero + n % 10];
      assert d[..|d| - 1] == Digits(n / 10);
    }
  }

  /** Reading back a rendered integer gives the integer. */
  lemma FormatIntRoundTrip(n: int)
    ensures ParseInt(FormatInt(n)) == n
  {
    if n < 0 {
      DigitsRoundTrip(-n);
      assert FormatInt(n)[1..] == Digits(-n);
    } else {
      DigitsRoundTrip(n);
    }
  }

  /** Distinct integers render as distinct strings. */
  lemma FormatIntInjective(m: int, n: int)
    requires FormatInt(m) == FormatInt(n)
    ensures m == n
  {
    FormatIntRoundTrip(m);
    FormatIntRoundTrip(n);
  }
}
