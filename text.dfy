/**
  Character and string primitives of the Java standard library that the
  tornado-sweeper agent relies on: Character.getNumericValue, integer to
  decimal text (string concatenation of an int), String.replace of one
  character, String.startsWith, and splitting a line at a separator.
 */
module Text {

  /** A character that Character.isDigit accepts in the ASCII range. */
  predicate IsDigit(c: char) {
    '0' <= c <= '9'
  }

  /** The digit character for a value 0..9. */
  function DigitChar(d: int): (c: char)
    requires 0 <= d < 10
    ensures IsDigit(c) && c as int - '0' as int == d
  {
    ('0' as int + d) as char
  }

  /**
    Character.getNumericValue(int codePoint) for the ASCII code points:
    the decimal digits give 0..9, the Latin letters of either case give
    10..35 (as in radix 36), and every other code point gives -1.
   */
  function NumericValue(cp: int): (v: int)
    ensures -1 <= v <= 35
    ensures v == -1 <==> !(('0' as int <= cp <= '9' as int) || ('A' as int <= cp <= 'Z' as int) || ('a' as int <= cp <= 'z' as int))
    ensures '0' as int <= cp <= '9' as int ==> v == cp - '0' as int
    ensures 0 <= v <= 9 ==> '0' as int <= cp <= '9' as int
  {
    if '0' as int <= cp <= '9' as int then cp - '0' as int
    else if 'A' as int <= cp <= 'Z' as int then cp - 'A' as int + 10
    else if 'a' as int <= cp <= 'z' as int then cp - 'a' as int + 10
    else -1
  }

  /** The decimal digits of a natural number, most significant first. */
  function NatDigits(n: nat): (s: string)
    decreases n
  {
    if n < 10 then [DigitChar(n)] else NatDigits(n / 10) + [DigitChar(n % 10)]
  }

  /** Java's rendering of an int inside a string concatenation. */
  function Decimal(i: int): (s: string)
  {
    if i < 0 then "-" + NatDigits(-i) else NatDigits(i)
  }

  /** Reads back a string of decimal digits. */
  function ParseNat(s: string): int
    decreases |s|
  {
    if s == [] then 0 else ParseNat(s[..|s| - 1]) * 10 + (s[|s| - 1] as int - '0' as int)
  }

  /** Reads back an optionally signed decimal number. */
  function ParseInt(s: string): int
  {
    if |s| > 0 && s[0] == '-' then -ParseNat(s[1..]) else ParseNat(s)
  }

  lemma {:induction false} NatDigitsShape(n: nat)
    ensures |NatDigits(n)| > 0
    ensures forall i :: 0 <= i < |NatDigits(n)| ==> IsDigit(NatDigits(n)[i])
    ensures ParseNat(NatDigits(n)) == n
    decreases n
  {
    if n >= 10 {
      NatDigitsShape(n / 10);
      var s := NatDigits(n);
      assert s[..|s| - 1] == NatDigits(n / 10);
    }
  }

  /** Decimal text consists of digits after an optional '-', and reads back as the same int. */
  lemma DecimalRoundTrip(i: int)
    ensures |Decimal(i)| > 0
    ensures forall k :: 0 <= k < |Decimal(i)| ==> IsDigit(Decimal(i)[k]) || (k == 0 && Decimal(i)[k] == '-')
    ensures ParseInt(Decimal(i)) == i
  {
    if i < 0 {
      NatDigitsShape(-i);
      assert Decimal(i)[1..] == NatDigits(-i);
    } else {
      NatDigitsShape(i);
    }
  }

  /** Java's String.startsWith for a one-character prefix. */
  predicate StartsWith(s: string, c: char) {
    |s| > 0 && s[0] == c
  }

  /** Java's s.replace(c, "") : every occurrence of c removed. */
  function RemoveAll(s: string, c: char): (r: string)
    ensures c !in r
    ensures |r| <= |s|
    ensures c !in s ==> r == s
  {
    if s == [] then []
    else if s[0] == c then RemoveAll(s[1..], c)
    else [s[0]] + RemoveAll(s[1..], c)
  }

  /**
    The fields of a line separated by sep; a line without sep is a single
    field, and consecutive separators give empty fields.
   */
  function Split(s: string, sep: char): (r: seq<string>)
    ensures |r| > 0
    decreases |s|
  {
    if s == [] then [""]
    else
      var rest := Split(s[1..], sep);
      if s[0] == sep then [""] + rest else [[s[0]] + rest[0]] + rest[1..]
  }

  lemma {:induction false} SplitOne(a: string, sep: char)
    requires sep !in a
    ensures Split(a, sep) == [a]
    decreases |a|
  {
    if a != [] {
      SplitOne(a[1..], sep);
      assert [a[0]] + a[1..] == a;
    }
  }

  /** Splitting undoes joining a separator-free field onto the rest of a line. */
  lemma {:induction false} SplitCons(a: string, sep: char, b: string)
    requires sep !in a
    ensures Split(a + [sep] + b, sep) == [a] + Split(b, sep)
    decreases |a|
  {
    if a == [] {
      assert a + [sep] + b == [sep] + b;
      assert ([sep] + b)[1..] == b;
    } else {
      SplitCons(a[1..], sep, b);
      assert (a + [sep] + b)[1..] == a[1..] + [sep] + b;
      assert [a[0]] + a[1..] == a;
    }
  }
}
