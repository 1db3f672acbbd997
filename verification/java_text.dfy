/**
 * The few pieces of java.lang.String and java.lang.Long behaviour the core relies on:
 * String.isBlank, ASCII case mapping and Long.toString.
 */
module JavaText {

  /** Character.isWhitespace: the Unicode space, line and paragraph separators except the
      non-breaking ones, plus the ASCII controls TAB, LF, VT, FF, CR and FS..US. */
  predicate IsWhitespace(c: char)
  {
    var u := c as int;
    || u == 0x20 || (0x09 <= u <= 0x0D) || (0x1C <= u <= 0x1F)
    || u == 0x1680 || (0x2000 <= u <= 0x2006) || (0x2008 <= u <= 0x200A)
    || u == 0x2028 || u == 0x2029 || u == 0x205F || u == 0x3000
  }

  /** String.isBlank: empty, or whitespace only. */
  predicate IsBlank(s: string)
  {
    forall i | 0 <= i < |s| :: IsWhitespace(s[i])
  }

  function LowerChar(c: char): char
  {
    if 'A' <= c <= 'Z' then (c as int + 32) as char else c
  }

  function UpperChar(c: char): char
  {
    if 'a' <= c <= 'z' then (c as int - 32) as char else c
  }

  /** String.toLowerCase and SQL lower(), restricted to ASCII letters. */
  function ToLowerCase(s: string): string
  {
    seq(|s|, i requires 0 <= i < |s| => LowerChar(s[i]))
  }

  /** String.toUpperCase, restricted to ASCII letters. */
  function ToUpperCase(s: string): string
  {
    seq(|s|, i requires 0 <= i < |s| => UpperChar(s[i]))
  }

  /** Lower-casing forgets which case a letter had: an upper-cased or a lower-cased
      string lower-cases to the same string as the original. */
  lemma LowerForgetsCase(s: string)
    ensures ToLowerCase(ToUpperCase(s)) == ToLowerCase(s)
    ensures ToLowerCase(ToLowerCase(s)) == ToLowerCase(s)
  {
  }

  /** Case mapping neither creates nor removes blank strings. */
  lemma CaseKeepsBlank(s: string)
    ensures IsBlank(ToUpperCase(s)) == IsBlank(s)
    ensures IsBlank(ToLowerCase(s)) == IsBlank(s)
  {
    assert forall i | 0 <= i < |s| :: IsWhitespace(ToUpperCase(s)[i]) == IsWhitespace(s[i]);
    assert forall i | 0 <= i < |s| :: IsWhitespace(ToLowerCase(s)[i]) == IsWhitespace(s[i]);
  }

  predicate IsDigit(c: char)
  {
    '0' <= c <= '9'
  }

  function DigitChar(d: int): (c: char)
    requires 0 <= d < 10
    ensures IsDigit(c)
  {
    ('0' as int + d) as char
  }

  function DigitValue(c: char): (d: int)
    requires IsDigit(c)
    ensures 0 <= d < 10 && DigitChar(d) == c
  {
    c as int - '0' as int
  }

  predicate AllDigits(s: string)
  {
    forall i | 0 <= i < |s| :: IsDigit(s[i])
  }

  /** The decimal digits of a non-negative number, most significant first, no leading zero. */
  function NatToString(n: nat): (s: string)
    ensures |s| >= 1 && AllDigits(s)
    ensures |s| > 1 ==> s[0] != '0'
    decreases n
  {
    if n < 10 then [DigitChar(n)] else NatToString(n / 10) + [DigitChar(n % 10)]
  }

  /** The number a string of decimal digits denotes. */
  function ParseDigits(s: string): nat
    requires AllDigits(s)
    decreases |s|
  {
    if s == [] then 0 else ParseDigits(s[..|s| - 1]) * 10 + DigitValue(s[|s| - 1])
  }

  lemma {:induction false} ParseNatToString(n: nat)
    ensures ParseDigits(NatToString(n)) == n
    decreases n
  {
    if n >= 10 {
      var s := NatToString(n / 10);
      var t := s + [DigitChar(n % 10)];
      assert t[..|t| - 1] == s;
      ParseNatToString(n / 10);
    }
  }

  /** Long.toString: an optional minus sign followed by the decimal digits. */
  function LongToString(n: int): string
  {
    if n < 0 then "-" + NatToString(-n) else NatToString(n)
  }

  /** Different numbers are written differently, so the text names the number. */
  lemma LongToStringInjective(a: int, b: int)
    requires LongToString(a) == LongToString(b)
    ensures a == b
  {
    var s := LongToString(a);
    if a < 0 && b < 0 {
      assert NatToString(-a) == s[1..] == NatToString(-b);
      ParseNatToString(-a);
      ParseNatToString(-b);
    } else if a >= 0 && b >= 0 {
      ParseNatToString(a);
      ParseNatToString(b);
    }
  }
}
