/** Decimal rendering of non-negative integers as `Int32.ToString()` and the integral
    part of the "F6" format write them (invariant culture), its inverse, and the ASCII
    subset of UTF-8 that `StreamWriter` uses for such text. */
module Text {
  import opened Basics

  predicate IsDigit(c: char) {
    '0' <= c <= '9'
  }

  predicate AllDigits(s: string) {
    forall i :: 0 <= i < |s| ==> IsDigit(s[i])
  }

  function DigitChar(d: nat): (c: char)
    requires d < 10
    ensures IsDigit(c)
  {
    ('0' as int + d) as char
  }

  function DigitValue(c: char): (d: nat)
    requires IsDigit(c)
    ensures d < 10 && DigitChar(d) == c
  {
    c as int - '0' as int
  }

  /** The decimal digits of `n`, most significant first, with no leading zero. */
  function NatToString(n: nat): (s: string)
    ensures |s| > 0 && AllDigits(s)
    ensures |s| > 1 ==> s[0] != '0'
  {
    if n < 10 then [DigitChar(n)] else NatToString(n / 10) + [DigitChar(n % 10)]
  }

  /** A string of digits contains no other character. */
  lemma DigitsExclude(s: string, c: char)
    requires AllDigits(s) && !IsDigit(c)
    ensures c !in s
  {
  }

  /** The value of a string of decimal digits. */
  function ParseNat(s: string): nat
    requires AllDigits(s)
  {
    if s == [] then 0 else ParseNat(s[..|s| - 1]) * 10 + DigitValue(s[|s| - 1])
  }

  lemma ParseNatAppendDigit(s: string, d: nat)
    requires AllDigits(s) && d < 10
    ensures AllDigits(s + [DigitChar(d)])
    ensures ParseNat(s + [DigitChar(d)]) == ParseNat(s) * 10 + d
  {
    assert (s + [DigitChar(d)])[..|s|] == s;
  }

  /** Reading back a rendered number gives the number. */
  lemma {:induction false} ParseNatToString(n: nat)
    ensures ParseNat(NatToString(n)) == n
  {
    if n < 10 {
      assert NatToString(n)[..0] == [];
    } else {
      ParseNatToString(n / 10);
      ParseNatAppendDigit(NatToString(n / 10), n % 10);
    }
  }

  /** Distinct numbers are rendered as distinct strings. */
  lemma NatToStringInjective(m: nat, n: nat)
    requires NatToString(m) == NatToString(n)
    ensures m == n
  {
    ParseNatToString(m);
    ParseNatToString(n);
  }

  /** `prefix + "_" + x + suffix` determines `x` when prefix and suffix are fixed. */
  lemma InfixDetermined(prefix: string, x: string, y: string, suffix: string)
    requires prefix + "_" + x + suffix == prefix + "_" + y + suffix
    ensures x == y
  {
    var a := prefix + "_" + x + suffix;
    var b := prefix + "_" + y + suffix;
    assert |x| == |y|;
    assert a[|prefix| + 1..|prefix| + 1 + |x|] == x;
    assert b[|prefix| + 1..|prefix| + 1 + |y|] == y;
  }

  /** `prefix + suffix` differs from `prefix + "_" + x + suffix` when `suffix` starts with '.'. */
  lemma PlainDiffersFromSuffixed(prefix: string, x: string, suffix: string)
    requires |suffix| > 0 && suffix[0] == '.'
    ensures prefix + suffix != prefix + "_" + x + suffix
  {
    assert (prefix + suffix)[|prefix|] == '.';
    assert (prefix + "_" + x + suffix)[|prefix|] == '_';
  }

  predicate IsAscii(s: string) {
    forall i :: 0 <= i < |s| ==> s[i] as int < 128
  }

  /** UTF-8 encoding of ASCII text: one byte per character. */
  function AsciiBytes(s: string): (b: seq<byte>)
    requires IsAscii(s)
    ensures |b| == |s|
  {
    if s == [] then [] else [s[0] as int] + AsciiBytes(s[1..])
  }

  /** UTF-8 decoding of bytes below 128. */
  function AsciiText(b: seq<byte>): (s: string)
    requires forall i :: 0 <= i < |b| ==> b[i] < 128
    ensures |s| == |b|
  {
    if b == [] then [] else [b[0] as char] + AsciiText(b[1..])
  }

  /** Decoding what was encoded gives the text back. */
  lemma {:induction false} AsciiRoundTrip(s: string)
    requires IsAscii(s)
    ensures forall i :: 0 <= i < |AsciiBytes(s)| ==> AsciiBytes(s)[i] < 128
    ensures AsciiText(AsciiBytes(s)) == s
  {
    if s != [] {
      AsciiRoundTrip(s[1..]);
    }
  }
}
