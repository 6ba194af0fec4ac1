/**
 * Unsigned decimal text, as written by `snprintf("%lu")` and read back by
 * `strtoul(s, NULL, 10)`. Used wherever the kernel stores a number in metadata
 * or in a database row.
 */
module Decimal {

  predicate IsDigit(c: char)
  {
    '0' <= c <= '9'
  }

  function DigitChar(d: nat): (c: char)
    requires d < 10
    ensures IsDigit(c) && c as int - '0' as int == d
  {
    ('0' as int + d) as char
  }

  /** The shortest decimal spelling of n: no sign, no leading zero. */
  function Format(n: nat): (s: string)
    ensures |s| > 0 && forall k :: 0 <= k < |s| ==> IsDigit(s[k])
    ensures s[0] == '0' ==> n == 0 && s == "0"
  {
    if n < 10 then [DigitChar(n)] else Format(n / 10) + [DigitChar(n % 10)]
  }

  /** The value of a run of decimal digits. */
  function Value(s: string): (n: nat)
    requires forall k :: 0 <= k < |s| ==> IsDigit(s[k])
  {
    if s == [] then 0
    else
      assert IsDigit(s[|s| - 1]);
      10 * Value(s[..|s| - 1]) + (s[|s| - 1] as int - '0' as int)
  }

  /** The longest prefix of s made of digits (where `strtoul` stops). */
  function DigitPrefix(s: string): (p: string)
    ensures p <= s
    ensures forall k :: 0 <= k < |p| ==> IsDigit(p[k])
    ensures |p| < |s| ==> !IsDigit(s[|p|])
  {
    if s == [] || !IsDigit(s[0]) then [] else [s[0]] + DigitPrefix(s[1..])
  }

  /** ULONG_MAX of an LP64 platform, where `unsigned long` has 64 bits. */
  const ULongMax: nat := 0xFFFF_FFFF_FFFF_FFFF

  /** The characters `isspace` accepts in the C locale: the blank, and tab,
   *  newline, vertical tab, form feed and carriage return (codes 9 to 13). */
  predicate IsSpace(c: char)
  {
    c == ' ' || '\t' <= c <= '\r'
  }

  /** s without its leading white space. */
  function SkipSpace(s: string): (t: string)
    ensures t <= s || (|t| <= |s| && t == s[|s| - |t|..])
    ensures t != [] ==> !IsSpace(t[0])
    ensures (s == [] || !IsSpace(s[0])) ==> t == s
  {
    if s != [] && IsSpace(s[0]) then SkipSpace(s[1..]) else s
  }

  /** `strtoul(s, NULL, 10)`: leading white space is skipped, then an optional
   *  sign, then the longest run of digits is read. A value beyond ULONG_MAX
   *  saturates at ULONG_MAX; otherwise a '-' negates it modulo 2^64; no
   *  digits at all read as 0. */
  function Parse(s: string): (n: nat)
    ensures n <= ULongMax
  {
    Signed(SkipSpace(s))
  }

  /** `strtoul` after the white space: the sign and the digits. */
  function Signed(t: string): (n: nat)
    ensures n <= ULongMax
  {
    var signed := t != [] && (t[0] == '-' || t[0] == '+');
    var v := Value(DigitPrefix(if signed then t[1..] else t));
    if v > ULongMax then ULongMax
    else if signed && t[0] == '-' && v > 0 then ULongMax + 1 - v
    else v
  }

  /** A run of digits reads as its value when an `unsigned long` holds it,
   *  with or without a '+'. */
  lemma SignedDigits(d: string)
    requires d != [] && forall k :: 0 <= k < |d| ==> IsDigit(d[k])
    requires Value(d) <= ULongMax
    ensures Signed(d) == Value(d) && Signed("+" + d) == Value(d)
  {
    assert d[0] != '-' && d[0] != '+';
    assert ("+" + d)[1..] == d;
    DigitPrefixOfDigits(d);
  }

  /** The digits of a number an `unsigned long` holds read back as it, with
   *  or without a '+'. */
  lemma SignedFormat(n: nat)
    requires n <= ULongMax
    ensures Signed(Format(n)) == n && Signed("+" + Format(n)) == n
  {
    ValueOfFormat(n);
    SignedDigits(Format(n));
  }

  lemma {:induction false} DigitPrefixOfDigits(s: string)
    requires forall k :: 0 <= k < |s| ==> IsDigit(s[k])
    ensures DigitPrefix(s) == s
    decreases |s|
  {
    if s != [] {
      DigitPrefixOfDigits(s[1..]);
    }
  }

  lemma {:induction false} ValueOfFormat(n: nat)
    ensures Value(Format(n)) == n
    decreases n
  {
    if n >= 10 {
      ValueOfFormat(n / 10);
      var s := Format(n);
      assert s[..|s| - 1] == Format(n / 10);
    }
  }

  /** Reading back what was written gives the number that was written, for
   *  every number an `unsigned long` holds. */
  lemma ParseFormat(n: nat)
    requires n <= ULongMax
    ensures Parse(Format(n)) == n
  {
    SignedFormat(n);
  }

  /** Two numbers with the same spelling are equal. */
  lemma FormatInjective(m: nat, n: nat)
    ensures Format(m) == Format(n) ==> m == n
  {
    ValueOfFormat(m);
    ValueOfFormat(n);
  }

  /** Text without digits reads as 0. */
  lemma ParseNoDigits(s: string)
    requires forall k :: 0 <= k < |s| ==> !IsDigit(s[k]) && s[k] != '-' && s[k] != '+' && !IsSpace(s[k])
    ensures Parse(s) == 0
  {
  }

  lemma {:induction false} SkipBlanks(blanks: string, t: string)
    requires forall k :: 0 <= k < |blanks| ==> IsSpace(blanks[k])
    requires t != [] && !IsSpace(t[0])
    ensures SkipSpace(blanks + t) == t
    decreases |blanks|
  {
    if blanks != [] {
      assert (blanks + t)[1..] == blanks[1..] + t;
      SkipBlanks(blanks[1..], t);
    }
  }

  /** Leading white space and a '+' sign are skipped. */
  lemma ParseSkipsSpaceAndPlus(blanks: string, n: nat)
    requires n <= ULongMax && forall k :: 0 <= k < |blanks| ==> IsSpace(blanks[k])
    ensures Parse(blanks + Format(n)) == n && Parse(blanks + "+" + Format(n)) == n
  {
    var digits := Format(n);
    assert blanks + "+" + digits == blanks + ("+" + digits);
    SkipBlanks(blanks, digits);
    SkipBlanks(blanks, "+" + digits);
    SignedFormat(n);
  }

  /** A '-' negates modulo 2^64, so "-1" reads as ULONG_MAX. */
  lemma ParseNegates(n: nat)
    requires 0 < n <= ULongMax
    ensures Parse("-" + Format(n)) == ULongMax + 1 - n
  {
    var s := "-" + Format(n);
    assert SkipSpace(s) == s && s[1..] == Format(n);
    DigitPrefixOfDigits(Format(n));
    ValueOfFormat(n);
  }

  /** A number too large for an `unsigned long` saturates at ULONG_MAX, with
   *  or without a '-'. */
  lemma ParseSaturates(n: nat)
    requires n > ULongMax
    ensures Parse(Format(n)) == ULongMax && Parse("-" + Format(n)) == ULongMax
  {
    var s := "-" + Format(n);
    assert SkipSpace(s) == s && s[1..] == Format(n);
    assert SkipSpace(Format(n)) == Format(n);
    DigitPrefixOfDigits(Format(n));
    ValueOfFormat(n);
  }
}
