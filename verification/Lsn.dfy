/** Log sequence numbers: text form, saturating successor. */
module Lsn {
  import opened Bytes

  function SaturatingAdd(a: u64, d: u64): u64 { if a + d <= U64_MAX then a + d else U64_MAX }

  // ---- PostgreSQL's X/Y text form ----

  /** `{:X}` of a digit. */
  function UpperDigit(d: nat): char
    requires d < 16
  {
    if d < 10 then '0' + d as char else 'A' + (d - 10) as char
  }

  function DigitValue(c: char): Option<nat> {
    if '0' <= c <= '9' then Some((c - '0') as nat)
    else if 'A' <= c <= 'F' then Some((c - 'A') as nat + 10)
    else if 'a' <= c <= 'f' then Some((c - 'a') as nat + 10)
    else None
  }

  function ToHex(n: nat): string {
    if n < 16 then [UpperDigit(n)] else ToHex(n / 16) + [UpperDigit(n % 16)]
  }

  /** Hexadecimal digits of any number, upper or lower case; None on another character or beyond 32 bits. */
  function ParseDigits(s: string): (r: Option<u32>) {
    if s == [] then Some(0)
    else
      var front, d := ParseDigits(s[..|s| - 1]), DigitValue(s[|s| - 1]);
      if front.None? || d.None? || front.value * 16 + d.value >= U32_MODULUS then None
      else Some(front.value * 16 + d.value)
  }

  /** `u32::from_str_radix(s, 16)`: one leading `+` is allowed, the empty string is not. */
  function FromStrRadix16(s: string): Option<u32> {
    if s == [] || s == "+" then None
    else if s[0] == '+' then ParseDigits(s[1..])
    else ParseDigits(s)
  }

  /** Position of the first slash, or the length. */
  function SlashAt(s: string): (i: nat)
    ensures i <= |s| && '/' !in s[..i] && (i < |s| ==> s[i] == '/')
  {
    if s == [] || s[0] == '/' then 0
    else
      assert s == [s[0]] + s[1..];
      1 + SlashAt(s[1..])
  }

  function FromPgStr(s: string): Option<u64> {
    var i := SlashAt(s);
    if i == |s| then None
    else
      var hi, lo := FromStrRadix16(s[..i]), FromStrRadix16(s[i + 1..]);
      if hi.None? || lo.None? then None else Some(hi.value * U32_MODULUS + lo.value)
  }

  function ToPgString(v: u64): string { ToHex(v / U32_MODULUS) + "/" + ToHex(v % U32_MODULUS) }

  /** The spelling the printer chooses: upper case, no sign, no leading zero. */
  predicate CanonicalHex(s: string) {
    && s != []
    && (forall i :: 0 <= i < |s| ==> UpperCase(s[i]))
    && (|s| > 1 ==> s[0] != '0')
  }

  predicate CanonicalLsn(s: string) {
    var i := SlashAt(s);
    i < |s| && CanonicalHex(s[..i]) && CanonicalHex(s[i + 1..])
  }

  predicate UpperCase(c: char) { '0' <= c <= '9' || 'A' <= c <= 'F' }

  lemma DigitRoundTrip(d: nat)
    requires d < 16
    ensures DigitValue(UpperDigit(d)) == Some(d) && UpperCase(UpperDigit(d))
    ensures UpperDigit(d) == '0' <==> d == 0
  {
  }

  lemma UpperRoundTrip(c: char)
    requires UpperCase(c)
    ensures DigitValue(c).Some? && DigitValue(c).value < 16 && UpperDigit(DigitValue(c).value) == c
  {
  }

  lemma {:induction false} HexCanonical(n: nat)
    ensures CanonicalHex(ToHex(n)) && (n > 0 ==> ToHex(n)[0] != '0')
  {
    hide UpperDigit, UpperCase;
    DigitRoundTrip(n % 16);
    if n >= 16 { HexCanonical(n / 16); }
  }

  lemma {:induction false} ParseHex(n: nat)
    requires n < U32_MODULUS
    ensures ParseDigits(ToHex(n)) == Some(n)
  {
    hide UpperDigit, DigitValue;
    var s := ToHex(n);
    DigitRoundTrip(n % 16);
    if n >= 16 {
      ParseHex(n / 16);
      assert s[..|s| - 1] == ToHex(n / 16);
    } else {
      assert s[..|s| - 1] == [];
    }
  }

  lemma {:induction false} HexOfDigits(s: string)
    requires CanonicalHex(s) && ParseDigits(s).Some?
    ensures ToHex(ParseDigits(s).value) == s && (s[0] != '0' ==> ParseDigits(s).value > 0)
  {
    hide UpperDigit, UpperCase, DigitValue;
    var front, c := s[..|s| - 1], s[|s| - 1];
    UpperRoundTrip(c);
    DigitRoundTrip(DigitValue(c).value);
    assert s == front + [c];
    if front == [] {
      assert ParseDigits(front) == Some(0);
    } else {
      HexOfDigits(front);
      HexStep(ParseDigits(front).value, DigitValue(c).value);
    }
  }

  lemma HexStep(n: nat, d: nat)
    requires n > 0 && d < 16
    ensures ToHex(n * 16 + d) == ToHex(n) + [UpperDigit(d)]
  {
    hide UpperDigit;
    assert (n * 16 + d) / 16 == n && (n * 16 + d) % 16 == d;
  }

  lemma FirstSlash(a: string, b: string)
    requires '/' !in a
    ensures SlashAt(a + "/" + b) == |a|
  {
    var s, i := a + "/" + b, SlashAt(a + "/" + b);
    assert s[|a|] == '/' && forall j :: 0 <= j < |a| ==> s[j] == a[j];
  }

  lemma CanonicalHasNoSlash(s: string)
    requires CanonicalHex(s)
    ensures '/' !in s && s[0] != '+' && FromStrRadix16(s) == ParseDigits(s)
  {
    hide ParseDigits;
  }

  /** Printing then parsing is the identity on every 64-bit position. */
  lemma PrintParse(v: u64)
    ensures FromPgStr(ToPgString(v)) == Some(v) && CanonicalLsn(ToPgString(v))
  {
    hide ParseDigits, ToHex, CanonicalHex, FromStrRadix16, SlashAt;
    var hi, lo := ToHex(v / U32_MODULUS), ToHex(v % U32_MODULUS);
    HexCanonical(v / U32_MODULUS);
    HexCanonical(v % U32_MODULUS);
    CanonicalHasNoSlash(hi);
    CanonicalHasNoSlash(lo);
    ParseHex(v / U32_MODULUS);
    ParseHex(v % U32_MODULUS);
    FirstSlash(hi, lo);
    assert ToPgString(v)[..|hi|] == hi && ToPgString(v)[|hi| + 1..] == lo;
  }

  /** A text that parses prints back as itself exactly when it is the canonical spelling; any other spelling
      prints as a text that parses to the same position. */
  lemma ParsePrintIff(s: string)
    requires FromPgStr(s).Some?
    ensures ToPgString(FromPgStr(s).value) == s <==> CanonicalLsn(s)
    ensures FromPgStr(ToPgString(FromPgStr(s).value)) == FromPgStr(s)
  {
    PrintParse(FromPgStr(s).value);
    if CanonicalLsn(s) { CanonicalPrints(s); }
  }

  lemma CanonicalPrints(s: string)
    requires FromPgStr(s).Some? && CanonicalLsn(s)
    ensures ToPgString(FromPgStr(s).value) == s
  {
    hide ParseDigits, ToHex, CanonicalHex, FromStrRadix16, SlashAt;
    var i := SlashAt(s);
    CanonicalHasNoSlash(s[..i]);
    CanonicalHasNoSlash(s[i + 1..]);
    HexOfDigits(s[..i]);
    HexOfDigits(s[i + 1..]);
    assert s == s[..i] + "/" + s[i + 1..];
  }

  // ---- which texts are positions ----

  const UPPER: string := "0123456789ABCDEF"
  const LOWER: string := "0123456789abcdef"

  /** The places of the two alphabets are what the digits are worth. */
  lemma DigitIff(c: char, d: nat)
    ensures DigitValue(c) == Some(d) <==> d < 16 && (c == UPPER[d] || c == LOWER[d])
  {
  }

  /** A character of one of the two alphabets, worth its place there. */
  ghost predicate IsDigit(c: char) { exists d :: 0 <= d < 16 && (c == UPPER[d] || c == LOWER[d]) }

  lemma IsDigitIff(c: char)
    ensures IsDigit(c) <==> DigitValue(c).Some?
  {
    hide DigitValue;
    if IsDigit(c) {
      var d :| 0 <= d < 16 && (c == UPPER[d] || c == LOWER[d]);
      DigitIff(c, d);
    }
    if DigitValue(c).Some? { DigitIff(c, DigitValue(c).value); }
  }

  ghost predicate AllHex(s: string) { forall i :: 0 <= i < |s| ==> IsDigit(s[i]) }

  function Worth(c: char): nat { if DigitValue(c).Some? then DigitValue(c).value else 0 }

  function Pow16(n: nat): (p: nat)
    ensures p > 0
  {
    if n == 0 then 1 else 16 * Pow16(n - 1)
  }

  /** The number a text of digits stands for, by the weight of each digit. */
  function HexValue(s: string): nat {
    if s == [] then 0 else Worth(s[0]) * Pow16(|s| - 1) + HexValue(s[1..])
  }

  lemma {:induction false} HexValueLast(s: string, c: char)
    ensures HexValue(s + [c]) == HexValue(s) * 16 + Worth(c)
  {
    hide Worth;
    var t := s + [c];
    if s == [] {
      assert t[1..] == [];
    } else {
      assert t[1..] == s[1..] + [c];
      HexValueLast(s[1..], c);
      ShiftHex(Worth(s[0]), Pow16(|s| - 1), HexValue(s[1..]));
    }
  }

  lemma ShiftHex(d: nat, p: nat, x: nat)
    ensures d * (16 * p) + x * 16 == (d * p + x) * 16
  {
  }

  /** The digit loop accepts exactly the texts of hexadecimal digits, of either case and any length, whose number is
      below 2^32, and gives that number. */
  lemma {:induction false} ParseDigitsIff(s: string)
    ensures ParseDigits(s) == if AllHex(s) && HexValue(s) < U32_MODULUS then Some(HexValue(s)) else None
  {
    hide DigitValue, IsDigit;
    if s != [] {
      var front, c := s[..|s| - 1], s[|s| - 1];
      assert s == front + [c];
      ParseDigitsIff(front);
      HexValueLast(front, c);
      IsDigitIff(c);
    }
  }

  function Unsigned(s: string): string { if s != [] && s[0] == '+' then s[1..] else s }

  /** One half of a position: digits, perhaps behind a plus sign, with a 32-bit value. */
  ghost predicate IsHalf(s: string) {
    Unsigned(s) != [] && AllHex(Unsigned(s)) && HexValue(Unsigned(s)) < U32_MODULUS
  }

  lemma HalfIff(s: string)
    ensures FromStrRadix16(s) == if IsHalf(s) then Some(HexValue(Unsigned(s))) else None
  {
    hide ParseDigits, HexValue;
    ParseDigitsIff(Unsigned(s));
  }

  /** Exactly the texts with two such halves around their first slash are positions, and this is their value. */
  lemma ParsesIff(a: string, b: string)
    requires '/' !in a
    ensures FromPgStr(a) == None
    ensures FromPgStr(a + "/" + b)
         == if IsHalf(a) && IsHalf(b) then Some(HexValue(Unsigned(a)) * U32_MODULUS + HexValue(Unsigned(b))) else None
  {
    hide FromStrRadix16, IsHalf, HexValue, Unsigned, SlashAt;
    var s := a + "/" + b;
    FirstSlash(a, b);
    assert s[..|a|] == a && s[|a| + 1..] == b;
    HalfIff(a);
    HalfIff(b);
    assert SlashAt(a) == |a|;
  }
}
