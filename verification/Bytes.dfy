/** Bytes, fixed-width big-endian integers, UTF-8 validity and the bytewise order of slices. */
module Bytes {
  type byte = x: int | 0 <= x < 0x100
  type u16 = x: int | 0 <= x < 0x1_0000
  type u32 = x: int | 0 <= x < 0x1_0000_0000
  type u64 = x: int | 0 <= x < 0x1_0000_0000_0000_0000
  type i64 = x: int | -0x8000_0000_0000_0000 <= x < 0x8000_0000_0000_0000

  const U16_MODULUS: nat := 0x1_0000
  const U32_MODULUS: nat := 0x1_0000_0000
  const U64_MODULUS: nat := 0x1_0000_0000_0000_0000
  const U64_MAX: u64 := 0xFFFF_FFFF_FFFF_FFFF

  datatype Option<+T> = None | Some(value: T)

  function Min(a: nat, b: nat): nat { if a <= b then a else b }

  function Max(a: nat, b: nat): nat { if a >= b then a else b }

  function Flatten<T>(parts: seq<seq<T>>): seq<T> {
    if parts == [] then [] else Flatten(parts[..|parts| - 1]) + parts[|parts| - 1]
  }

  // ---- big-endian integers ----

  function Pow256(n: nat): (p: nat)
    ensures p > 0
  {
    if n == 0 then 1 else 256 * Pow256(n - 1)
  }

  /** `to_be_bytes` of an n-byte integer; higher-order digits are cut off. */
  function ToBE(n: nat, v: nat): (s: seq<byte>)
    ensures |s| == n
  {
    if n == 0 then [] else ToBE(n - 1, v / 256) + [v % 256]
  }

  /** `from_be_bytes`. */
  function FromBE(s: seq<byte>): (v: nat)
    ensures v < Pow256(|s|)
  {
    if s == [] then 0 else FromBE(s[..|s| - 1]) * 256 + s[|s| - 1]
  }

  lemma Widths()
    ensures Pow256(1) == 0x100 && Pow256(2) == U16_MODULUS && Pow256(4) == U32_MODULUS && Pow256(8) == U64_MODULUS
  {
    assert Pow256(2) == 256 * Pow256(1);
    assert Pow256(3) == 256 * Pow256(2);
    assert Pow256(4) == 256 * Pow256(3);
    assert Pow256(5) == 256 * Pow256(4);
    assert Pow256(6) == 256 * Pow256(5);
    assert Pow256(7) == 256 * Pow256(6);
    assert Pow256(8) == 256 * Pow256(7);
  }

  lemma {:induction false} FromToBE(n: nat, v: nat)
    requires v < Pow256(n)
    ensures FromBE(ToBE(n, v)) == v
  {
    if n > 0 {
      FromToBE(n - 1, v / 256);
      var s := ToBE(n, v);
      assert s[..|s| - 1] == ToBE(n - 1, v / 256);
    }
  }

  lemma {:induction false} ToFromBE(s: seq<byte>)
    ensures ToBE(|s|, FromBE(s)) == s
  {
    if s != [] {
      ToFromBE(s[..|s| - 1]);
      assert s == s[..|s| - 1] + [s[|s| - 1]];
    }
  }

  /** The leading byte carries the largest weight. */
  lemma {:induction false} FromBEHead(s: seq<byte>)
    requires s != []
    ensures FromBE(s) == s[0] * Pow256(|s| - 1) + FromBE(s[1..])
  {
    if |s| > 1 {
      var front := s[..|s| - 1];
      FromBEHead(front);
      assert s[1..][..|s[1..]| - 1] == front[1..];
      ShiftDigit(s[0], Pow256(|s| - 2), FromBE(front[1..]));
    }
  }

  lemma ShiftDigit(d: nat, p: nat, x: nat)
    ensures (d * p + x) * 256 == d * (256 * p) + x * 256
  {
  }

  // ---- bytewise order ----

  /** The order Rust gives byte slices, which is RocksDB's default key order. */
  predicate LexLess(a: seq<byte>, b: seq<byte>) {
    b != [] && (a == [] || a[0] < b[0] || (a[0] == b[0] && LexLess(a[1..], b[1..])))
  }

  lemma {:induction false} LexIrreflexive(a: seq<byte>)
    ensures !LexLess(a, a)
  {
    if a != [] { LexIrreflexive(a[1..]); }
  }

  lemma {:induction false} LexTransitive(a: seq<byte>, b: seq<byte>, c: seq<byte>)
    requires LexLess(a, b) && LexLess(b, c)
    ensures LexLess(a, c)
  {
    if a != [] && a[0] == b[0] && b[0] == c[0] { LexTransitive(a[1..], b[1..], c[1..]); }
  }

  lemma {:induction false} LexTotal(a: seq<byte>, b: seq<byte>)
    ensures a == b || LexLess(a, b) || LexLess(b, a)
  {
    if a != [] && b != [] && a[0] == b[0] {
      LexTotal(a[1..], b[1..]);
      assert a == [a[0]] + a[1..] && b == [b[0]] + b[1..];
    }
  }

  /** Slices of one length order as the numbers they encode. */
  lemma {:induction false} LexIsNumeric(a: seq<byte>, b: seq<byte>)
    requires |a| == |b|
    ensures LexLess(a, b) <==> FromBE(a) < FromBE(b)
  {
    if a != [] {
      FromBEHead(a);
      FromBEHead(b);
      LexIsNumeric(a[1..], b[1..]);
      LeadingDigit(a[0], b[0], FromBE(a[1..]), FromBE(b[1..]), Pow256(|a| - 1));
    }
  }

  lemma LeadingDigit(d: nat, e: nat, x: nat, y: nat, p: nat)
    requires x < p && y < p
    ensures d < e ==> d * p + x < e * p + y
    ensures d > e ==> d * p + x > e * p + y
  {
    if d < e {
      ScaleGap(d, e, p);
    } else if d > e {
      ScaleGap(e, d, p);
    }
  }

  lemma {:induction false} ScaleGap(d: nat, e: nat, p: nat)
    requires d < e
    ensures d * p + p <= e * p
    decreases e
  {
    if d + 1 < e { ScaleGap(d, e - 1, p); }
  }

  /** Behind a common prefix, the first differing byte decides, or the shorter slice comes first. */
  lemma {:induction false} LexAtFirstDifference(a: seq<byte>, b: seq<byte>, n: nat)
    requires n <= |a| && n <= |b| && a[..n] == b[..n]
    requires n == |a| || n == |b| || a[n] != b[n]
    ensures LexLess(a, b) <==> n < |b| && (n == |a| || a[n] < b[n])
  {
    if n > 0 {
      assert a[..n][0] == b[..n][0] && a[1..][..n - 1] == a[..n][1..] && b[1..][..n - 1] == b[..n][1..];
      LexAtFirstDifference(a[1..], b[1..], n - 1);
    }
  }

  /** With prefixes of one length, the prefixes decide unless they are equal. */
  lemma {:induction false} LexConcat(a: seq<byte>, x: seq<byte>, b: seq<byte>, y: seq<byte>)
    requires |a| == |b|
    ensures LexLess(a + x, b + y) <==> LexLess(a, b) || (a == b && LexLess(x, y))
  {
    if a == [] {
      assert a + x == x && b + y == y;
    } else {
      LexConcat(a[1..], x, b[1..], y);
      assert (a + x)[1..] == a[1..] + x && (b + y)[1..] == b[1..] + y;
      assert a == [a[0]] + a[1..] && b == [b[0]] + b[1..];
      if a == b { LexIrreflexive(a[1..]); }
    }
  }

  // ---- UTF-8 ----

  predicate Continuation(b: byte) { 0x80 <= b < 0xC0 }

  /** Length of the well-formed UTF-8 character at the front of s; 0 when there is none
      (table 3-7 of the Unicode standard, which `str::from_utf8` follows). */
  function CharWidth(s: seq<byte>): (n: nat)
    ensures n <= |s| && n <= 4
  {
    if s == [] then 0
    else if s[0] < 0x80 then 1
    else if |s| >= 2 && 0xC2 <= s[0] <= 0xDF && Continuation(s[1]) then 2
    else if |s| >= 3 && 0xE0 <= s[0] <= 0xEF && Continuation(s[1]) && Continuation(s[2])
         && (s[0] == 0xE0 ==> s[1] >= 0xA0) && (s[0] == 0xED ==> s[1] < 0xA0) then 3
    else if |s| >= 4 && 0xF0 <= s[0] <= 0xF4 && Continuation(s[1]) && Continuation(s[2]) && Continuation(s[3])
         && (s[0] == 0xF0 ==> s[1] >= 0x90) && (s[0] == 0xF4 ==> s[1] < 0x90) then 4
    else 0
  }

  /** The slices `str::from_utf8` accepts. */
  predicate ValidUtf8(s: seq<byte>) {
    s == [] || (CharWidth(s) > 0 && ValidUtf8(s[CharWidth(s)..]))
  }

  lemma {:induction false} AsciiIsUtf8(s: seq<byte>)
    requires forall i :: 0 <= i < |s| ==> s[i] < 0x80
    ensures ValidUtf8(s)
  {
    if s != [] { AsciiIsUtf8(s[1..]); }
  }

  // ---- decimal and hexadecimal digits ----

  /** Lower-case hexadecimal digit, as `{:x}` prints it. */
  function HexDigit(d: nat): (c: byte)
    requires d < 16
    ensures c < 0x80
  {
    if d < 10 then '0' as int + d else 'a' as int + (d - 10)
  }

  /** `{}` of an unsigned integer. */
  function Decimal(n: nat): (s: seq<byte>)
    ensures s != [] && forall i :: 0 <= i < |s| ==> '0' as int <= s[i] <= '9' as int
  {
    if n < 10 then ['0' as int + n] else Decimal(n / 10) + ['0' as int + n % 10]
  }

  function DecimalValue(s: seq<byte>): int {
    if s == [] then 0 else DecimalValue(s[..|s| - 1]) * 10 + (s[|s| - 1] - '0' as int)
  }

  /** The digits of the number, without leading zeros. */
  lemma {:induction false} DecimalMeaning(n: nat)
    ensures DecimalValue(Decimal(n)) == n && (|Decimal(n)| > 1 ==> Decimal(n)[0] != '0' as int)
    ensures n > 0 ==> Decimal(n)[0] != '0' as int
  {
    if n >= 10 {
      DecimalMeaning(n / 10);
      var d := Decimal(n);
      assert d[..|d| - 1] == Decimal(n / 10);
    } else {
      assert Decimal(n)[..0] == [];
    }
  }

  /** The bytes of an ASCII literal. */
  function Ascii(s: string): (b: seq<byte>)
    requires forall i :: 0 <= i < |s| ==> s[i] < 128 as char
    ensures |b| == |s| && forall i :: 0 <= i < |s| ==> b[i] == s[i] as int
  {
    seq(|s|, i requires 0 <= i < |s| => s[i] as int)
  }
}
