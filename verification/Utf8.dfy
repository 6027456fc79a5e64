/** UTF-8 by its definition: the encodings of sequences of Unicode scalar values (section 3.9 of the Unicode
    standard). */
module Utf8 {
  import opened Bytes

  type Scalar = x: int | 0 <= x < 0xD800 || 0xE000 <= x < 0x110000

  function EncodeOne(c: Scalar): (s: seq<byte>)
    ensures 0 < |s| <= 4
  {
    if c < 0x80 then [c]
    else if c < 0x800 then [0xC0 + c / 64, 0x80 + c % 64]
    else if c < 0x1_0000 then [0xE0 + c / 64 / 64, 0x80 + c / 64 % 64, 0x80 + c % 64]
    else [0xF0 + c / 64 / 64 / 64, 0x80 + c / 64 / 64 % 64, 0x80 + c / 64 % 64, 0x80 + c % 64]
  }

  function Encode(cs: seq<Scalar>): seq<byte> {
    if cs == [] then [] else EncodeOne(cs[0]) + Encode(cs[1..])
  }

  lemma WidthOf(c: Scalar, t: seq<byte>)
    ensures CharWidth(EncodeOne(c) + t) == |EncodeOne(c)|
  {
    var s := EncodeOne(c) + t;
    assert forall i :: 0 <= i < |EncodeOne(c)| ==> s[i] == EncodeOne(c)[i];
  }

  /** Six more bits. */
  function Extend(high: int, b: byte): int { high * 64 + (b - 0x80) }

  /** The scalar value a well-formed character stands for. */
  function DecodeOne(s: seq<byte>): Scalar
    requires CharWidth(s) > 0
  {
    var n := CharWidth(s);
    if n == 1 then s[0]
    else if n == 2 then Extend(s[0] - 0xC0, s[1])
    else if n == 3 then Extend(Extend(s[0] - 0xE0, s[1]), s[2])
    else Extend(Extend(Extend(s[0] - 0xF0, s[1]), s[2]), s[3])
  }

  lemma ExtendFacts(high: nat, b: byte)
    requires Continuation(b)
    ensures Extend(high, b) / 64 == high && 0x80 + Extend(high, b) % 64 == b && Extend(high, b) >= 0
  {
  }

  lemma TwoBytes(a: byte, b: byte)
    requires 0xC2 <= a <= 0xDF && Continuation(b)
    ensures var c := Extend(a - 0xC0, b); 0x80 <= c < 0x800 && EncodeOne(c) == [a, b]
  {
    hide Extend;
    ExtendFacts(a - 0xC0, b);
    var c := Extend(a - 0xC0, b);
    assert c == c / 64 * 64 + c % 64;
  }

  lemma ThreeBytes(a: byte, b: byte, d: byte)
    requires 0xE0 <= a <= 0xEF && Continuation(b) && Continuation(d)
    requires (a == 0xE0 ==> b >= 0xA0) && (a == 0xED ==> b < 0xA0)
    ensures var c := Extend(Extend(a - 0xE0, b), d);
            0x800 <= c < 0x1_0000 && !(0xD800 <= c < 0xE000) && EncodeOne(c) == [a, b, d]
  {
    var x := Extend(a - 0xE0, b);
    ExtendFacts(a - 0xE0, b);
    ExtendFacts(x, d);
  }

  lemma FourBytes(a: byte, b: byte, d: byte, e: byte)
    requires 0xF0 <= a <= 0xF4 && Continuation(b) && Continuation(d) && Continuation(e)
    requires (a == 0xF0 ==> b >= 0x90) && (a == 0xF4 ==> b < 0x90)
    ensures var c := Extend(Extend(Extend(a - 0xF0, b), d), e);
            0x1_0000 <= c < 0x11_0000 && EncodeOne(c) == [a, b, d, e]
  {
    var x := Extend(a - 0xF0, b);
    var y := Extend(x, d);
    ExtendFacts(a - 0xF0, b);
    ExtendFacts(x, d);
    ExtendFacts(y, e);
  }

  lemma DecodeOneEncodes(s: seq<byte>)
    requires CharWidth(s) > 0
    ensures EncodeOne(DecodeOne(s)) == s[..CharWidth(s)]
  {
    hide Extend;
    var n := CharWidth(s);
    if n == 2 {
      TwoBytes(s[0], s[1]);
      assert s[..2] == [s[0], s[1]];
    } else if n == 3 {
      ThreeBytes(s[0], s[1], s[2]);
      assert s[..3] == [s[0], s[1], s[2]];
    } else if n == 4 {
      FourBytes(s[0], s[1], s[2], s[3]);
      assert s[..4] == [s[0], s[1], s[2], s[3]];
    }
  }

  lemma {:induction false} EncodedIsValid(cs: seq<Scalar>)
    ensures ValidUtf8(Encode(cs))
  {
    hide EncodeOne, CharWidth;
    if cs != [] {
      var c, rest := EncodeOne(cs[0]), Encode(cs[1..]);
      WidthOf(cs[0], rest);
      assert (c + rest)[|c|..] == rest;
      EncodedIsValid(cs[1..]);
    }
  }

  function Decode(s: seq<byte>): seq<Scalar>
    requires ValidUtf8(s)
  {
    if s == [] then [] else [DecodeOne(s)] + Decode(s[CharWidth(s)..])
  }

  lemma {:induction false} DecodedEncodes(s: seq<byte>)
    requires ValidUtf8(s)
    ensures Encode(Decode(s)) == s
  {
    hide EncodeOne, CharWidth, DecodeOne;
    if s != [] {
      var n, d := CharWidth(s), Decode(s[CharWidth(s)..]);
      DecodedEncodes(s[n..]);
      DecodeOneEncodes(s);
      assert ([DecodeOne(s)] + d)[1..] == d;
      assert s == s[..n] + s[n..];
    }
  }

  /** The texts the decoders accept are exactly the encodings of scalar values. */
  lemma ValidIff(s: seq<byte>)
    ensures ValidUtf8(s) <==> exists cs :: Encode(cs) == s
  {
    hide ValidUtf8, Encode;
    if ValidUtf8(s) { DecodedEncodes(s); }
    if cs :| Encode(cs) == s { EncodedIsValid(cs); }
  }
}
