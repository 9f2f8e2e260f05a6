/** `str.encode("utf-8")`, which `urllib.parse.quote` applies to a text
    argument before percent-encoding it, and the decoder that inverts it. */
module Utf8 {
  import opened Wrappers

  newtype byte = x: int | 0 <= x < 256

  /** A continuation byte `10xxxxxx`. */
  predicate IsContinuation(b: byte) {
    0x80 <= b < 0xC0
  }

  /** The UTF-8 encoding of one Unicode scalar value: one byte below U+0080,
      two below U+0800, three below U+10000 and four above. */
  function EncodeChar(c: char): (r: seq<byte>)
    ensures 1 <= |r| <= 4
    ensures |r| == 1 <==> c as int < 0x80
    ensures forall i :: 1 <= i < |r| ==> IsContinuation(r[i])
  {
    var n := c as int;
    if n < 0x80 then [n as byte]
    else if n < 0x800 then [(0xC0 + n / 64) as byte, (0x80 + n % 64) as byte]
    else if n < 0x10000 then
      [(0xE0 + n / 4096) as byte, (0x80 + n / 64 % 64) as byte, (0x80 + n % 64) as byte]
    else
      [(0xF0 + n / 262144) as byte, (0x80 + n / 4096 % 64) as byte,
       (0x80 + n / 64 % 64) as byte, (0x80 + n % 64) as byte]
  }

  /** `s.encode("utf-8")`. */
  function Encode(s: string): (r: seq<byte>)
    ensures |s| <= |r| <= 4 * |s|
  {
    if s == [] then [] else EncodeChar(s[0]) + Encode(s[1..])
  }

  /** Decodes the first character of `b`: the character and the number of
      bytes it took, or `None` when `b` does not start with the shortest
      UTF-8 encoding of a Unicode scalar value. */
  function DecodeFirst(b: seq<byte>): (r: Option<(char, nat)>)
    requires b != []
    ensures r.Some? ==> 1 <= r.value.1 <= |b|
  {
    var b0 := b[0] as int;
    if b0 < 0x80 then Some((b0 as char, 1))
    else if 0xC2 <= b0 < 0xE0 && |b| >= 2 && IsContinuation(b[1]) then
      var n := (b0 - 0xC0) * 64 + (b[1] as int - 0x80);
      Some((n as char, 2))
    else if 0xE0 <= b0 < 0xF0 && |b| >= 3 && IsContinuation(b[1]) && IsContinuation(b[2]) then
      var n := (b0 - 0xE0) * 4096 + (b[1] as int - 0x80) * 64 + (b[2] as int - 0x80);
      if 0x800 <= n && !(0xD800 <= n < 0xE000) then Some((n as char, 3)) else None
    else if 0xF0 <= b0 < 0xF5 && |b| >= 4 && IsContinuation(b[1]) && IsContinuation(b[2]) && IsContinuation(b[3]) then
      var n := (b0 - 0xF0) * 262144 + (b[1] as int - 0x80) * 4096 + (b[2] as int - 0x80) * 64 + (b[3] as int - 0x80);
      if 0x10000 <= n < 0x110000 then Some((n as char, 4)) else None
    else None
  }

  /** `b.decode("utf-8")`, failing with `None` on any malformed input. */
  function Decode(b: seq<byte>): (r: Option<string>)
    ensures r.Some? ==> |r.value| <= |b|
    decreases |b|
  {
    if b == [] then Some([])
    else match DecodeFirst(b)
      case None => None
      case Some((c, k)) =>
        match Decode(b[k..])
        case None => None
        case Some(rest) => Some([c] + rest)
  }

  // ---------------------------------------------------------------------
  // Lemmas
  // ---------------------------------------------------------------------

  lemma {:induction false} DecodeFirstOfTwoBytes(c: char, rest: seq<byte>)
    requires 0x80 <= c as int < 0x800
    ensures DecodeFirst(EncodeChar(c) + rest) == Some((c, 2))
  {
    var n := c as int;
    var b := EncodeChar(c) + rest;
    assert b[0] as int == 0xC0 + n / 64 && b[1] as int == 0x80 + n % 64;
    assert n == (n / 64) * 64 + n % 64;
  }

  lemma {:induction false} DecodeFirstOfThreeBytes(c: char, rest: seq<byte>)
    requires 0x800 <= c as int < 0x10000
    ensures DecodeFirst(EncodeChar(c) + rest) == Some((c, 3))
  {
    var n := c as int;
    var b := EncodeChar(c) + rest;
    assert b[0] as int == 0xE0 + n / 4096 && b[1] as int == 0x80 + n / 64 % 64 && b[2] as int == 0x80 + n % 64;
    assert n / 64 == (n / 4096) * 64 + n / 64 % 64;
    assert n == (n / 64) * 64 + n % 64;
    assert (b[0] as int - 0xE0) * 4096 + (b[1] as int - 0x80) * 64 + (b[2] as int - 0x80) == n;
  }

  lemma {:induction false} DecodeFirstOfFourBytes(c: char, rest: seq<byte>)
    requires 0x10000 <= c as int
    ensures DecodeFirst(EncodeChar(c) + rest) == Some((c, 4))
  {
    var n := c as int;
    var b := EncodeChar(c) + rest;
    assert b[0] as int == 0xF0 + n / 262144 && b[1] as int == 0x80 + n / 4096 % 64;
    assert b[2] as int == 0x80 + n / 64 % 64 && b[3] as int == 0x80 + n % 64;
    assert n / 4096 == (n / 262144) * 64 + n / 4096 % 64;
    assert n / 64 == (n / 4096) * 64 + n / 64 % 64;
    assert n == (n / 64) * 64 + n % 64;
    assert (b[0] as int - 0xF0) * 262144 + (b[1] as int - 0x80) * 4096 + (b[2] as int - 0x80) * 64 + (b[3] as int - 0x80) == n;
  }

  /** The first character of an encoding decodes back, whatever follows it. */
  lemma {:induction false} DecodeFirstOfEncodeChar(c: char, rest: seq<byte>)
    ensures DecodeFirst(EncodeChar(c) + rest) == Some((c, |EncodeChar(c)|))
  {
    var n := c as int;
    if n < 0x80 {
    } else if n < 0x800 {
      DecodeFirstOfTwoBytes(c, rest);
    } else if n < 0x10000 {
      DecodeFirstOfThreeBytes(c, rest);
    } else {
      DecodeFirstOfFourBytes(c, rest);
    }
  }

  /** Decoding undoes encoding: `s.encode("utf-8").decode("utf-8") == s`. */
  lemma {:induction false} DecodeEncode(s: string)
    ensures Decode(Encode(s)) == Some(s)
  {
    if s != [] {
      var e := EncodeChar(s[0]);
      var b := Encode(s);
      assert b == e + Encode(s[1..]);
      DecodeFirstOfEncodeChar(s[0], Encode(s[1..]));
      assert b[|e|..] == Encode(s[1..]);
      DecodeEncode(s[1..]);
      assert [s[0]] + s[1..] == s;
    }
  }

  /** Division by 64 splits a number into its high part and its low six bits. */
  lemma {:induction false} SixBits(hi: int, lo: int)
    requires 0 <= lo < 64
    ensures (hi * 64 + lo) / 64 == hi && (hi * 64 + lo) % 64 == lo
  {
  }

  lemma {:induction false} EncodeTwoBytes(c: char, b0: int, b1: int)
    requires 0xC2 <= b0 < 0xE0 && 0 <= b1 < 64
    requires c as int == (b0 - 0xC0) * 64 + b1
    ensures EncodeChar(c) == [b0 as byte, (0x80 + b1) as byte]
  {
    SixBits(b0 - 0xC0, b1);
  }

  lemma {:induction false} EncodeThreeBytes(c: char, b0: int, b1: int, b2: int)
    requires 0xE0 <= b0 < 0xF0 && 0 <= b1 < 64 && 0 <= b2 < 64
    requires 0x800 <= c as int
    requires c as int == ((b0 - 0xE0) * 64 + b1) * 64 + b2
    ensures EncodeChar(c) == [b0 as byte, (0x80 + b1) as byte, (0x80 + b2) as byte]
  {
    var n := c as int;
    SixBits((b0 - 0xE0) * 64 + b1, b2);
    SixBits(b0 - 0xE0, b1);
    assert n / 64 / 64 == n / 4096;
  }

  lemma {:induction false} EncodeFourBytes(c: char, b0: int, b1: int, b2: int, b3: int)
    requires 0xF0 <= b0 < 0xF5 && 0 <= b1 < 64 && 0 <= b2 < 64 && 0 <= b3 < 64
    requires 0x10000 <= c as int
    requires c as int == (((b0 - 0xF0) * 64 + b1) * 64 + b2) * 64 + b3
    ensures EncodeChar(c) == [b0 as byte, (0x80 + b1) as byte, (0x80 + b2) as byte, (0x80 + b3) as byte]
  {
    var n := c as int;
    SixBits(((b0 - 0xF0) * 64 + b1) * 64 + b2, b3);
    SixBits((b0 - 0xF0) * 64 + b1, b2);
    SixBits(b0 - 0xF0, b1);
    assert n / 64 / 64 == n / 4096;
    assert n / 4096 / 64 == n / 262144;
  }

  /** What `DecodeFirst` accepts is exactly the encoding of the character it
      returns: the decoder admits no overlong or otherwise alternative form. */
  lemma {:induction false} EncodeCharOfDecodeFirst(b: seq<byte>)
    requires b != [] && DecodeFirst(b).Some?
    ensures EncodeChar(DecodeFirst(b).value.0) == b[..DecodeFirst(b).value.1]
  {
    var (c, k) := DecodeFirst(b).value;
    var b0 := b[0] as int;
    if k == 2 {
      EncodeTwoBytes(c, b0, b[1] as int - 0x80);
    } else if k == 3 {
      EncodeThreeBytes(c, b0, b[1] as int - 0x80, b[2] as int - 0x80);
    } else if k == 4 {
      EncodeFourBytes(c, b0, b[1] as int - 0x80, b[2] as int - 0x80, b[3] as int - 0x80);
    }
  }

  lemma {:induction false} EncodeCons(c: char, s: string)
    ensures Encode([c] + s) == EncodeChar(c) + Encode(s)
  {
    assert ([c] + s)[0] == c && ([c] + s)[1..] == s;
  }

  /** One step of `Decode`: the first character, then the rest. */
  lemma {:induction false} DecodeStep(b: seq<byte>)
    requires b != [] && Decode(b).Some?
    ensures DecodeFirst(b).Some?
    ensures var k := DecodeFirst(b).value.1;
      Decode(b[k..]).Some? && Decode(b).value == [DecodeFirst(b).value.0] + Decode(b[k..]).value
  {
  }

  /** Whatever `Decode` accepts is the encoding of what it returns, so `Encode`
      and `Decode` are inverse bijections between strings and valid UTF-8. */
  lemma {:induction false} EncodeDecode(b: seq<byte>)
    requires Decode(b).Some?
    ensures Encode(Decode(b).value) == b
    decreases |b|
  {
    if b != [] {
      DecodeStep(b);
      var c, k := DecodeFirst(b).value.0, DecodeFirst(b).value.1;
      var rest := Decode(b[k..]).value;
      assert EncodeChar(c) == b[..k] by {
        EncodeCharOfDecodeFirst(b);
      }
      assert Encode(rest) == b[k..] by {
        EncodeDecode(b[k..]);
      }
      assert Encode([c] + rest) == EncodeChar(c) + Encode(rest) by {
        EncodeCons(c, rest);
      }
      assert b == b[..k] + b[k..];
    }
  }
}
