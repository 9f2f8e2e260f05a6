/** `urllib.parse.quote(text)` with its default `safe="/"`: the text is
    encoded as UTF-8 and every byte outside the unreserved set of section 2.3
    of RFC 3986 and `/` becomes a `%XX` triplet (section 2.1 of RFC 3986,
    upper-case hexadecimal digits). The decoder is the model's own inverse. */
module Percent {
  import opened Wrappers
  import Utf8

  type byte = Utf8.byte

  /** ALPHA / DIGIT / "-" / "." / "_" / "~" (section 2.3 of RFC 3986). */
  predicate IsUnreservedChar(c: char) {
    ('A' <= c <= 'Z') || ('a' <= c <= 'z') || ('0' <= c <= '9') ||
    c == '-' || c == '.' || c == '_' || c == '~'
  }

  /** The characters `quote` copies through unchanged. */
  predicate IsSafeChar(c: char) {
    IsUnreservedChar(c) || c == '/'
  }

  /** The bytes `quote` copies through unchanged: those of a safe ASCII character. */
  predicate IsSafeByte(b: byte) {
    b < 0x80 && IsSafeChar(b as int as char)
  }

  predicate IsHexDigit(c: char) {
    ('0' <= c <= '9') || ('A' <= c <= 'F') || ('a' <= c <= 'f')
  }

  /** The digits `quote` writes: upper case only. */
  predicate IsUpperHexDigit(c: char) {
    ('0' <= c <= '9') || ('A' <= c <= 'F')
  }

  function HexValue(c: char): (d: int)
    requires IsHexDigit(c)
    ensures 0 <= d < 16
  {
    if '0' <= c <= '9' then c as int - '0' as int
    else if 'A' <= c <= 'F' then c as int - 'A' as int + 10
    else c as int - 'a' as int + 10
  }

  function HexDigit(d: int): (c: char)
    requires 0 <= d < 16
    ensures IsUpperHexDigit(c) && IsHexDigit(c) && HexValue(c) == d
  {
    if d < 10 then ('0' as int + d) as char else ('A' as int + d - 10) as char
  }

  /** The byte a `%XX` triplet names. */
  function HexByte(hi: char, lo: char): (b: byte)
    requires IsHexDigit(hi) && IsHexDigit(lo)
    ensures b as int == HexValue(hi) * 16 + HexValue(lo)
  {
    (HexValue(hi) * 16 + HexValue(lo)) as byte
  }

  /** One byte as `quote` writes it: the character itself or `%XX`. */
  function QuoteByte(b: byte): (r: string)
    ensures forall i :: 0 <= i < |r| ==> IsSafeChar(r[i]) || r[i] == '%'
  {
    if IsSafeByte(b) then [b as int as char]
    else ['%', HexDigit(b as int / 16), HexDigit(b as int % 16)]
  }

  /** `urllib.parse.quote_from_bytes(bs, safe="/")`. Its output holds only
      unreserved characters, `/` and `%`. */
  function QuoteBytes(bs: seq<byte>): (r: string)
    ensures |bs| <= |r| <= 3 * |bs|
    ensures forall i :: 0 <= i < |r| ==> IsSafeChar(r[i]) || r[i] == '%'
  {
    if bs == [] then [] else QuoteByte(bs[0]) + QuoteBytes(bs[1..])
  }

  /** `urllib.parse.quote(s)`: the UTF-8 bytes of `s`, percent-encoded. None
      of the characters that delimit a `mailto:` URI or its query (`&`, `=`,
      `?`, `#`), and no space or line break, can appear in the output. */
  function Quote(s: string): (r: string)
    ensures forall i :: 0 <= i < |r| ==> r[i] !in "&=?# \r\n"
  {
    QuoteBytes(Utf8.Encode(s))
  }

  /** Percent-decoding: every `%XX` triplet (either case of hexadecimal digit)
      becomes its byte and every safe character stands for itself; anything
      else is rejected with `None`. */
  function UnquoteBytes(s: string): (r: Option<seq<byte>>)
    decreases |s|
  {
    if s == [] then Some([])
    else if s[0] == '%' then
      if |s| >= 3 && IsHexDigit(s[1]) && IsHexDigit(s[2]) then
        match UnquoteBytes(s[3..])
        case None => None
        case Some(rest) => Some([HexByte(s[1], s[2])] + rest)
      else None
    else if IsSafeChar(s[0]) then
      match UnquoteBytes(s[1..])
      case None => None
      case Some(rest) => Some([s[0] as int as byte] + rest)
    else None
  }

  /** `urllib.parse.unquote` made strict: percent-decoding followed by UTF-8
      decoding, `None` when either fails. */
  function Unquote(s: string): Option<string> {
    match UnquoteBytes(s)
    case None => None
    case Some(bs) => Utf8.Decode(bs)
  }

  /** The strings `quote` can produce: safe characters and upper-case `%XX`
      triplets of bytes that are not themselves safe. */
  predicate IsQuoted(s: string)
    decreases |s|
  {
    s == [] ||
    (IsSafeChar(s[0]) && IsQuoted(s[1..])) ||
    (|s| >= 3 && s[0] == '%' && IsUpperHexDigit(s[1]) && IsUpperHexDigit(s[2]) &&
     !IsSafeByte(HexByte(s[1], s[2])) && IsQuoted(s[3..]))
  }

  // ---------------------------------------------------------------------
  // Lemmas
  // ---------------------------------------------------------------------

  lemma {:induction false} UnquoteQuoteByte(b: byte, rest: string)
    ensures UnquoteBytes(QuoteByte(b) + rest) ==
      match UnquoteBytes(rest)
      case None => None
      case Some(tail) => Some([b] + tail)
  {
    var q := QuoteByte(b);
    var s := q + rest;
    if IsSafeByte(b) {
      assert s[1..] == rest;
    } else {
      assert s[3..] == rest;
      assert HexByte(s[1], s[2]) == b;
    }
  }

  /** Percent-decoding undoes `quote_from_bytes`. */
  lemma {:induction false} UnquoteQuoteBytes(bs: seq<byte>)
    ensures UnquoteBytes(QuoteBytes(bs)) == Some(bs)
  {
    if bs != [] {
      UnquoteQuoteByte(bs[0], QuoteBytes(bs[1..]));
      UnquoteQuoteBytes(bs[1..]);
      assert [bs[0]] + bs[1..] == bs;
    }
  }

  /** `unquote(quote(s)) == s` for every string: subject and body come back
      exactly, spaces, line breaks and non-ASCII characters included. */
  lemma {:induction false} UnquoteQuote(s: string)
    ensures Unquote(Quote(s)) == Some(s)
  {
    UnquoteQuoteBytes(Utf8.Encode(s));
    Utf8.DecodeEncode(s);
  }

  /** Everything `quote_from_bytes` writes has the canonical form. */
  lemma {:induction false} QuoteBytesIsQuoted(bs: seq<byte>)
    ensures IsQuoted(QuoteBytes(bs))
  {
    if bs != [] {
      var q, rest := QuoteByte(bs[0]), QuoteBytes(bs[1..]);
      var s := q + rest;
      QuoteBytesIsQuoted(bs[1..]);
      if IsSafeByte(bs[0]) {
        assert s[1..] == rest;
      } else {
        assert s[3..] == rest;
        assert HexByte(s[1], s[2]) == bs[0];
      }
    }
  }

  lemma {:induction false} QuoteBytesCons(b: byte, bs: seq<byte>)
    ensures QuoteBytes([b] + bs) == QuoteByte(b) + QuoteBytes(bs)
  {
    assert ([b] + bs)[0] == b && ([b] + bs)[1..] == bs;
  }

  /** The step of `QuoteBytesOfUnquote` for a leading safe character. */
  lemma {:induction false} QuoteOfUnquoteSafeChar(s: string)
    requires s != [] && IsSafeChar(s[0])
    requires UnquoteBytes(s[1..]).Some? && QuoteBytes(UnquoteBytes(s[1..]).value) == s[1..]
    ensures UnquoteBytes(s).Some? && QuoteBytes(UnquoteBytes(s).value) == s
  {
    var b := s[0] as int as byte;
    var tail := UnquoteBytes(s[1..]).value;
    assert UnquoteBytes(s) == Some([b] + tail);
    assert QuoteByte(b) == [s[0]] by {
      assert b as int as char == s[0];
    }
    assert QuoteBytes([b] + tail) == QuoteByte(b) + QuoteBytes(tail) by {
      QuoteBytesCons(b, tail);
    }
    assert [s[0]] + s[1..] == s;
  }

  /** A `%XX` triplet with upper-case digits that names an unsafe byte is how
      `quote` writes that byte. */
  lemma {:induction false} QuoteByteOfTriplet(hi: char, lo: char)
    requires IsUpperHexDigit(hi) && IsUpperHexDigit(lo)
    requires !IsSafeByte(HexByte(hi, lo))
    ensures QuoteByte(HexByte(hi, lo)) == ['%', hi, lo]
  {
    var v := HexValue(hi) * 16 + HexValue(lo);
    assert v / 16 == HexValue(hi) && v % 16 == HexValue(lo);
  }

  /** The step of `QuoteBytesOfUnquote` for a leading `%XX` triplet. */
  lemma {:induction false} QuoteOfUnquoteTriplet(s: string)
    requires |s| >= 3 && s[0] == '%' && IsUpperHexDigit(s[1]) && IsUpperHexDigit(s[2])
    requires !IsSafeByte(HexByte(s[1], s[2]))
    requires UnquoteBytes(s[3..]).Some? && QuoteBytes(UnquoteBytes(s[3..]).value) == s[3..]
    ensures UnquoteBytes(s).Some? && QuoteBytes(UnquoteBytes(s).value) == s
  {
    var b := HexByte(s[1], s[2]);
    var tail := UnquoteBytes(s[3..]).value;
    assert UnquoteBytes(s) == Some([b] + tail) by {
      assert IsHexDigit(s[1]) && IsHexDigit(s[2]);
    }
    assert QuoteByte(b) == ['%', s[1], s[2]] by {
      QuoteByteOfTriplet(s[1], s[2]);
    }
    assert QuoteBytes([b] + tail) == QuoteByte(b) + QuoteBytes(tail) by {
      QuoteBytesCons(b, tail);
    }
    assert s == ['%', s[1], s[2]] + s[3..];
  }

  /** Every string of the canonical form is the output of `quote_from_bytes`
      for the bytes it decodes to; with `QuoteBytesIsQuoted` this says that
      the canonical strings are exactly the outputs of `quote_from_bytes`. */
  lemma {:induction false} QuoteBytesOfUnquote(s: string)
    requires IsQuoted(s)
    ensures UnquoteBytes(s).Some? && QuoteBytes(UnquoteBytes(s).value) == s
    decreases |s|
  {
    if s != [] {
      if IsSafeChar(s[0]) {
        QuoteBytesOfUnquote(s[1..]);
        QuoteOfUnquoteSafeChar(s);
      } else {
        QuoteBytesOfUnquote(s[3..]);
        QuoteOfUnquoteTriplet(s);
      }
    }
  }

  /** A canonical string that decodes to text is `quote` of that text. */
  lemma {:induction false} QuoteOfUnquote(s: string)
    requires IsQuoted(s) && Unquote(s).Some?
    ensures Quote(Unquote(s).value) == s
  {
    QuoteBytesOfUnquote(s);
    Utf8.EncodeDecode(UnquoteBytes(s).value);
  }
}
