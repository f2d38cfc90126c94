/**
 * `urllib.parse.unquote_plus(key, encoding='utf-8', errors='replace')`, which turns the
 * object key of a storage notification into the key the object is stored under.
 *
 * Decoding happens in three steps, in this order:
 *  1. every `+` becomes a space (the `application/x-www-form-urlencoded` rule, section 5.1
 *     of the WHATWG URL Standard);
 *  2. the string is cut into maximal runs of ASCII characters and single non-ASCII
 *     characters; non-ASCII characters are kept as they are;
 *  3. each ASCII run is percent-decoded to bytes: `%` followed by two hexadecimal digits
 *     of either case is that byte (section 2.1 of RFC 3986), and `unquote_to_bytes` keeps
 *     any other `%` as it is. The bytes are then decoded as UTF-8 with replacement.
 */
module Decoding {

  import Utf8
  import Wrappers

  type byte = Utf8.byte

  const Percent: byte := 0x25
  const Space: byte := 0x20

  predicate IsHexDigit(b: byte)
  {
    ('0' as int <= b <= '9' as int) || ('A' as int <= b <= 'F' as int) || ('a' as int <= b <= 'f' as int)
  }

  function HexValue(b: byte): (v: nat)
    requires IsHexDigit(b)
    ensures v < 16
  {
    if b <= '9' as int then b - '0' as int
    else if b <= 'F' as int then b - 'A' as int + 10
    else b - 'a' as int + 10
  }

  /** `urllib.parse.unquote_to_bytes` applied to the bytes of a string. */
  function PercentDecode(bs: seq<byte>): (r: seq<byte>)
    ensures |r| <= |bs|
  {
    if |bs| == 0 then []
    else if bs[0] == Percent && |bs| >= 3 && IsHexDigit(bs[1]) && IsHexDigit(bs[2]) then
      [HexValue(bs[1]) * 16 + HexValue(bs[2])] + PercentDecode(bs[3..])
    else
      [bs[0]] + PercentDecode(bs[1..])
  }

  /** Bytes without `%` are left alone. */
  lemma {:induction false} PercentDecodeNoPercent(bs: seq<byte>)
    requires Percent !in bs
    ensures PercentDecode(bs) == bs
  {
    if |bs| > 0 {
      assert Percent !in bs[1..];
      PercentDecodeNoPercent(bs[1..]);
    }
  }

  predicate IsAscii(c: char) { c as int < 0x80 }

  /** Length of the longest prefix of `s` made of ASCII characters. */
  function AsciiRunLength(s: string): (n: nat)
    ensures n <= |s|
    ensures forall i :: 0 <= i < n ==> IsAscii(s[i])
    ensures n < |s| ==> !IsAscii(s[n])
  {
    if |s| == 0 || !IsAscii(s[0]) then 0 else 1 + AsciiRunLength(s[1..])
  }

  /** `urllib.parse.unquote(s, encoding='utf-8', errors='replace')`. */
  function Unquote(s: string): string
    decreases |s|
  {
    if |s| == 0 then ""
    else if !IsAscii(s[0]) then [s[0]] + Unquote(s[1..])
    else
      var n := AsciiRunLength(s);
      Utf8.Decode(PercentDecode(Utf8.Encode(s[..n]))) + Unquote(s[n..])
  }

  function PlusToSpace(s: string): string
  {
    seq(|s|, i requires 0 <= i < |s| => if s[i] == '+' then ' ' else s[i])
  }

  /** `urllib.parse.unquote_plus(s, encoding='utf-8', errors='replace')`. */
  function UnquotePlus(s: string): string
  {
    Unquote(PlusToSpace(s))
  }

  // ---------------------------------------------------------------------------------------
  // The encoder that `unquote_plus` inverts: `urllib.parse.quote_plus(s, safe='')`.

  /** The bytes `quote` never escapes: ASCII letters, digits and `_.-~`. */
  predicate IsAlwaysSafe(b: byte)
  {
    ('0' as int <= b <= '9' as int) || ('A' as int <= b <= 'Z' as int) || ('a' as int <= b <= 'z' as int)
    || b == '_' as int || b == '.' as int || b == '-' as int || b == '~' as int
  }

  /** Upper-case hexadecimal digit, as `quote` writes them. */
  function HexChar(v: nat): (c: char)
    requires v < 16
    ensures IsAscii(c) && IsHexDigit(c as int) && HexValue(c as int) == v
  {
    if v < 10 then ('0' as int + v) as char else ('A' as int + v - 10) as char
  }

  function QuoteByte(b: byte): (s: string)
  {
    if b == Space then "+"
    else if IsAlwaysSafe(b) then [b as char]
    else ['%', HexChar(b / 16), HexChar(b % 16)]
  }

  function QuoteBytes(bs: seq<byte>): string
  {
    if |bs| == 0 then "" else QuoteByte(bs[0]) + QuoteBytes(bs[1..])
  }

  function QuotePlus(s: string): string
  {
    QuoteBytes(Utf8.Encode(s))
  }

  // ---------------------------------------------------------------------------------------
  // Properties

  lemma {:induction false} EncodeNoPercent(s: string)
    requires '%' !in s
    ensures Percent !in Utf8.Encode(s)
  {
    if |s| > 0 {
      assert s[0] != '%' && '%' !in s[1..];
      EncodeNoPercent(s[1..]);
    }
  }

  /** A string without `%` is left alone by `unquote`, whatever characters it holds. */
  lemma {:induction false} UnquoteWithoutPercent(s: string)
    requires '%' !in s
    ensures Unquote(s) == s
    decreases |s|
  {
    if |s| > 0 {
      if !IsAscii(s[0]) {
        assert '%' !in s[1..];
        UnquoteWithoutPercent(s[1..]);
      } else {
        var n := AsciiRunLength(s);
        assert s == s[..n] + s[n..];
        assert '%' !in s[..n] && '%' !in s[n..];
        EncodeNoPercent(s[..n]);
        PercentDecodeNoPercent(Utf8.Encode(s[..n]));
        Utf8.DecodeEncode(s[..n]);
        UnquoteWithoutPercent(s[n..]);
      }
    }
  }

  /** Without escapes, `unquote_plus` only turns every `+` into a space. */
  lemma PlusOnlyBecomesSpace(s: string)
    requires '%' !in s
    ensures UnquotePlus(s) == PlusToSpace(s)
    ensures forall i :: 0 <= i < |s| ==> UnquotePlus(s)[i] == (if s[i] == '+' then ' ' else s[i])
  {
    var t := PlusToSpace(s);
    assert '%' !in t by {
      forall i | 0 <= i < |t| ensures t[i] != '%' { }
    }
    UnquoteWithoutPercent(t);
  }

  lemma {:induction false} QuoteBytesAscii(bs: seq<byte>)
    ensures forall i :: 0 <= i < |QuoteBytes(bs)| ==> IsAscii(QuoteBytes(bs)[i])
  {
    if |bs| > 0 {
      QuoteBytesAscii(bs[1..]);
    }
  }

  /** The UTF-8 bytes of an ASCII string are its character codes. */
  lemma {:induction false} EncodeAscii(s: string)
    requires forall i :: 0 <= i < |s| ==> IsAscii(s[i])
    ensures Utf8.Encode(s) == seq(|s|, i requires 0 <= i < |s| => s[i] as int)
  {
    if |s| > 0 {
      var tail := s[1..];
      EncodeAscii(tail);
      assert Utf8.EncodeChar(s[0]) == [s[0] as int];
      var codes := seq(|s|, i requires 0 <= i < |s| => s[i] as int);
      assert codes == [s[0] as int] + seq(|tail|, i requires 0 <= i < |tail| => tail[i] as int);
    }
  }

  lemma PlusToSpaceAppend(a: string, b: string)
    ensures PlusToSpace(a + b) == PlusToSpace(a) + PlusToSpace(b)
  {
  }

  lemma QuoteByteDecodes(b: byte, et: seq<byte>)
    ensures PercentDecode(Utf8.Encode(PlusToSpace(QuoteByte(b))) + et) == [b] + PercentDecode(et)
  {
    var head := PlusToSpace(QuoteByte(b));
    var eh := Utf8.Encode(head);
    if b == Space || IsAlwaysSafe(b) {
      assert head == [b as char];
      EncodeAscii(head);
      assert eh == [b];
      assert (eh + et)[1..] == et;
    } else {
      var h1, h2 := HexChar(b / 16), HexChar(b % 16);
      assert head == ['%', h1, h2];
      EncodeAscii(head);
      assert eh == [Percent, h1 as int, h2 as int];
      assert (eh + et)[3..] == et;
    }
  }

  /** `+` to space, then percent-decoding, gives back exactly the bytes `quote_plus` escaped. */
  lemma {:induction false} PercentDecodeQuoteBytes(bs: seq<byte>)
    ensures PercentDecode(Utf8.Encode(PlusToSpace(QuoteBytes(bs)))) == bs
  {
    if |bs| > 0 {
      var head := PlusToSpace(QuoteByte(bs[0]));
      var tail := PlusToSpace(QuoteBytes(bs[1..]));
      PlusToSpaceAppend(QuoteByte(bs[0]), QuoteBytes(bs[1..]));
      Utf8.EncodeAppend(head, tail);
      QuoteByteDecodes(bs[0], Utf8.Encode(tail));
      PercentDecodeQuoteBytes(bs[1..]);
    } else {
      assert QuoteBytes(bs) == "";
    }
  }

  /** `unquote_plus` inverts `quote_plus`: every key survives encoding and decoding unchanged. */
  lemma UnquotePlusQuotePlus(s: string)
    ensures UnquotePlus(QuotePlus(s)) == s
  {
    var t := PlusToSpace(QuotePlus(s));
    QuoteBytesAscii(Utf8.Encode(s));
    PercentDecodeQuoteBytes(Utf8.Encode(s));
    Utf8.DecodeEncode(s);
    UnquoteAscii(t);
  }

  /** An all-ASCII string is one run: it is percent-decoded and UTF-8 decoded as a whole. */
  lemma UnquoteAscii(s: string)
    requires forall i :: 0 <= i < |s| ==> IsAscii(s[i])
    ensures Unquote(s) == Utf8.Decode(PercentDecode(Utf8.Encode(s)))
  {
    if |s| > 0 {
      assert AsciiRunLength(s) == |s|;
      assert s[..|s|] == s && s[|s|..] == "";
    }
  }

  /** Between bytes that hold no `%`, one escape `%XY` is replaced by the byte it spells. */
  lemma {:induction false} PercentDecodeOneEscape(x: seq<byte>, h1: byte, h2: byte, y: seq<byte>)
    requires Percent !in x && Percent !in y && IsHexDigit(h1) && IsHexDigit(h2)
    ensures PercentDecode(x + [Percent, h1, h2] + y) == x + [HexValue(h1) * 16 + HexValue(h2)] + y
  {
    var bs := x + [Percent, h1, h2] + y;
    if |x| == 0 {
      assert bs == [Percent, h1, h2] + y && bs[3..] == y;
      PercentDecodeNoPercent(y);
    } else {
      assert bs[0] == x[0] && bs[1..] == x[1..] + [Percent, h1, h2] + y;
      PercentDecodeOneEscape(x[1..], h1, h2, y);
    }
  }

  /**
   * A `%` that is not followed by two hexadecimal digits is kept as it is, and decoding
   * goes on right after it.
   */
  lemma {:induction false} PercentDecodeLiteralPercent(x: seq<byte>, y: seq<byte>)
    requires Percent !in x && !(|y| >= 2 && IsHexDigit(y[0]) && IsHexDigit(y[1]))
    ensures PercentDecode(x + [Percent] + y) == x + [Percent] + PercentDecode(y)
  {
    var bs := x + [Percent] + y;
    if |x| == 0 {
      assert bs == [Percent] + y && bs[1..] == y;
    } else {
      assert bs[0] == x[0] && bs[1..] == x[1..] + [Percent] + y;
      PercentDecodeLiteralPercent(x[1..], y);
    }
  }

  /** Plain ASCII text: no `%`, no `+`. */
  predicate PlainAscii(s: string)
  {
    forall i :: 0 <= i < |s| ==> IsAscii(s[i]) && s[i] != '%' && s[i] != '+'
  }

  /** A `+` decodes to a space. */
  lemma PlusIsSpace(x: string, y: string)
    requires PlainAscii(x) && PlainAscii(y)
    ensures UnquotePlus(x + "+" + y) == x + " " + y
  {
    var plus := x + "+" + y;
    PlusOnlyBecomesSpace(plus);
    assert PlusToSpace(plus) == x + " " + y;
  }

  lemma EncodeAround(x: string, m: string, y: string)
    ensures Utf8.Encode(x + m + y) == Utf8.Encode(x) + Utf8.Encode(m) + Utf8.Encode(y)
  {
    Utf8.EncodeAppend(x + m, y);
    Utf8.EncodeAppend(x, m);
  }

  /** `%` followed by two hexadecimal digits, as a string. */
  function Escape(h1: char, h2: char): string { ['%', h1, h2] }

  lemma EncodeEscape(h1: char, h2: char)
    requires IsAscii(h1) && IsAscii(h2)
    ensures Utf8.Encode(Escape(h1, h2)) == [Percent, h1 as int, h2 as int]
  {
    EncodeAscii(Escape(h1, h2));
  }

  /** Between text without `%`, the UTF-8 bytes of an escape percent-decode to the one byte it spells. */
  lemma EncodedEscape(x: string, h1: char, h2: char, y: string)
    requires '%' !in x && '%' !in y
    requires IsAscii(h1) && IsAscii(h2) && IsHexDigit(h1 as int) && IsHexDigit(h2 as int)
    ensures PercentDecode(Utf8.Encode(x + Escape(h1, h2) + y))
         == Utf8.Encode(x) + [HexValue(h1 as int) * 16 + HexValue(h2 as int)] + Utf8.Encode(y)
  {
    var ex, ey := Utf8.Encode(x), Utf8.Encode(y);
    calc {
      PercentDecode(Utf8.Encode(x + Escape(h1, h2) + y));
      { EncodeAround(x, Escape(h1, h2), y); EncodeEscape(h1, h2); }
      PercentDecode(ex + [Percent, h1 as int, h2 as int] + ey);
      { EncodeNoPercent(x); EncodeNoPercent(y); PercentDecodeOneEscape(ex, h1 as int, h2 as int, ey); }
      ex + [HexValue(h1 as int) * 16 + HexValue(h2 as int)] + ey;
    }
  }

  /** Plain ASCII text around an escape is one ASCII run with no `+`. */
  lemma UnquotePlainEscaped(x: string, h1: char, h2: char, y: string)
    requires PlainAscii(x) && PlainAscii(y)
    requires IsAscii(h1) && IsAscii(h2) && IsHexDigit(h1 as int) && IsHexDigit(h2 as int)
    ensures var escaped := x + Escape(h1, h2) + y;
      UnquotePlus(escaped) == Utf8.Decode(PercentDecode(Utf8.Encode(escaped)))
  {
    var escaped := x + Escape(h1, h2) + y;
    assert PlusToSpace(escaped) == escaped;
    UnquoteAscii(escaped);
  }

  /** Decoding the percent-decoded bytes keeps the text before the escape. */
  lemma DecodeEscaped(x: string, h1: char, h2: char, y: string)
    requires '%' !in x && '%' !in y
    requires IsAscii(h1) && IsAscii(h2) && IsHexDigit(h1 as int) && IsHexDigit(h2 as int)
    ensures Utf8.Decode(PercentDecode(Utf8.Encode(x + Escape(h1, h2) + y)))
         == x + Utf8.Decode([HexValue(h1 as int) * 16 + HexValue(h2 as int)] + Utf8.Encode(y))
  {
    var b: byte := HexValue(h1 as int) * 16 + HexValue(h2 as int);
    var ex, rest := Utf8.Encode(x), [b] + Utf8.Encode(y);
    var decoded := PercentDecode(Utf8.Encode(x + Escape(h1, h2) + y));
    EncodedEscape(x, h1, h2, y);
    Wrappers.ConcatAssoc(ex, [b], Utf8.Encode(y));
    Utf8.DecodeEncodePrefix(x, rest);
  }

  /** One escape between plain ASCII text: the text is kept and the escape's byte is decoded with what follows. */
  lemma UnquoteEscapeBetween(x: string, h1: char, h2: char, y: string)
    requires PlainAscii(x) && PlainAscii(y)
    requires IsAscii(h1) && IsAscii(h2) && IsHexDigit(h1 as int) && IsHexDigit(h2 as int)
    ensures UnquotePlus(x + Escape(h1, h2) + y)
         == x + Utf8.Decode([HexValue(h1 as int) * 16 + HexValue(h2 as int)] + Utf8.Encode(y))
  {
    UnquotePlainEscaped(x, h1, h2, y);
    assert '%' !in x && '%' !in y;
    DecodeEscaped(x, h1, h2, y);
  }

  /** The UTF-8 bytes of `%zz` between text without `%` are left alone by percent-decoding. */
  lemma EncodedInvalidEscape(x: string, y: string)
    requires '%' !in x && '%' !in y
    ensures PercentDecode(Utf8.Encode(x + "%zz" + y)) == Utf8.Encode(x + "%zz" + y)
  {
    var ex, ey := Utf8.Encode(x), Utf8.Encode(y);
    var z: byte := 'z' as int;
    var zs := [z, z] + ey;
    calc {
      PercentDecode(Utf8.Encode(x + "%zz" + y));
      { EncodeAround(x, "%zz", y); EncodeEscape('z', 'z'); assert Escape('z', 'z') == "%zz"; }
      PercentDecode(ex + [Percent, z, z] + ey);
      { assert ex + [Percent, z, z] + ey == ex + [Percent] + zs; }
      PercentDecode(ex + [Percent] + zs);
      { EncodeNoPercent(x); PercentDecodeLiteralPercent(ex, zs); }
      ex + [Percent] + PercentDecode(zs);
      { EncodeNoPercent(y); PercentDecodeNoPercent(zs); }
      ex + [Percent] + zs;
      { assert ex + [Percent] + zs == ex + [Percent, z, z] + ey; }
      ex + [Percent, z, z] + ey;
      { EncodeAround(x, "%zz", y); EncodeEscape('z', 'z'); assert Escape('z', 'z') == "%zz"; }
      Utf8.Encode(x + "%zz" + y);
    }
  }

  /** An invalid escape such as `%zz` stays in the key as it is: nothing is replaced. */
  lemma InvalidEscapeKept(x: string, y: string)
    requires PlainAscii(x) && PlainAscii(y)
    ensures UnquotePlus(x + "%zz" + y) == x + "%zz" + y
  {
    var s := x + "%zz" + y;
    assert PlusToSpace(s) == s;
    assert forall i :: 0 <= i < |s| ==> IsAscii(s[i]);
    UnquoteAscii(s);
    assert '%' !in x && '%' !in y;
    EncodedInvalidEscape(x, y);
    Utf8.DecodeEncode(s);
  }

  /** A `%20` escape decodes to a space too. */
  lemma PercentTwentyIsSpace(x: string, y: string)
    requires PlainAscii(x) && PlainAscii(y)
    ensures UnquotePlus(x + "%20" + y) == x + " " + y
  {
    assert x + "%20" + y == x + Escape('2', '0') + y;
    UnquoteEscapeBetween(x, '2', '0', y);
    assert ([Space] + Utf8.Encode(y))[1..] == Utf8.Encode(y);
    Utf8.DecodeEncode(y);
  }

  /** An escape that spells a byte UTF-8 never uses decodes to one replacement character. */
  lemma InvalidEscapeReplaced(x: string, y: string)
    requires PlainAscii(x) && PlainAscii(y)
    ensures UnquotePlus(x + "%FF" + y) == x + [Utf8.Replacement] + y
  {
    assert x + "%FF" + y == x + Escape('F', 'F') + y;
    UnquoteEscapeBetween(x, 'F', 'F', y);
    Utf8.InvalidLeadReplaced(0xFF, Utf8.Encode(y));
    Utf8.DecodeEncode(y);
  }
}
