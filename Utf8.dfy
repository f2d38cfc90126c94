/**
 * UTF-8 as used by `str.encode('utf-8')` and `bytes.decode('utf-8', errors='replace')`.
 *
 * Decoding never fails: a byte that cannot start a sequence, or a sequence that is cut
 * short, becomes one U+FFFD per maximal valid prefix, and decoding resumes at the first
 * byte that did not fit (the "maximal subpart" practice that CPython follows).
 */
module Utf8 {

  type byte = b: int | 0 <= b < 256

  const Replacement: char := '\U{FFFD}'

  predicate IsCont(b: byte) { 0x80 <= b <= 0xBF }

  predicate IsAsciiByte(b: byte) { b < 0x80 }

  /** Length of the sequence a lead byte announces, 0 when it cannot lead one. */
  function SeqLen(b: byte): nat
  {
    if 0xC2 <= b <= 0xDF then 2
    else if 0xE0 <= b <= 0xEF then 3
    else if 0xF0 <= b <= 0xF4 then 4
    else 0
  }

  /** Smallest and largest second byte allowed after the lead byte `b`. */
  function SecondLo(b: byte): byte
  {
    if b == 0xE0 then 0xA0 else if b == 0xF0 then 0x90 else 0x80
  }

  function SecondHi(b: byte): byte
  {
    if b == 0xED then 0x9F else if b == 0xF4 then 0x8F else 0xBF
  }

  /**
   * How many bytes at the front of `bs` form a (possibly incomplete) valid prefix of the
   * sequence that `bs[0]` announces.
   */
  function PrefixLen(bs: seq<byte>): (k: nat)
    requires |bs| >= 1 && SeqLen(bs[0]) >= 2
    ensures 1 <= k <= SeqLen(bs[0]) && k <= |bs|
  {
    var n := SeqLen(bs[0]);
    if |bs| < 2 || !(SecondLo(bs[0]) <= bs[1] <= SecondHi(bs[0])) then 1
    else if n == 2 || |bs| < 3 || !IsCont(bs[2]) then 2
    else if n == 3 || |bs| < 4 || !IsCont(bs[3]) then 3
    else 4
  }

  /** The scalar value of a complete, well-formed multi-byte sequence at the front of `bs`. */
  function SeqChar(bs: seq<byte>): char
    requires |bs| >= 1 && SeqLen(bs[0]) >= 2 && PrefixLen(bs) == SeqLen(bs[0])
  {
    var n := SeqLen(bs[0]);
    if n == 2 then
      ((bs[0] as int - 0xC0) * 64 + (bs[1] as int - 0x80)) as char
    else if n == 3 then
      var cp := ((bs[0] as int - 0xE0) * 64 + (bs[1] as int - 0x80)) * 64 + (bs[2] as int - 0x80);
      assert bs[0] == 0xED ==> cp <= 0xD7FF;
      assert 0xEE <= bs[0] ==> 0xE000 <= cp;
      assert bs[0] <= 0xEC ==> cp <= 0xCFFF;
      cp as char
    else
      var cp := (((bs[0] as int - 0xF0) * 64 + (bs[1] as int - 0x80)) * 64 + (bs[2] as int - 0x80)) * 64 + (bs[3] as int - 0x80);
      assert 0x10000 <= cp <= 0x10FFFF;
      cp as char
  }

  /**
   * What decoding takes from the front of `bs`: one character and the number of bytes it
   * consumes. A complete sequence gives its scalar value; a byte that cannot lead one, or
   * a valid but cut-short prefix, gives one replacement character.
   */
  function DecodeFirst(bs: seq<byte>): (r: (char, nat))
    requires |bs| >= 1
    ensures 1 <= r.1 <= |bs|
  {
    if IsAsciiByte(bs[0]) then (bs[0] as char, 1)
    else if SeqLen(bs[0]) == 0 then (Replacement, 1)
    else
      var k := PrefixLen(bs);
      if k == SeqLen(bs[0]) then (SeqChar(bs), k) else (Replacement, k)
  }

  /** `bytes.decode('utf-8', errors='replace')`. */
  function Decode(bs: seq<byte>): (s: string)
    ensures |s| <= |bs|
    decreases |bs|
  {
    if |bs| == 0 then ""
    else
      var first := DecodeFirst(bs);
      [first.0] + Decode(bs[first.1..])
  }

  /** The UTF-8 encoding of one scalar value. */
  function EncodeChar(c: char): (r: seq<byte>)
    ensures 1 <= |r| <= 4
  {
    var cp := c as int;
    if cp < 0x80 then [cp]
    else
      var q1, r1 := cp / 64, cp % 64;
      if cp < 0x800 then [0xC0 + q1, 0x80 + r1]
      else
        var q2, r2 := q1 / 64, q1 % 64;
        if cp < 0x10000 then [0xE0 + q2, 0x80 + r2, 0x80 + r1]
        else [0xF0 + q2 / 64, 0x80 + q2 % 64, 0x80 + r2, 0x80 + r1]
  }

  /** `str.encode('utf-8')`. */
  function Encode(s: string): (r: seq<byte>)
    ensures |r| >= |s|
  {
    if |s| == 0 then [] else EncodeChar(s[0]) + Encode(s[1..])
  }

  lemma {:induction false} EncodeAppend(a: string, b: string)
    ensures Encode(a + b) == Encode(a) + Encode(b)
  {
    if |a| > 0 {
      assert (a + b)[0] == a[0] && (a + b)[1..] == a[1..] + b;
      EncodeAppend(a[1..], b);
    } else {
      assert a + b == b;
    }
  }

  /** Decoding the encoding of one scalar value gives that value back, and consumes exactly its bytes. */
  lemma DecodeEncodeChar(c: char, rest: seq<byte>)
    ensures Decode(EncodeChar(c) + rest) == [c] + Decode(rest)
  {
    var cp := c as int;
    var bs := EncodeChar(c) + rest;
    var e := EncodeChar(c);
    assert bs[..|e|] == e;
    assert bs[|e|..] == rest;
    var q1, r1 := cp / 64, cp % 64;
    var q2, r2 := q1 / 64, q1 % 64;
    var q3, r3 := q2 / 64, q2 % 64;
    assert cp == q1 * 64 + r1 && q1 == q2 * 64 + r2 && q2 == q3 * 64 + r3;
    if cp < 0x80 {
    } else if cp < 0x800 {
      assert SeqLen(bs[0]) == 2 && PrefixLen(bs) == 2;
      assert SeqChar(bs) == c;
    } else if cp < 0x10000 {
      assert SeqLen(bs[0]) == 3 && PrefixLen(bs) == 3;
      assert SeqChar(bs) == c;
    } else {
      assert SeqLen(bs[0]) == 4 && PrefixLen(bs) == 4;
      assert SeqChar(bs) == c;
    }
  }

  /** Decoding reads the encoding of `s` back as `s` and then goes on with what follows it. */
  lemma {:induction false} DecodeEncodePrefix(s: string, rest: seq<byte>)
    ensures Decode(Encode(s) + rest) == s + Decode(rest)
  {
    if |s| > 0 {
      assert Encode(s) + rest == EncodeChar(s[0]) + (Encode(s[1..]) + rest);
      DecodeEncodeChar(s[0], Encode(s[1..]) + rest);
      DecodeEncodePrefix(s[1..], rest);
      assert s == [s[0]] + s[1..];
    } else {
      assert Encode(s) + rest == rest;
    }
  }

  /** Decoding inverts encoding: no text is lost or replaced by a round trip. */
  lemma {:induction false} DecodeEncode(s: string)
    ensures Decode(Encode(s)) == s
  {
    if |s| > 0 {
      DecodeEncodeChar(s[0], Encode(s[1..]));
      DecodeEncode(s[1..]);
    }
  }

  /** Bytes below 0x80 decode one for one to the characters with those codes. */
  lemma {:induction false} DecodeAscii(bs: seq<byte>)
    requires forall i :: 0 <= i < |bs| ==> IsAsciiByte(bs[i])
    ensures Decode(bs) == seq(|bs|, i requires 0 <= i < |bs| => bs[i] as char)
  {
    if |bs| > 0 {
      DecodeAscii(bs[1..]);
    }
  }

  /** A byte that cannot start a UTF-8 sequence becomes exactly one replacement character. */
  lemma InvalidLeadReplaced(b: byte, rest: seq<byte>)
    requires b >= 0x80 && SeqLen(b) == 0
    ensures Decode([b] + rest) == [Replacement] + Decode(rest)
  {
    assert ([b] + rest)[1..] == rest;
  }
}
