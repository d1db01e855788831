/**
 * Percent-encoding of octets as in section 2.1 of RFC 3986 ("%" followed by
 * two upper-case hexadecimal digits), the encoder encodeURIComponent of
 * section 19.2.6 of ECMA-262, and the URL Standard's "percent-decode".
 */
module Percent {
  import opened Utf8

  /** The upper-case hexadecimal digit for `n`. */
  function HexChar(n: int): (c: char)
    requires 0 <= n < 16
    ensures IsAscii(c)
  {
    if n < 10 then ('0' as int + n) as char else ('A' as int + n - 10) as char
  }

  /** Whether octet `b` is an ASCII hexadecimal digit, either case. */
  predicate IsHexByte(b: byte) {
    0x30 <= b <= 0x39 || 0x41 <= b <= 0x46 || 0x61 <= b <= 0x66
  }

  function HexValue(b: byte): (v: int)
    requires IsHexByte(b)
    ensures 0 <= v < 16
  {
    if b <= 0x39 then b - 0x30 else if b <= 0x46 then b - 0x37 else b - 0x57
  }

  /** "%XY", the three characters that stand for octet `b`. */
  function PercentEncodeByte(b: byte): string {
    ['%', HexChar(b / 16), HexChar(b % 16)]
  }

  /** Every octet of `bs` percent-encoded, in order. */
  function PercentEncodeBytes(bs: seq<byte>): (r: string)
    ensures |r| == 3 * |bs|
    ensures forall i :: 0 <= i < |r| ==> r[i] == '%' || '0' <= r[i] <= '9' || 'A' <= r[i] <= 'F'
  {
    if bs == [] then [] else PercentEncodeByte(bs[0]) + PercentEncodeBytes(bs[1..])
  }

  /** Octet i of `bs` is written as the three characters at 3i, 3i+1 and 3i+2: '%' and its two hexadecimal digits. */
  lemma {:induction false} PercentEncodeBytesBlocks(bs: seq<byte>)
    ensures forall i :: 0 <= i < |bs| ==> PercentEncodeBytes(bs)[3 * i..3 * i + 3] == PercentEncodeByte(bs[i])
  {
    if bs != [] {
      var head, tail := PercentEncodeByte(bs[0]), PercentEncodeBytes(bs[1..]);
      PercentEncodeBytesBlocks(bs[1..]);
      assert PercentEncodeBytes(bs) == head + tail;
      forall i | 1 <= i < |bs|
        ensures (head + tail)[3 * i..3 * i + 3] == PercentEncodeByte(bs[i])
      {
        assert (head + tail)[3 * i..3 * i + 3] == tail[3 * (i - 1)..3 * (i - 1) + 3];
        assert bs[1..][i - 1] == bs[i];
      }
    }
  }

  /** The code points encodeURIComponent leaves as they are: letters, digits and - _ . ! ~ * ' ( ). */
  predicate IsComponentUnescaped(c: char) {
    || 'A' <= c <= 'Z'
    || 'a' <= c <= 'z'
    || '0' <= c <= '9'
    || c == '-' || c == '_' || c == '.' || c == '!' || c == '~' || c == '*' || c == '\'' || c == '(' || c == ')'
  }

  /** An unescaped character or '%' is ASCII and none of the query-string delimiters '&', '=', '+', '#' and space. */
  lemma OutputCharIsSafe(c: char)
    requires IsComponentUnescaped(c) || c == '%'
    ensures IsAscii(c) && c !in "&=+# "
  {
  }

  /** How encodeURIComponent writes one code point. */
  function EncodeComponentChar(c: char): (r: string)
    ensures forall i :: 0 <= i < |r| ==> IsComponentUnescaped(r[i]) || r[i] == '%'
  {
    if IsComponentUnescaped(c) then [c] else PercentEncodeBytes(EncodeChar(c))
  }

  /**
   * encodeURIComponent: each code point outside the unescaped set becomes
   * the percent-encoding of its UTF-8 octets. The output consists only of
   * unescaped characters and '%'.
   */
  function EncodeUriComponent(s: string): (r: string)
    ensures forall i :: 0 <= i < |r| ==> IsComponentUnescaped(r[i]) || r[i] == '%'
  {
    if s == [] then [] else EncodeComponentChar(s[0]) + EncodeUriComponent(s[1..])
  }

  /** The URL Standard's percent-decode: "%XY" with two hexadecimal digits becomes one octet, all else is kept. */
  function PercentDecode(b: seq<byte>): (r: seq<byte>)
    decreases |b|
  {
    if b == [] then []
    else if b[0] == 0x25 && 3 <= |b| && IsHexByte(b[1]) && IsHexByte(b[2]) then
      [HexValue(b[1]) * 16 + HexValue(b[2])] + PercentDecode(b[3..])
    else [b[0]] + PercentDecode(b[1..])
  }

  /**
   * What encodeURIComponent's output cannot contain: none of the characters
   * that delimit a query string ('&', '=', '+', '#', space), and nothing
   * outside ASCII.
   */
  lemma EncodeUriComponentIsSafe(s: string)
    ensures AllAscii(EncodeUriComponent(s))
    ensures forall i :: 0 <= i < |EncodeUriComponent(s)| ==> EncodeUriComponent(s)[i] !in "&=+# "
  {
    var r := EncodeUriComponent(s);
    forall i | 0 <= i < |r|
      ensures IsAscii(r[i]) && r[i] !in "&=+# "
    {
      OutputCharIsSafe(r[i]);
    }
  }

  /** A string made only of unescaped characters passes through encodeURIComponent unchanged. */
  lemma {:induction false} EncodeUriComponentUnescaped(s: string)
    requires forall i :: 0 <= i < |s| ==> IsComponentUnescaped(s[i])
    ensures EncodeUriComponent(s) == s
  {
    if s != [] {
      EncodeUriComponentUnescaped(s[1..]);
    }
  }

  /** A string with no '%' percent-decodes to itself. */
  lemma {:induction false} PercentDecodeNoPercent(b: seq<byte>)
    requires forall i :: 0 <= i < |b| ==> b[i] != 0x25
    ensures PercentDecode(b) == b
  {
    if b != [] {
      PercentDecodeNoPercent(b[1..]);
    }
  }

  lemma HexRoundTrip(n: int)
    requires 0 <= n < 16
    ensures IsHexByte(HexChar(n) as int) && HexValue(HexChar(n) as int) == n
  {
  }

  /** Percent-decoding "%XY" gives back the octet it encodes. */
  lemma PercentDecodeEncodedByte(b: byte, rest: seq<byte>)
    ensures PercentDecode(Encode(PercentEncodeByte(b)) + rest) == [b] + PercentDecode(rest)
  {
    var p := PercentEncodeByte(b);
    EncodeAscii(p);
    var e := Encode(p) + rest;
    HexRoundTrip(b / 16);
    HexRoundTrip(b % 16);
    assert e[0] == 0x25 && e[1] == HexChar(b / 16) as int && e[2] == HexChar(b % 16) as int;
    assert e[3..] == rest;
  }

  lemma {:induction false} PercentDecodeEncodedBytes(bs: seq<byte>, rest: seq<byte>)
    ensures PercentDecode(Encode(PercentEncodeBytes(bs)) + rest) == bs + PercentDecode(rest)
  {
    if bs == [] {
      assert Encode(PercentEncodeBytes(bs)) + rest == rest;
    } else {
      var p := PercentEncodeByte(bs[0]);
      var q := PercentEncodeBytes(bs[1..]);
      var e := Encode(q) + rest;
      calc {
        PercentDecode(Encode(PercentEncodeBytes(bs)) + rest);
        == { assert PercentEncodeBytes(bs) == p + q;
             EncodeAppend(p, q);
             assert Encode(PercentEncodeBytes(bs)) + rest == Encode(p) + e; }
        PercentDecode(Encode(p) + e);
        == { PercentDecodeEncodedByte(bs[0], e); }
        [bs[0]] + PercentDecode(e);
        == { PercentDecodeEncodedBytes(bs[1..], rest); }
        [bs[0]] + (bs[1..] + PercentDecode(rest));
      }
      assert bs == [bs[0]] + bs[1..];
    }
  }

  lemma PercentDecodeComponentChar(c: char, rest: seq<byte>)
    ensures PercentDecode(Encode(EncodeComponentChar(c)) + rest) == EncodeChar(c) + PercentDecode(rest)
  {
    if IsComponentUnescaped(c) {
      var e := Encode([c]) + rest;
      assert Encode([c]) == EncodeChar(c) == [c as int];
      assert e[1..] == rest;
    } else {
      PercentDecodeEncodedBytes(EncodeChar(c), rest);
    }
  }

  /**
   * encodeURIComponent loses nothing: percent-decoding its output gives the
   * UTF-8 octets of the input.
   */
  lemma {:induction false} PercentDecodeEncodeUriComponent(s: string)
    ensures PercentDecode(Encode(EncodeUriComponent(s))) == Encode(s)
  {
    if s != [] {
      var p := EncodeComponentChar(s[0]);
      var q := EncodeUriComponent(s[1..]);
      EncodeAppend(p, q);
      PercentDecodeComponentChar(s[0], Encode(q));
      PercentDecodeEncodeUriComponent(s[1..]);
    }
  }
}
