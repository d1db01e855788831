/**
 * UTF-8 as the WHATWG Encoding Standard defines it. Its encoder turns code
 * points into octets; encodeURIComponent and URLSearchParams both use it.
 * Its decoder, "UTF-8 decode without BOM", turns octets back into code
 * points and replaces each maximal malformed subsequence by U+FFFD; the
 * application/x-www-form-urlencoded parser uses it for names and values.
 */
module Utf8 {

  /** An octet. */
  type byte = b: int | 0 <= b < 0x100

  /** U+FFFD REPLACEMENT CHARACTER, the decoder's output for malformed input. */
  const Replacement: char := '\U{FFFD}'

  predicate IsAscii(c: char) {
    c as int < 0x80
  }

  predicate AllAscii(s: string) {
    forall i :: 0 <= i < |s| ==> IsAscii(s[i])
  }

  predicate IsContinuation(b: byte) {
    0x80 <= b <= 0xBF
  }

  /** The one to four octets that encode code point `c`. */
  function EncodeChar(c: char): (r: seq<byte>)
    ensures 1 <= |r| <= 4
    ensures |r| == 1 <==> IsAscii(c)
    ensures IsAscii(c) ==> r[0] == c as int
    ensures !IsAscii(c) ==> 0xC2 <= r[0] <= 0xF4
    ensures forall i :: 1 <= i < |r| ==> IsContinuation(r[i])
  {
    var n := c as int;
    if n < 0x80 then [n]
    else if n < 0x800 then [0xC0 + n / 0x40, 0x80 + n % 0x40]
    else if n < 0x1_0000 then [0xE0 + n / 0x1000, 0x80 + (n / 0x40) % 0x40, 0x80 + n % 0x40]
    else [0xF0 + n / 0x4_0000, 0x80 + (n / 0x1000) % 0x40, 0x80 + (n / 0x40) % 0x40, 0x80 + n % 0x40]
  }

  /** UTF-8 encode: the octets of every code point of `s`, in order. */
  function Encode(s: string): seq<byte> {
    if s == [] then [] else EncodeChar(s[0]) + Encode(s[1..])
  }

  /** How many continuation octets the lead octet `lead` announces. */
  function Needed(lead: byte): nat
    requires 0xC2 <= lead <= 0xF4
  {
    if lead <= 0xDF then 1 else if lead <= 0xEF then 2 else 3
  }

  /** The smallest second octet allowed after `lead` (rules out overlong forms). */
  function LowerBound(lead: byte): byte {
    if lead == 0xE0 then 0xA0 else if lead == 0xF0 then 0x90 else 0x80
  }

  /** The largest second octet allowed after `lead` (rules out surrogates and code points above U+10FFFF). */
  function UpperBound(lead: byte): byte {
    if lead == 0xED then 0x9F else if lead == 0xF4 then 0x8F else 0xBF
  }

  /**
   * How many of the next octets, at most `need`, continue the sequence:
   * the first must lie in [lower, upper], the others in [80, BF].
   */
  function ContinuationRun(b: seq<byte>, need: nat, lower: byte, upper: byte): (k: nat)
    requires 0x80 <= lower && upper <= 0xBF
    ensures k <= need && k <= |b|
    ensures k > 0 ==> lower <= b[0] <= upper
    ensures forall i :: 0 <= i < k ==> IsContinuation(b[i])
  {
    if need == 0 || b == [] || !(lower <= b[0] <= upper) then 0
    else 1 + ContinuationRun(b[1..], need - 1, 0x80, 0xBF)
  }

  /** The code point that a lead octet and its complete continuation octets stand for. */
  function ScalarOf(lead: byte, cont: seq<byte>): char
    requires 0xC2 <= lead <= 0xF4 && |cont| == Needed(lead)
    requires LowerBound(lead) <= cont[0] <= UpperBound(lead)
    requires forall i :: 1 <= i < |cont| ==> IsContinuation(cont[i])
  {
    var l, c0 := lead as int, cont[0] as int;
    if |cont| == 1 then
      ((l - 0xC0) * 0x40 + (c0 - 0x80)) as char
    else if |cont| == 2 then
      assert IsContinuation(cont[1]);
      var n := (l - 0xE0) * 0x1000 + (c0 - 0x80) * 0x40 + (cont[1] as int - 0x80);
      assert l < 0xED ==> n < 0xD000;
      assert l == 0xED ==> n < 0xD800;
      assert l > 0xED ==> 0xE000 <= n < 0x1_0000;
      n as char
    else
      assert IsContinuation(cont[1]) && IsContinuation(cont[2]);
      var n := (l - 0xF0) * 0x4_0000 + (c0 - 0x80) * 0x1000 + (cont[1] as int - 0x80) * 0x40 + (cont[2] as int - 0x80);
      assert l < 0xF4 ==> n < 0x10_0000;
      assert l == 0xF4 ==> n < 0x11_0000;
      n as char
  }

  /** UTF-8 decode without BOM. */
  function Decode(b: seq<byte>): string
    decreases |b|
  {
    if b == [] then []
    else if b[0] < 0x80 then [b[0] as char] + Decode(b[1..])
    else if b[0] < 0xC2 || 0xF4 < b[0] then [Replacement] + Decode(b[1..])
    else
      var need := Needed(b[0]);
      var k := ContinuationRun(b[1..], need, LowerBound(b[0]), UpperBound(b[0]));
      if k == need then [ScalarOf(b[0], b[1..1 + need])] + Decode(b[1 + need..])
      else [Replacement] + Decode(b[1 + k..])
  }

  /** Encoding a concatenation encodes each part. */
  lemma {:induction false} EncodeAppend(a: string, b: string)
    ensures Encode(a + b) == Encode(a) + Encode(b)
  {
    if a == [] {
      assert a + b == b;
    } else {
      assert (a + b)[1..] == a[1..] + b;
      EncodeAppend(a[1..], b);
    }
  }

  /** An ASCII string encodes to its own character codes, one octet each. */
  lemma {:induction false} EncodeAscii(s: string)
    requires AllAscii(s)
    ensures |Encode(s)| == |s|
    ensures forall i :: 0 <= i < |s| ==> Encode(s)[i] == s[i] as int
  {
    if s != [] {
      EncodeAscii(s[1..]);
    }
  }

  lemma ContinuationRunFull(b: seq<byte>, need: nat, lower: byte, upper: byte)
    requires 0x80 <= lower && upper <= 0xBF
    requires need <= |b|
    requires need > 0 ==> lower <= b[0] <= upper
    requires forall i :: 1 <= i < need ==> IsContinuation(b[i])
    ensures ContinuationRun(b, need, lower, upper) == need
  {
    if need > 0 {
      ContinuationRunFull(b[1..], need - 1, 0x80, 0xBF);
    }
  }

  /** The decoder recovers the code point from the octets the encoder writes for it. */
  lemma ScalarOfEncodeChar(c: char)
    requires !IsAscii(c)
    ensures var e := EncodeChar(c);
      LowerBound(e[0]) <= e[1] <= UpperBound(e[0]) && |e| - 1 == Needed(e[0]) && ScalarOf(e[0], e[1..]) == c
  {
    var n := c as int;
    var e := EncodeChar(c);
    if n < 0x800 {
      assert n == (n / 0x40) * 0x40 + n % 0x40;
    } else if n < 0x1_0000 {
      var q := n / 0x40;
      assert n == q * 0x40 + n % 0x40;
      assert q == (q / 0x40) * 0x40 + q % 0x40;
      assert n / 0x1000 == q / 0x40;
    } else {
      var q := n / 0x40;
      var p := q / 0x40;
      assert n == q * 0x40 + n % 0x40;
      assert q == p * 0x40 + q % 0x40;
      assert p == (p / 0x40) * 0x40 + p % 0x40;
      assert n / 0x1000 == p;
      assert n / 0x4_0000 == p / 0x40;
    }
  }

  /** Decoding the octets of one code point followed by anything yields that code point first. */
  lemma DecodeEncodeChar(c: char, rest: seq<byte>)
    ensures Decode(EncodeChar(c) + rest) == [c] + Decode(rest)
  {
    var e := EncodeChar(c);
    var b := e + rest;
    assert b[1..] == e[1..] + rest;
    if IsAscii(c) {
      assert b[1..] == rest;
    } else {
      ScalarOfEncodeChar(c);
      var need := Needed(b[0]);
      assert need == |e| - 1;
      ContinuationRunFull(b[1..], need, LowerBound(b[0]), UpperBound(b[0]));
      assert b[1..1 + need] == e[1..];
      assert b[1 + need..] == rest;
    }
  }

  /** Decoding inverts encoding: UTF-8 is lossless for every string. */
  lemma {:induction false} DecodeEncode(s: string)
    ensures Decode(Encode(s)) == s
  {
    if s != [] {
      DecodeEncodeChar(s[0], Encode(s[1..]));
      DecodeEncode(s[1..]);
    }
  }
}
