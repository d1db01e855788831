/**
 * The application/x-www-form-urlencoded format of section 5 of the WHATWG
 * URL Standard, which URLSearchParams implements: the parser (section 5.1)
 * that `new URLSearchParams(search)` runs, the serializer (section 5.2)
 * behind `toString()`, and `get(name)`.
 */
module FormUrlEncoded {
  import opened Wrappers
  import opened Utf8
  import opened Percent
  import opened Seqs

  /** A name-value pair of a URLSearchParams list. */
  type Pair = (string, string)

  const Amp: byte := 0x26
  const Equals: byte := 0x3D
  const Plus: byte := 0x2B
  const Space: byte := 0x20

  /** Every '+' octet replaced by a space octet. */
  function PlusToSpace(b: seq<byte>): seq<byte> {
    seq(|b|, i requires 0 <= i < |b| => if b[i] == Plus then Space else b[i])
  }

  /** A name or value: '+' to space, then percent-decode, then UTF-8 decode without BOM. */
  function DecodeComponent(b: seq<byte>): string {
    Decode(PercentDecode(PlusToSpace(b)))
  }

  /** One non-empty sequence between '&'s: the name is what precedes the first '=', the value what follows it. */
  function ParseSequence(b: seq<byte>): Pair {
    var i := IndexOf(b, Equals);
    var value := if i < |b| then b[i + 1..] else [];
    (DecodeComponent(b[..i]), DecodeComponent(value))
  }

  /** The pairs of the sequences in order, empty sequences skipped. */
  function ParseSequences(seqs: seq<seq<byte>>): seq<Pair> {
    if seqs == [] then []
    else (if seqs[0] == [] then [] else [ParseSequence(seqs[0])]) + ParseSequences(seqs[1..])
  }

  /** The application/x-www-form-urlencoded parser on the octets of its input. */
  function Parse(input: seq<byte>): seq<Pair> {
    ParseSequences(SplitOn(input, Amp))
  }

  /**
   * `new URLSearchParams(init)` for a string: a leading '?' is dropped and the
   * rest is UTF-8 encoded and parsed.
   */
  function FromSearch(init: string): seq<Pair> {
    var s := if |init| > 0 && init[0] == '?' then init[1..] else init;
    Parse(Encode(s))
  }

  /** No pair before position `i` is named `name`. */
  predicate FirstWith(pairs: seq<Pair>, name: string, i: int)
    requires 0 <= i <= |pairs|
  {
    forall j :: 0 <= j < i ==> pairs[j].0 != name
  }

  /**
   * `get(name)`: the value of the first pair with that name, or null. The
   * result is null exactly when no pair has the name, and otherwise the value
   * of the first one that does.
   */
  function Get(pairs: seq<Pair>, name: string): (r: Option<string>)
    ensures r.None? <==> forall i :: 0 <= i < |pairs| ==> pairs[i].0 != name
    ensures r.Some? ==> exists i :: 0 <= i < |pairs| && pairs[i] == (name, r.value) && FirstWith(pairs, name, i)
  {
    if pairs == [] then None
    else if pairs[0].0 == name then Some(pairs[0].1)
    else
      var r := Get(pairs[1..], name);
      assert forall i :: 1 <= i < |pairs| ==> pairs[i] == pairs[1..][i - 1];
      r
  }

  /** The octets the serializer writes as they are: ASCII letters, digits and * - . _ */
  predicate IsFormUnescaped(b: byte) {
    || 0x30 <= b <= 0x39
    || 0x41 <= b <= 0x5A
    || 0x61 <= b <= 0x7A
    || b == 0x2A || b == 0x2D || b == 0x2E || b == 0x5F
  }

  /** How the serializer writes one octet: a space as '+', an unescaped octet as itself, the rest as %XY. */
  function FormEncodeByte(b: byte): (r: string)
    ensures AllAscii(r)
    ensures forall i :: 0 <= i < |r| ==> r[i] != '&' && r[i] != '='
  {
    if b == Space then "+"
    else if IsFormUnescaped(b) then [b as char]
    else PercentEncodeByte(b)
  }

  function FormEncodeBytes(bs: seq<byte>): (r: string)
    ensures AllAscii(r)
    ensures forall i :: 0 <= i < |r| ==> r[i] != '&' && r[i] != '='
  {
    if bs == [] then [] else FormEncodeByte(bs[0]) + FormEncodeBytes(bs[1..])
  }

  /** One name or value as the serializer writes it. */
  function FormEncode(s: string): string {
    FormEncodeBytes(Encode(s))
  }

  function SerializePair(p: Pair): string {
    FormEncode(p.0) + "=" + FormEncode(p.1)
  }

  /** `toString()`: every pair as name=value, joined with '&'. */
  function Serialize(pairs: seq<Pair>): string {
    Join(seq(|pairs|, i requires 0 <= i < |pairs| => SerializePair(pairs[i])), "&")
  }

  // ---------------------------------------------------------------- lemmas

  lemma PlusToSpaceAppend(a: seq<byte>, b: seq<byte>)
    ensures PlusToSpace(a + b) == PlusToSpace(a) + PlusToSpace(b)
  {
  }

  lemma PlusToSpaceNoPlus(b: seq<byte>)
    requires Plus !in b
    ensures PlusToSpace(b) == b
  {
  }

  /** The UTF-8 octets of a join on "&" are the join of the parts' octets on the '&' octet. */
  lemma {:induction false} EncodeJoin(parts: seq<string>)
    ensures Encode(Join(parts, "&")) ==
      Join(seq(|parts|, i requires 0 <= i < |parts| => Encode(parts[i])), [Amp])
    decreases |parts|
  {
    var enc := seq(|parts|, i requires 0 <= i < |parts| => Encode(parts[i]));
    if |parts| > 1 {
      var rest := Join(parts[1..], "&");
      EncodeAppend(parts[0] + "&", rest);
      EncodeAppend(parts[0], "&");
      assert Encode("&") == [Amp];
      EncodeJoin(parts[1..]);
      assert enc[1..] == seq(|parts[1..]|, i requires 0 <= i < |parts[1..]| => Encode(parts[1..][i]));
    }
  }

  /** A list of non-empty sequences parses to their pairs, one each. */
  lemma {:induction false} ParseSequencesNonEmpty(seqs: seq<seq<byte>>)
    requires forall i :: 0 <= i < |seqs| ==> seqs[i] != []
    ensures ParseSequences(seqs) == seq(|seqs|, i requires 0 <= i < |seqs| => ParseSequence(seqs[i]))
  {
    if seqs != [] {
      ParseSequencesNonEmpty(seqs[1..]);
    }
  }

  /**
   * Parsing the '&'-join of non-empty sequences without '&' gives one pair
   * per sequence, in order.
   */
  lemma ParseJoin(seqs: seq<seq<byte>>)
    requires forall i :: 0 <= i < |seqs| ==> seqs[i] != [] && Amp !in seqs[i]
    ensures Parse(Join(seqs, [Amp])) == seq(|seqs|, i requires 0 <= i < |seqs| => ParseSequence(seqs[i]))
  {
    if seqs == [] {
      var empty: seq<byte> := [];
      assert IndexOf(empty, Amp) == 0;
      assert SplitOn(empty, Amp) == [[]];
      assert ParseSequences([[]]) == [];
    } else {
      SplitOnJoin(seqs, Amp);
      ParseSequencesNonEmpty(seqs);
    }
  }

  /** A sequence name=value whose name has no '=' parses to the decoded name and value. */
  lemma ParseSequenceSplit(name: seq<byte>, value: seq<byte>)
    requires Equals !in name
    ensures ParseSequence(name + [Equals] + value) == (DecodeComponent(name), DecodeComponent(value))
  {
    var b := name + [Equals] + value;
    IndexOfAfter(name, Equals, value);
    assert b[..|name|] == name;
    assert b[|name| + 1..] == value;
  }

  /** What the serializer writes for an octet decodes back to that octet. */
  lemma DecodeFormEncodedByte(b: byte, rest: seq<byte>)
    ensures PercentDecode(PlusToSpace(Encode(FormEncodeByte(b))) + rest) == [b] + PercentDecode(rest)
  {
    var f := FormEncodeByte(b);
    EncodeAscii(f);
    if b == Space || IsFormUnescaped(b) {
      var e := PlusToSpace(Encode(f)) + rest;
      assert PlusToSpace(Encode(f)) == [b];
      assert e[1..] == rest;
    } else {
      assert PlusToSpace(Encode(f)) == Encode(PercentEncodeByte(b));
      PercentDecodeEncodedByte(b, rest);
    }
  }

  lemma {:induction false} DecodeFormEncodedBytes(bs: seq<byte>)
    ensures PercentDecode(PlusToSpace(Encode(FormEncodeBytes(bs)))) == bs
  {
    if bs != [] {
      var p := FormEncodeByte(bs[0]);
      var q := FormEncodeBytes(bs[1..]);
      EncodeAppend(p, q);
      PlusToSpaceAppend(Encode(p), Encode(q));
      DecodeFormEncodedByte(bs[0], PlusToSpace(Encode(q)));
      DecodeFormEncodedBytes(bs[1..]);
    }
  }

  /** A name or value the serializer writes parses back to itself. */
  lemma DecodeFormEncode(s: string)
    ensures DecodeComponent(Encode(FormEncode(s))) == s
    ensures Amp !in Encode(FormEncode(s)) && Equals !in Encode(FormEncode(s))
  {
    DecodeFormEncodedBytes(Encode(s));
    DecodeEncode(s);
    EncodeAscii(FormEncode(s));
  }

  /** Octets the serializer leaves unescaped are written as the characters they encode. */
  lemma {:induction false} FormEncodeBytesUnescaped(bs: seq<byte>)
    requires forall i :: 0 <= i < |bs| ==> IsFormUnescaped(bs[i])
    ensures FormEncodeBytes(bs) == seq(|bs|, i requires 0 <= i < |bs| => bs[i] as char)
  {
    if bs != [] {
      FormEncodeBytesUnescaped(bs[1..]);
    }
  }

  /** A name made of ASCII letters and digits is written as it is. */
  lemma FormEncodeAlphanumeric(s: string)
    requires forall i :: 0 <= i < |s| ==> 'a' <= s[i] <= 'z' || 'A' <= s[i] <= 'Z' || '0' <= s[i] <= '9'
    ensures FormEncode(s) == s
  {
    EncodeAscii(s);
    FormEncodeBytesUnescaped(Encode(s));
  }

  /** A space is written as '+'. */
  lemma FormEncodeSpace()
    ensures FormEncode(" ") == "+"
  {
    assert Encode(" ") == EncodeChar(' ') + Encode("");
    assert EncodeChar(' ') == [Space];
  }

  /** A list of one pair is written as that pair alone. */
  lemma SerializeSingle(p: Pair)
    ensures Serialize([p]) == SerializePair(p)
  {
    assert seq(1, i requires 0 <= i < 1 => SerializePair([p][i])) == [SerializePair(p)];
  }

  /**
   * The leading '?' of a search is optional: "?" + s parses as s does when
   * s does not itself start with '?', and an empty search, with or without
   * its '?', has no params.
   */
  lemma FromSearchMark(s: string)
    ensures FromSearch("?" + s) == Parse(Encode(s))
    ensures (s == [] || s[0] != '?') ==> FromSearch(s) == FromSearch("?" + s)
    ensures FromSearch("") == [] && FromSearch("?") == []
  {
    assert ("?" + s)[1..] == s;
    var empty: seq<byte> := [];
    assert Encode("") == empty;
    assert IndexOf(empty, Amp) == 0;
    assert SplitOn(empty, Amp) == [[]];
    assert ParseSequences([[]]) == [];
    assert "?"[1..] == "";
  }

  /**
   * Splitting `toString()` on '&' gives back the written pairs one by one,
   * and in each the first '=' is the one after the name.
   */
  lemma SerializeSplit(pairs: seq<Pair>)
    ensures pairs != [] ==>
      SplitOn(Serialize(pairs), '&') == seq(|pairs|, i requires 0 <= i < |pairs| => SerializePair(pairs[i]))
    ensures forall i :: 0 <= i < |pairs| ==>
      && '=' !in FormEncode(pairs[i].0)
      && SerializePair(pairs[i])[|FormEncode(pairs[i].0)|] == '='
  {
    var parts := seq(|pairs|, i requires 0 <= i < |pairs| => SerializePair(pairs[i]));
    forall i | 0 <= i < |parts|
      ensures '&' !in parts[i]
    {
      var n, v := FormEncode(pairs[i].0), FormEncode(pairs[i].1);
      assert parts[i] == n + "=" + v;
      assert forall j :: 0 <= j < |parts[i]| ==> parts[i][j] != '&' by {
        assert forall j :: 0 <= j < |n| ==> parts[i][j] == n[j];
        assert forall j :: |n| < j < |parts[i]| ==> parts[i][j] == v[j - |n| - 1];
      }
    }
    if pairs != [] {
      SplitOnJoin(parts, '&');
    }
  }

  /** The serializer and the parser are inverse: a URLSearchParams list survives `toString()`. */
  lemma ParseSerialize(pairs: seq<Pair>)
    ensures Parse(Encode(Serialize(pairs))) == pairs
  {
    var parts := seq(|pairs|, i requires 0 <= i < |pairs| => SerializePair(pairs[i]));
    var enc := seq(|parts|, i requires 0 <= i < |parts| => Encode(parts[i]));
    EncodeJoin(parts);
    forall i | 0 <= i < |parts|
      ensures enc[i] != [] && Amp !in enc[i] && ParseSequence(enc[i]) == pairs[i]
    {
      var n := FormEncode(pairs[i].0);
      var v := FormEncode(pairs[i].1);
      DecodeFormEncode(pairs[i].0);
      DecodeFormEncode(pairs[i].1);
      EncodeAppend(n + "=", v);
      EncodeAppend(n, "=");
      assert Encode("=") == [Equals];
      assert enc[i] == Encode(n) + [Equals] + Encode(v);
      ParseSequenceSplit(Encode(n), Encode(v));
    }
    ParseJoin(enc);
  }

  /** `toString()` is empty exactly for the empty list. */
  lemma SerializeEmpty(pairs: seq<Pair>)
    ensures Serialize(pairs) == "" <==> pairs == []
  {
    if pairs != [] {
      ParseSerialize(pairs);
    }
  }
}
