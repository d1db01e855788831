/**
 * The catalog page's filter record `{search, min, max, category}` and the
 * `queryString` function that turns it into the query string the Apply
 * button navigates to (src/pages/Home.jsx), together with the way the page
 * reads a filter back from URLSearchParams.
 */
module QueryCodec {
  import opened Wrappers
  import opened Utf8
  import opened Percent
  import opened Seqs
  import opened FormUrlEncoded

  /** The filter record; each field is the string an input last reported, or null. */
  datatype Filter = Filter(search: Option<string>, min: Option<string>, max: Option<string>, category: Option<string>)

  /** The record every render starts from: all four fields null. */
  const Blank: Filter := Filter(None, None, None, None)

  /** JavaScript truthiness of a string-or-null: neither null nor "". */
  predicate Truthy(v: Option<string>) {
    v.Some? && v.value != ""
  }

  /** The URL keys, in the order queryString writes them. */
  const KeyOrder: seq<string> := ["query", "min", "max", "category"]

  /** The position of a key in KeyOrder. */
  function Rank(key: string): nat {
    IndexOf(KeyOrder, key)
  }

  /** The pair written for a field under `key`: one when the field is truthy, none otherwise. */
  function Param(key: string, v: Option<string>): seq<Pair> {
    if Truthy(v) then [(key, v.value)] else []
  }

  /**
   * The key-value pairs queryString writes for `f`: `search` under "query",
   * the other fields under their own names, each only when truthy, in the
   * order query, min, max, category.
   */
  function Emitted(f: Filter): seq<Pair> {
    Param("query", f.search) + Param("min", f.min) + Param("max", f.max) + Param("category", f.category)
  }

  /** A key and its value as queryString writes them: key=encodeURIComponent(value). */
  function Segment(p: Pair): string {
    p.0 + "=" + EncodeUriComponent(p.1)
  }

  /** The segment of every pair, in order. */
  function SegmentsOf(pairs: seq<Pair>): seq<string> {
    if pairs == [] then [] else [Segment(pairs[0])] + SegmentsOf(pairs[1..])
  }

  /** The string queryString returns: the segments of the emitted pairs joined with '&'. */
  function QueryStringOf(f: Filter): string {
    Join(SegmentsOf(Emitted(f)), "&")
  }

  /**
   * queryString: push one segment per truthy field onto a list, then join
   * the list with '&'.
   */
  method QueryString(query: Filter) returns (qs: string)
    ensures qs == QueryStringOf(query)
  {
    var params: seq<string> := [];
    if Truthy(query.search) {
      params := params + ["query" + "=" + EncodeUriComponent(query.search.value)];
    }
    ghost var pushed := Param("query", query.search);
    SegmentsOfParam("query", query.search);
    assert params == SegmentsOf(pushed);
    if Truthy(query.min) {
      params := params + ["min" + "=" + EncodeUriComponent(query.min.value)];
    }
    SegmentsOfParam("min", query.min);
    SegmentsOfAppend(pushed, Param("min", query.min));
    pushed := pushed + Param("min", query.min);
    assert params == SegmentsOf(pushed);
    if Truthy(query.max) {
      params := params + ["max" + "=" + EncodeUriComponent(query.max.value)];
    }
    SegmentsOfParam("max", query.max);
    SegmentsOfAppend(pushed, Param("max", query.max));
    pushed := pushed + Param("max", query.max);
    assert params == SegmentsOf(pushed);
    if Truthy(query.category) {
      params := params + ["category" + "=" + EncodeUriComponent(query.category.value)];
    }
    SegmentsOfParam("category", query.category);
    SegmentsOfAppend(pushed, Param("category", query.category));
    pushed := pushed + Param("category", query.category);
    assert params == SegmentsOf(pushed);
    assert pushed == Emitted(query);
    qs := Join(params, "&");
  }

  /** The filter the page reads from its URL params: `get` of query, min, max and category. */
  function ReadFilter(params: seq<Pair>): Filter {
    Filter(Get(params, "query"), Get(params, "min"), Get(params, "max"), Get(params, "category"))
  }

  /** A field as a round trip through the URL keeps it: as it is when truthy, null otherwise. */
  function Kept(v: Option<string>): Option<string> {
    if Truthy(v) then v else None
  }

  /** `f` with every falsy field made null. */
  function Normalize(f: Filter): Filter {
    Filter(Kept(f.search), Kept(f.min), Kept(f.max), Kept(f.category))
  }

  // ---------------------------------------------------------------- lemmas

  /** The fields of `f` in key order. */
  function Fields(f: Filter): seq<Option<string>> {
    [f.search, f.min, f.max, f.category]
  }

  /** The segments a field contributes: one when it is truthy, none otherwise. */
  lemma SegmentsOfParam(key: string, v: Option<string>)
    ensures Truthy(v) ==> SegmentsOf(Param(key, v)) == [key + "=" + EncodeUriComponent(v.value)]
    ensures !Truthy(v) ==> SegmentsOf(Param(key, v)) == []
  {
    if Truthy(v) {
      assert Param(key, v)[1..] == [];
    }
  }

  /**
   * The page's reads of its URL params: each field is `get` of its key, with
   * `search` read under "query": null exactly when no pair has the key, and
   * otherwise the value of the first pair that does.
   */
  lemma ReadFilterGets(params: seq<Pair>)
    ensures forall k :: 0 <= k < |KeyOrder| ==>
      (Fields(ReadFilter(params))[k].None? <==> forall i :: 0 <= i < |params| ==> params[i].0 != KeyOrder[k])
    ensures forall k :: 0 <= k < |KeyOrder| && Fields(ReadFilter(params))[k].Some? ==>
      exists i :: 0 <= i < |params| && params[i] == (KeyOrder[k], Fields(ReadFilter(params))[k].value) &&
        FirstWith(params, KeyOrder[k], i)
  {
    var r := ReadFilter(params);
    assert Fields(r) == [Get(params, KeyOrder[0]), Get(params, KeyOrder[1]), Get(params, KeyOrder[2]), Get(params, KeyOrder[3])];
  }

  /** With every field truthy, queryString joins all four segments, in key order. */
  lemma QueryStringOfAllTruthy(f: Filter)
    requires Truthy(f.search) && Truthy(f.min) && Truthy(f.max) && Truthy(f.category)
    ensures QueryStringOf(f) == Join([
      "query=" + EncodeUriComponent(f.search.value), "min=" + EncodeUriComponent(f.min.value),
      "max=" + EncodeUriComponent(f.max.value), "category=" + EncodeUriComponent(f.category.value)], "&")
  {
    var e := Emitted(f);
    assert e == [("query", f.search.value), ("min", f.min.value), ("max", f.max.value), ("category", f.category.value)];
    assert "query" + "=" == "query=" && "min" + "=" == "min=" && "max" + "=" == "max=" && "category" + "=" == "category=";
    SegmentsOfAt(e);
    assert SegmentsOf(e) == [
      "query=" + EncodeUriComponent(f.search.value), "min=" + EncodeUriComponent(f.min.value),
      "max=" + EncodeUriComponent(f.max.value), "category=" + EncodeUriComponent(f.category.value)];
  }

  /** Making falsy fields null does not change what queryString writes. */
  lemma EmittedNormalize(f: Filter)
    ensures Emitted(Normalize(f)) == Emitted(f)
  {
  }

  lemma {:induction false} SegmentsOfAppend(a: seq<Pair>, b: seq<Pair>)
    ensures SegmentsOf(a + b) == SegmentsOf(a) + SegmentsOf(b)
  {
    if a == [] {
      assert a + b == b;
    } else {
      assert (a + b)[1..] == a[1..] + b;
      SegmentsOfAppend(a[1..], b);
    }
  }

  lemma {:induction false} SegmentsOfAt(pairs: seq<Pair>)
    ensures |SegmentsOf(pairs)| == |pairs|
    ensures forall i :: 0 <= i < |pairs| ==> SegmentsOf(pairs)[i] == Segment(pairs[i])
  {
    if pairs != [] {
      SegmentsOfAt(pairs[1..]);
    }
  }

  /** Every pair queryString writes has one of the four keys, and carries the truthy value of that key's field. */
  lemma EmittedOnlyTruthy(f: Filter)
    ensures forall i :: 0 <= i < |Emitted(f)| ==>
      && Emitted(f)[i].0 in KeyOrder
      && Truthy(Fields(f)[Rank(Emitted(f)[i].0)])
      && Emitted(f)[i].1 == Fields(f)[Rank(Emitted(f)[i].0)].value
  {
    assert Rank("query") == 0 && Rank("min") == 1 && Rank("max") == 2 && Rank("category") == 3;
  }

  /** Every truthy field is written, under its key and with its value. */
  lemma EmittedEveryTruthy(f: Filter)
    ensures forall k :: 0 <= k < |KeyOrder| && Truthy(Fields(f)[k]) ==>
      exists i :: 0 <= i < |Emitted(f)| && Emitted(f)[i] == (KeyOrder[k], Fields(f)[k].value)
  {
    var e := Emitted(f);
    var p0, p1, p2, p3 := Param("query", f.search), Param("min", f.min), Param("max", f.max), Param("category", f.category);
    assert e == p0 + p1 + p2 + p3;
    forall k | 0 <= k < |KeyOrder| && Truthy(Fields(f)[k])
      ensures exists i :: 0 <= i < |e| && e[i] == (KeyOrder[k], Fields(f)[k].value)
    {
      var i := if k == 0 then 0 else if k == 1 then |p0| else if k == 2 then |p0| + |p1| else |p0| + |p1| + |p2|;
      assert e[i] == (KeyOrder[k], Fields(f)[k].value);
    }
  }

  /** The keys queryString writes come in the order query, min, max, category, each at most once. */
  lemma EmittedInKeyOrder(f: Filter)
    ensures forall i, j :: 0 <= i < j < |Emitted(f)| ==> Rank(Emitted(f)[i].0) < Rank(Emitted(f)[j].0)
  {
    assert Rank("query") == 0 && Rank("min") == 1 && Rank("max") == 2 && Rank("category") == 3;
  }

  /** Reading the four keys back from the written pairs gives the filter with its falsy fields made null. */
  lemma ReadEmitted(f: Filter)
    ensures ReadFilter(Emitted(f)) == Normalize(f)
  {
    var e := Emitted(f);
    EmittedOnlyTruthy(f);
    EmittedEveryTruthy(f);
    assert Rank("query") == 0 && Rank("min") == 1 && Rank("max") == 2 && Rank("category") == 3;
    forall k | 0 <= k < |KeyOrder|
      ensures Get(e, KeyOrder[k]) == Kept(Fields(f)[k])
    {
      var r := Get(e, KeyOrder[k]);
      if r.Some? {
        var i :| 0 <= i < |e| && e[i] == (KeyOrder[k], r.value);
        assert Rank(e[i].0) == k;
      }
    }
    assert KeyOrder[0] == "query" && KeyOrder[1] == "min" && KeyOrder[2] == "max" && KeyOrder[3] == "category";
  }

  /** The four keys are made of lower-case ASCII letters. */
  lemma KeyIsLetters(key: string)
    requires key in KeyOrder
    ensures forall j :: 0 <= j < |key| ==> 'a' <= key[j] <= 'z'
  {
    assert key == "query" || key == "min" || key == "max" || key == "category";
  }

  /** A key's octets hold no '&' and no '=', and decode back to the key. */
  lemma KeyOctets(key: string)
    requires key in KeyOrder
    ensures var kb := Encode(key); Amp !in kb && Equals !in kb && DecodeComponent(kb) == key
  {
    KeyIsLetters(key);
    EncodeAscii(key);
    var kb := Encode(key);
    assert forall j :: 0 <= j < |kb| ==> 0x61 <= kb[j] <= 0x7A;
    PlusToSpaceNoPlus(kb);
    PercentDecodeNoPercent(kb);
    DecodeEncode(key);
  }

  /** The octets of an encoded value hold no '&', and decode back to the value. */
  lemma ValueOctets(v: string)
    ensures var vb := Encode(EncodeUriComponent(v)); Amp !in vb && DecodeComponent(vb) == v
  {
    var u := EncodeUriComponent(v);
    EncodeUriComponentIsSafe(v);
    EncodeAscii(u);
    var vb := Encode(u);
    assert forall j :: 0 <= j < |vb| ==> vb[j] == u[j] as int && u[j] != '&' && u[j] != '+';
    PlusToSpaceNoPlus(vb);
    PercentDecodeEncodeUriComponent(v);
    DecodeEncode(v);
  }

  /**
   * A written segment as octets: its key, then '=', then the encoded value;
   * it has no '&', and the parser reads it back as the pair it came from.
   */
  lemma ParseSegment(p: Pair)
    requires p.0 in KeyOrder
    ensures var b := Encode(Segment(p)); b != [] && Amp !in b && ParseSequence(b) == p
  {
    var key, v := p.0, EncodeUriComponent(p.1);
    EncodeAppend(key + "=", v);
    EncodeAppend(key, "=");
    assert Encode("=") == [Equals];
    KeyOctets(key);
    ValueOctets(p.1);
    var kb, vb := Encode(key), Encode(v);
    assert Encode(Segment(p)) == kb + [Equals] + vb;
    ParseSequenceSplit(kb, vb);
  }

  /**
   * Round trip through URLSearchParams: parsing "?" followed by the query
   * string gives exactly the written pairs, in order.
   */
  lemma ParseQueryString(f: Filter)
    ensures FromSearch("?" + QueryStringOf(f)) == Emitted(f)
  {
    var e := Emitted(f);
    var segs := SegmentsOf(e);
    SegmentsOfAt(e);
    var qs := Join(segs, "&");
    assert ("?" + qs)[1..] == qs;
    EncodeJoin(segs);
    var enc := seq(|segs|, i requires 0 <= i < |segs| => Encode(segs[i]));
    EmittedOnlyTruthy(f);
    forall i | 0 <= i < |enc|
      ensures enc[i] != [] && Amp !in enc[i] && ParseSequence(enc[i]) == e[i]
    {
      ParseSegment(e[i]);
    }
    ParseJoin(enc);
  }

  /**
   * The filter the page reads back after navigating to "?" + queryString(f)
   * is `f` with its null and "" fields as null; it is `f` itself exactly
   * when no field of `f` holds "".
   */
  lemma RoundTrip(f: Filter)
    ensures ReadFilter(FromSearch("?" + QueryStringOf(f))) == Normalize(f)
    ensures ReadFilter(FromSearch("?" + QueryStringOf(f))) == f <==>
      f.search != Some("") && f.min != Some("") && f.max != Some("") && f.category != Some("")
  {
    ParseQueryString(f);
    ReadEmitted(f);
  }

  /** Submitting the filter read back from the URL reproduces the same query string. */
  lemma ResubmitIsIdempotent(f: Filter)
    ensures QueryStringOf(ReadFilter(FromSearch("?" + QueryStringOf(f)))) == QueryStringOf(f)
  {
    RoundTrip(f);
    EmittedNormalize(f);
  }

  /** queryString is empty exactly when no field is truthy. */
  lemma QueryStringEmpty(f: Filter)
    ensures QueryStringOf(f) == "" <==> Normalize(f) == Blank
  {
    var e := Emitted(f);
    if e != [] {
      SegmentsNonEmpty(f);
      JoinNoStraySeparator(SegmentsOf(e), '&');
      EmittedOnlyTruthy(f);
      assert Truthy(Fields(f)[Rank(e[0].0)]);
    }
  }

  /**
   * The characters of a segment: the key, '=', then the encoded value, in
   * which none of '&', '=', '+', '#' and space occurs; nowhere is there an
   * '&' or a '#'.
   */
  lemma SegmentChars(p: Pair)
    requires p.0 in KeyOrder
    ensures var s, k := Segment(p), |p.0|;
      && k < |s| && s[..k + 1] == p.0 + "="
      && (forall j :: 0 <= j < |s| ==> s[j] != '&' && s[j] != '#')
      && (forall j :: k < j < |s| ==> s[j] !in "&=+ ")
  {
    var s, key, v := Segment(p), p.0, EncodeUriComponent(p.1);
    KeyIsLetters(key);
    EncodeUriComponentIsSafe(p.1);
    assert s[..|key| + 1] == key + "=";
    forall j | 0 <= j < |s|
      ensures s[j] != '&' && s[j] != '#' && (|key| < j ==> s[j] !in "&=+ ")
    {
      if j < |key| {
        assert s[j] == key[j];
      } else if j > |key| {
        assert s[j] == v[j - |key| - 1];
      }
    }
  }

  /** The segments are non-empty and none contains '&'. */
  lemma SegmentsNonEmpty(f: Filter)
    ensures |SegmentsOf(Emitted(f))| == |Emitted(f)|
    ensures forall i :: 0 <= i < |SegmentsOf(Emitted(f))| ==>
      SegmentsOf(Emitted(f))[i] != [] && '&' !in SegmentsOf(Emitted(f))[i]
  {
    var e := Emitted(f);
    SegmentsOfAt(e);
    EmittedOnlyTruthy(f);
    forall i | 0 <= i < |e|
      ensures Segment(e[i]) != [] && '&' !in Segment(e[i])
    {
      SegmentChars(e[i]);
    }
  }

  /** A non-empty query string has no '&' at either end and never two in a row. */
  lemma NoStraySeparator(f: Filter)
    ensures var qs := QueryStringOf(f);
      qs != "" ==>
        && qs[0] != '&'
        && qs[|qs| - 1] != '&'
        && forall i :: 0 <= i < |qs| - 1 ==> !(qs[i] == '&' && qs[i + 1] == '&')
  {
    if Emitted(f) != [] {
      SegmentsNonEmpty(f);
      JoinNoStraySeparator(SegmentsOf(Emitted(f)), '&');
    }
  }

  /**
   * Splitting a non-empty query string on '&' gives exactly the segments
   * key=encodeURIComponent(value), one per written pair, in order: each is
   * its key, '=', and a value with no raw '&', '=', '+' or space.
   */
  lemma SplitQueryString(f: Filter)
    ensures var qs := QueryStringOf(f); var segs := SplitOn(qs, '&');
      qs != "" ==>
        && segs == SegmentsOf(Emitted(f))
        && |segs| == |Emitted(f)|
        && forall i :: 0 <= i < |segs| ==>
          var key := Emitted(f)[i].0;
          && |key| < |segs[i]|
          && segs[i][..|key| + 1] == key + "="
          && forall j :: |key| < j < |segs[i]| ==> segs[i][j] !in "&=+ "
  {
    var e := Emitted(f);
    if e != [] {
      SegmentsNonEmpty(f);
      SplitOnJoin(SegmentsOf(e), '&');
      SegmentsOfAt(e);
      EmittedOnlyTruthy(f);
      forall i | 0 <= i < |e|
        ensures var s := Segment(e[i]); var key := e[i].0;
          |key| < |s| && s[..|key| + 1] == key + "=" && forall j :: |key| < j < |s| ==> s[j] !in "&=+ "
      {
        SegmentChars(e[i]);
      }
    }
  }
}
