/**
 * One render of the catalog page (src/pages/Home.jsx). The page reads the
 * committed filter from its URL, chooses the products request path and
 * cache key from it, and starts a fresh all-null filter record that the
 * four input handlers reassign. Apply navigates to "?" + queryString(query);
 * Remove navigates to "/" and invalidates the cached product lists. Every
 * navigation renders the page again, with a new record.
 */
module Home {
  import opened Wrappers
  import opened Seqs
  import opened Utf8
  import opened Percent
  import opened FormUrlEncoded
  import opened QueryCodec

  /** The first element of every products cache key; Remove invalidates the keys that start with it. */
  const ProductsResource: string := "allProducts"

  /** A products cache key `["allProducts", query1.toString()]`. */
  datatype ProductsKey = ProductsKey(resource: string, search: string)

  /**
   * The products request path for URL params: "product" exactly when there
   * are none, and otherwise "product?" followed by their `toString()`, which
   * parses back to the same params.
   */
  function FetchPathOf(params: seq<Pair>): (path: string)
    ensures path == "product" <==> params == []
    ensures params != [] ==>
      |path| > 8 && path[..8] == "product?" && FromSearch(path[7..]) == params
  {
    var s := Serialize(params);
    SerializeEmpty(params);
    ParseSerialize(params);
    var path := if s != "" then "product?" + s else "product";
    assert s != "" ==> path[7..] == "?" + s && ("?" + s)[1..] == s;
    path
  }

  /**
   * The `search` of the location a navigation to `target` leads to: from
   * the first '?' of the part before any '#', or "" when there is no '?'
   * or nothing follows it. It is empty or starts with '?' and has
   * something after it, never holds '#', and a target "?" + q with no '#'
   * and q non-empty leads to exactly that search.
   */
  function SearchOf(target: string): (search: string)
    ensures search == "" || (|search| > 1 && search[0] == '?')
    ensures '#' !in search
    ensures '?' !in target ==> search == ""
    ensures |target| > 1 && target[0] == '?' && '#' !in target ==> search == target
  {
    var path := target[..IndexOf(target, '#')];
    var s := path[IndexOf(path, '?')..];
    if s == "?" then "" else s
  }

  /** One render of the page. */
  class HomeView {
    /** `useLocation().search` for this render. */
    const location: string
    /** `query1`: the URLSearchParams of the location. */
    const params: seq<Pair>
    /** The `let query` record that the change handlers reassign. */
    var query: Filter

    /** A render at a location: the params come from the URL, the record starts all-null whatever the URL holds. */
    constructor (search: string)
      ensures location == search && params == FromSearch(search)
      ensures query == Blank
    {
      location := search;
      params := FromSearch(search);
      query := Blank;
    }

    /** `queryParam`, `minParam`, `maxParam` and `categoryParam`, as one filter. */
    function Committed(): Filter {
      ReadFilter(params)
    }

    /** The path the products request fetches. */
    function FetchPath(): string {
      FetchPathOf(params)
    }

    /**
     * The products cache key: "allProducts" and the URL params'
     * `toString()`, which is "" exactly when there are no params and parses
     * back to them.
     */
    function Key(): (key: ProductsKey)
      ensures key.resource == ProductsResource
      ensures key.search == "" <==> params == []
      ensures Parse(Encode(key.search)) == params
    {
      SerializeEmpty(params);
      ParseSerialize(params);
      ProductsKey(ProductsResource, Serialize(params))
    }

    /** The search input changed: only `search` takes the new value. */
    method HandleSearchChange(value: string)
      modifies this
      ensures query == old(query).(search := Some(value))
    {
      query := query.(search := Some(value));
    }

    /** The minimum price input changed: only `min` takes the new value. */
    method HandleMinPriceChange(value: string)
      modifies this
      ensures query == old(query).(min := Some(value))
    {
      query := query.(min := Some(value));
    }

    /** The maximum price input changed: only `max` takes the new value. */
    method HandleMaxPriceChange(value: string)
      modifies this
      ensures query == old(query).(max := Some(value))
    {
      query := query.(max := Some(value));
    }

    /** The category selection changed: only `category` takes the new value. */
    method HandleCategoryChange(value: string)
      modifies this
      ensures query == old(query).(category := Some(value))
    {
      query := query.(category := Some(value));
    }

    /** Apply: the navigation target is "?" followed by the query string of the current record. */
    method HandleSubmit() returns (target: string)
      ensures target == "?" + QueryStringOf(query)
    {
      var qs := QueryString(query);
      target := "?" + qs;
    }

    /** Remove: navigate to "/" and invalidate every products cache key, this render's among them. */
    method HandleRemoveFilter() returns (target: string, invalidated: string)
      ensures target == "/"
      ensures invalidated == Key().resource
    {
      target := "/";
      invalidated := ProductsResource;
    }
  }

  // ---------------------------------------------------------------- lemmas

  /** A query string never holds '#', so all of an Apply target lands in the next location's search. */
  lemma QueryStringHasNoHash(f: Filter)
    ensures '#' !in QueryStringOf(f)
  {
    var e := Emitted(f);
    var segs := SegmentsOf(e);
    SegmentsOfAt(e);
    EmittedOnlyTruthy(f);
    forall i | 0 <= i < |segs|
      ensures '#' !in segs[i]
    {
      SegmentChars(e[i]);
    }
    JoinExcludes(segs, "&", '#');
  }

  /**
   * After Apply with record `f`, the next render's URL params are exactly
   * the pairs queryString wrote, and its committed filter is `f` with its
   * falsy fields null.
   */
  lemma SubmitThenRead(f: Filter)
    ensures FromSearch(SearchOf("?" + QueryStringOf(f))) == Emitted(f)
    ensures ReadFilter(FromSearch(SearchOf("?" + QueryStringOf(f)))) == Normalize(f)
  {
    var qs := QueryStringOf(f);
    var t := "?" + qs;
    QueryStringHasNoHash(f);
    IndexOfAbsent(t, '#');
    assert t[..|t|] == t;
    assert t[0] == '?';
    ParseQueryString(f);
    ReadEmitted(f);
    if qs == "" {
      assert SearchOf(t) == "";
      assert FromSearch("") == FromSearch(t);
    } else {
      assert SearchOf(t) == t;
    }
  }

  /** After Remove, the next render has no URL params, reads an all-null filter and fetches "product". */
  lemma RemoveThenRead()
    ensures FromSearch(SearchOf("/")) == []
    ensures ReadFilter(FromSearch(SearchOf("/"))) == Blank
    ensures FetchPathOf(FromSearch(SearchOf("/"))) == "product"
  {
    assert IndexOf("/", '#') == 1;
    assert IndexOf("/", '?') == 1;
    assert SearchOf("/") == "";
    var empty: seq<byte> := [];
    assert Encode("") == empty;
    assert IndexOf(empty, Amp) == 0;
    assert SplitOn(empty, Amp) == [[]];
    assert ParseSequences([[]]) == [];
  }

  /**
   * Two submitted records lead to the same products cache key exactly when
   * they agree on every truthy field: distinct filters never share a cached
   * list, and the order in which fields were edited does not matter.
   */
  lemma KeyIdentifiesFilter(f: Filter, g: Filter)
    ensures Serialize(Emitted(f)) == Serialize(Emitted(g)) <==> Normalize(f) == Normalize(g)
  {
    ReadEmitted(f);
    ReadEmitted(g);
    if Serialize(Emitted(f)) == Serialize(Emitted(g)) {
      ParseSerialize(Emitted(f));
      ParseSerialize(Emitted(g));
    }
    if Normalize(f) == Normalize(g) {
      EmittedNormalize(f);
      EmittedNormalize(g);
    }
  }

  /**
   * The request's query string is the URLSearchParams serialization, not
   * queryString's output: for a search of one space, Apply navigates to
   * "?query=%20", the next render's params are then [("query", " ")]
   * (SubmitThenRead), and their `toString()`, which the products request
   * and its cache key carry, is "query=+".
   */
  lemma SpaceEncodesDifferently()
    ensures QueryStringOf(Filter(Some(" "), None, None, None)) == "query=%20"
    ensures Emitted(Filter(Some(" "), None, None, None)) == [("query", " ")]
    ensures Serialize([("query", " ")]) == "query=+"
  {
    var f := Filter(Some(" "), None, None, None);
    assert Emitted(f) == [("query", " ")];
    assert EncodeChar(' ') == [0x20];
    assert EncodeUriComponent(" ") == "%20";
    assert Segment(("query", " ")) == "query=%20";
    assert SegmentsOf(Emitted(f)) == ["query=%20"];
    SpaceWritten();
  }

  /** The serializer writes the list holding only ("query", " ") as "query=+". */
  lemma SpaceWritten()
    ensures Serialize([("query", " ")]) == "query=+"
  {
    FormEncodeAlphanumeric("query");
    FormEncodeSpace();
    SerializeSingle(("query", " "));
    assert SerializePair(("query", " ")) == "query=+";
  }

  // ---------------------------------------------------------------- clients

  /** Apply right after a render, with no edits, navigates to "?" whatever the URL held. */
  method SubmitWithoutEdits(search: string) returns (target: string)
    ensures target == "?"
  {
    var view := new HomeView(search);
    target := view.HandleSubmit();
    assert QueryStringOf(Blank) == "";
  }

  /** Edits to different fields are independent, and a second edit to a field replaces the first. */
  method EditEachFieldTwice(view: HomeView, s1: string, s2: string, m1: string, m2: string,
                            x1: string, x2: string, c1: string, c2: string)
    modifies view
    ensures view.query == Filter(Some(s2), Some(m2), Some(x2), Some(c2))
  {
    view.HandleSearchChange(s1);
    view.HandleCategoryChange(c1);
    view.HandleMaxPriceChange(x1);
    view.HandleSearchChange(s2);
    view.HandleMinPriceChange(m1);
    view.HandleMaxPriceChange(x2);
    view.HandleMinPriceChange(m2);
    view.HandleCategoryChange(c2);
  }

  /**
   * Apply, then the render at the new location: it commits the record's
   * truthy fields, fetches them, and starts a new all-null record.
   */
  method SubmitAndRender(view: HomeView) returns (next: HomeView)
    ensures next.params == Emitted(view.query)
    ensures next.Committed() == Normalize(view.query)
    ensures next.query == Blank
    ensures next.FetchPath() == if Normalize(view.query) == Blank then "product"
                                else "product?" + Serialize(Emitted(view.query))
  {
    var target := view.HandleSubmit();
    next := new HomeView(SearchOf(target));
    SubmitThenRead(view.query);
    QueryStringEmpty(view.query);
    ReadEmitted(view.query);
    SerializeEmpty(Emitted(view.query));
    if Normalize(view.query) == Blank {
      assert Emitted(view.query) == [];
    } else {
      assert Emitted(view.query) != [];
    }
  }

  /** Remove, then the render at "/": nothing committed, and the unfiltered list is fetched. */
  method RemoveAndRender(view: HomeView) returns (next: HomeView, invalidated: string)
    ensures next.params == [] && next.Committed() == Blank && next.FetchPath() == "product"
    ensures invalidated == ProductsResource && next.Key() == ProductsKey(invalidated, "")
  {
    var target;
    target, invalidated := view.HandleRemoveFilter();
    next := new HomeView(SearchOf(target));
    RemoveThenRead();
  }
}
