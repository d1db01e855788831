# Catalog filter flow of the ShopVista client

This project is a Dafny model of how the home page of the ShopVista client
(src/pages/Home.jsx) carries a product filter through the URL:

- **The filter record.** It is `{search, min, max, category}`. Every
  render starts it all-null, and the four input handlers reassign it one
  field at a time.
- **`queryString`.** It writes `key=encodeURIComponent(value)` for every
  truthy field and joins the segments with `&`. It uses the keys `query`,
  `min`, `max` and `category`, in that order.
- **Apply.** It navigates to `?` followed by `queryString(query)`.
- **Remove.** It navigates to `/` and invalidates the `allProducts`
  product lists.
- **The next render.** It parses its location with `URLSearchParams`, reads
  the four keys with `get`, and builds the products request path and cache
  key from `toString()`.

The browser pieces the page relies on are modelled from their standards, so
that round trips can be proved for every string:

- **UTF-8.** An encoder, and the decoder of the Encoding Standard with its
  replacement of invalid sequences by U+FFFD.
- **encodeURIComponent.** As in section 19.2.6 of ECMA-262, with the
  percent-encoding of section 2.1 of RFC 3986.
- **URLSearchParams.** The application/x-www-form-urlencoded parser and
  serializer of sections 5.1 and 5.2 of the WHATWG URL Standard, and `get`.

Modules, one per file:

- `Wrappers`: `Option`.
- `Utf8`: UTF-8.
- `Percent`: percent-encoding, encodeURIComponent and percent-decode.
- `Seqs`: join, split and index-of.
- `FormUrlEncoded`: URLSearchParams.
- `QueryCodec`: the filter record, `queryString` and reading a filter back.
- `Home`: one render of the page as the class `HomeView`, with its handlers
  and the navigations between renders.

Three behaviours of the code are easy to miss:

- The record is not seeded from the URL. It starts all-null on every render,
  so Apply right after a render navigates to `?`.
- A field set to `""` is dropped by `queryString`. Reading the URL back
  gives null for it, not `""`, so the round trip restores a filter exactly
  only when no field is `""`.
- Nothing parses prices as numbers. `min=abc` is read back as the string
  `"abc"`.

## Model

| member | source | states |
|---|---|---|
| QueryCodec.QueryString | src/pages/Home.jsx:79-99 | The pushes and the join return exactly the query string specified by QueryStringOf: the segments of the emitted pairs joined with '&'. |
| QueryCodec.QueryStringOfAllTruthy | src/pages/Home.jsx:79-99 | QueryStringOf, the function queryString is proved against, written out for a record whose four fields are all truthy: the join on '&' of query=, min=, max= and category= followed by the encoded values, in that order. |
| QueryCodec.EmittedOnlyTruthy | src/pages/Home.jsx:82-95 | Every emitted pair has a key from query, min, max, category. Its value is the matching field, and that field is truthy. `search` is emitted under "query". |
| QueryCodec.EmittedEveryTruthy | src/pages/Home.jsx:82-95 | Every truthy field is emitted, under its key and with its value. |
| QueryCodec.EmittedInKeyOrder | src/pages/Home.jsx:79-96 | The emitted keys come in the order query, min, max, category. |
| QueryCodec.QueryStringEmpty | src/pages/Home.jsx:80-98 | queryString returns "" exactly when no field is truthy. |
| QueryCodec.NoStraySeparator | src/pages/Home.jsx:98 | A non-empty query string has no leading, trailing or doubled '&'. |
| QueryCodec.SplitQueryString | src/pages/Home.jsx:83-98 | Splitting a non-empty query string on '&' gives exactly the emitted segments key=encodeURIComponent(value), one per emitted pair, in order. Each is the key, '=', and then characters none of which is '&', '=', '+' or a space. |
| QueryCodec.SegmentChars | src/pages/Home.jsx:83-95 | A segment is the key, then '=', then a value in which no '&', '=', '+', '#' or space occurs. No '&' or '#' occurs anywhere in the segment. |
| QueryCodec.ParseSegment | src/pages/Home.jsx:83 | The UTF-8 octets of a segment parse as one form-urlencoded sequence back to its key and value. |
| QueryCodec.ParseQueryString | src/pages/Home.jsx:9 | URLSearchParams of "?" + queryString(f) is exactly the list of emitted pairs, in order. |
| QueryCodec.ReadEmitted | src/pages/Home.jsx:12-15 | Reading the four keys from the emitted pairs gives the record with its falsy fields null. |
| QueryCodec.ReadFilterGets | src/pages/Home.jsx:12-15 | ReadFilter, the page's four reads: each field is `get` of its key, with `search` read under "query". It is null exactly when no pair has the key, and otherwise the value of the first pair that does. |
| QueryCodec.RoundTrip | src/pages/Home.jsx:9-15 | Parsing queryString(f) and reading the four keys gives f with falsy fields null. This equals f exactly when no field is "". |
| QueryCodec.ResubmitIsIdempotent | src/pages/Home.jsx:79-99 | Writing back the filter read from a query string gives the same query string. |
| QueryCodec.KeyIsLetters | src/pages/Home.jsx:83-95 | Each of the four keys is made of lower-case ASCII letters only. |
| QueryCodec.KeyOctets | src/pages/Home.jsx:12-15 | A key's UTF-8 octets hold no '&' and no '=', and they decode back to the key. |
| QueryCodec.ValueOctets | src/pages/Home.jsx:83 | The octets of an encoded value hold no '&', and they decode back to the value. |
| QueryCodec.SegmentsOfParam | src/pages/Home.jsx:82-96 | A truthy field contributes one segment, key=encodeURIComponent(value). A falsy field contributes none. |
| QueryCodec.EmittedNormalize | src/pages/Home.jsx:82-95 | Making the falsy fields null does not change what queryString writes. |
| QueryCodec.SegmentsOfAppend | src/pages/Home.jsx:80-96 | The segments of two lists of pairs, one after the other, are the segments of their concatenation. This is what each push adds. |
| QueryCodec.SegmentsOfAt | src/pages/Home.jsx:83-95 | There is one segment per pair, and segment i is the segment of pair i. |
| QueryCodec.SegmentsNonEmpty | src/pages/Home.jsx:83-98 | Every joined segment is non-empty and free of '&'. |
| Home.HomeView.constructor | src/pages/Home.jsx:9-22 | A render parses its location into URL params and starts the record with all four fields null, whatever the URL holds. |
| Home.HomeView.HandleSearchChange | src/pages/Home.jsx:63-65 | Only `search` changes, to the new value. |
| Home.HomeView.HandleMinPriceChange | src/pages/Home.jsx:67-69 | Only `min` changes, to the new value. |
| Home.HomeView.HandleMaxPriceChange | src/pages/Home.jsx:71-73 | Only `max` changes, to the new value. |
| Home.HomeView.HandleCategoryChange | src/pages/Home.jsx:75-77 | Only `category` changes, to the new value. |
| Home.HomeView.HandleSubmit | src/pages/Home.jsx:101-104 | Apply navigates to "?" + queryString(query). |
| Home.HomeView.HandleRemoveFilter | src/pages/Home.jsx:58-61 | Remove navigates to "/". It invalidates the resource this render's cache key starts with. |
| Home.HomeView.Key | src/pages/Home.jsx:33 | The products cache key is "allProducts" with `toString()` of the URL params. That string is "" exactly when there are no params, and it parses back to them. |
| Home.FetchPathOf | src/pages/Home.jsx:36 | The request path is "product" exactly when the URL has no params. Otherwise it is "product?" followed by a string that parses back to those params. |
| Home.SearchOf | src/pages/Home.jsx:59 | The search a navigation target leads to is empty, or starts with '?' and something follows. It never holds '#'. It is empty when the target has no '?', and it is the target itself for a "?"-led target longer than one character with no '#'. |
| Home.QueryStringHasNoHash | src/pages/Home.jsx:103 | A query string never contains '#', so the whole Apply target lands in the next location's search. |
| Home.SubmitThenRead | src/pages/Home.jsx:9-15 | After Apply, the next render's URL params are the emitted pairs. Its committed filter is the record with its falsy fields null. |
| Home.RemoveThenRead | src/pages/Home.jsx:59 | After Remove, the next render has no URL params, reads an all-null filter and fetches "product". |
| Home.KeyIdentifiesFilter | src/pages/Home.jsx:33 | Two submitted records give the same products cache key exactly when they agree on every truthy field. |
| Home.SpaceEncodesDifferently | src/pages/Home.jsx:33-36 | With a search of one space, queryString writes "query=%20". The next render's params are [("query", " ")], and their `toString()`, carried by the products request and its cache key, is "query=+". So the request string is not queryString's output. |
| Home.SubmitWithoutEdits | src/pages/Home.jsx:17-22 | Apply right after a render, with no edits, navigates to "?" whatever the URL held. |
| Home.EditEachFieldTwice | src/pages/Home.jsx:63-77 | Edits to different fields are independent, and only the last edit to each field survives. |
| Home.SubmitAndRender | src/pages/Home.jsx:101-104 | After Apply, the new render commits the truthy fields and starts a new all-null record. It fetches "product" when no field was truthy, and otherwise "product?" followed by their serialization. |
| Home.RemoveAndRender | src/pages/Home.jsx:58-61 | After Remove, nothing is committed and "product" is fetched. The invalidated resource heads the new render's cache key. |
| FormUrlEncoded.Get | src/pages/Home.jsx:12-15 | `get` is null exactly when no pair has the name. Otherwise it is the value of the first pair that has it. |
| FormUrlEncoded.FromSearchMark | src/pages/Home.jsx:9 | FromSearch, `new URLSearchParams(search)`: "?" + s parses as the octets of s. The leading '?' is optional when s does not itself start with one. An empty search, with or without its '?', has no params. |
| FormUrlEncoded.SerializeSplit | src/pages/Home.jsx:33-36 | Serialize, `toString()`: splitting a non-empty list's serialization on '&' gives back the written pairs one by one. In each, the first '=' is the one right after the name. |
| FormUrlEncoded.ParseSerialize | src/pages/Home.jsx:33-36 | Parsing `toString()` gives back every list of pairs. |
| FormUrlEncoded.SerializeEmpty | src/pages/Home.jsx:36 | `toString()` is "" exactly for the empty list. |
| FormUrlEncoded.DecodeFormEncode | src/pages/Home.jsx:36 | A name or value written by the serializer decodes back to itself and contains no '&' or '='. |
| FormUrlEncoded.ParseJoin | src/pages/Home.jsx:9 | Parsing an '&'-join of non-empty sequences free of '&' gives one pair per sequence. |
| FormUrlEncoded.ParseSequenceSplit | src/pages/Home.jsx:9 | A name=value sequence whose name has no '=' parses to the decoded name and value. |
| FormUrlEncoded.EncodeJoin | src/pages/Home.jsx:98 | The UTF-8 octets of an '&'-join are the join of the parts' octets. |
| FormUrlEncoded.FormEncodeBytes | src/pages/Home.jsx:36 | The serializer's output for any octets is ASCII without '&' or '='. |
| FormUrlEncoded.FormEncodeBytesUnescaped | src/pages/Home.jsx:36 | Octets the serializer leaves unescaped are written as the characters they encode. |
| FormUrlEncoded.FormEncodeAlphanumeric | src/pages/Home.jsx:36 | A name made of ASCII letters and digits is written as it is. |
| FormUrlEncoded.FormEncodeSpace | src/pages/Home.jsx:36 | The serializer writes a space as '+'. |
| FormUrlEncoded.SerializeSingle | src/pages/Home.jsx:36 | A list of one pair is written as that pair alone, with no '&'. |
| Percent.EncodeUriComponent | src/pages/Home.jsx:83 | encodeURIComponent's output consists only of unescaped characters and '%'. |
| Percent.EncodeUriComponentIsSafe | src/pages/Home.jsx:83-95 | encodeURIComponent's output is ASCII and has no '&', '=', '+', '#' or space. |
| Percent.PercentDecodeEncodeUriComponent | src/pages/Home.jsx:83 | Percent-decoding encodeURIComponent's output gives the UTF-8 octets of its input. |
| Percent.OutputCharIsSafe | src/pages/Home.jsx:83 | An unescaped character or '%' is ASCII and is none of '&', '=', '+', '#' and space. |
| Percent.EncodeUriComponentUnescaped | src/pages/Home.jsx:83 | A string of unescaped characters passes through encodeURIComponent unchanged. |
| Percent.PercentEncodeBytes | src/pages/Home.jsx:83 | The result has three characters per octet, each of them '%' or an upper-case hexadecimal digit. |
| Percent.PercentEncodeBytesBlocks | src/pages/Home.jsx:83 | Octet i is written at positions 3i to 3i+2 as '%' followed by its two hexadecimal digits. |
| Utf8.EncodeChar | src/pages/Home.jsx:83 | A code point takes one to four octets. It takes one exactly when it is ASCII. Otherwise the lead octet is 0xC2..0xF4, followed by continuation octets. |
| Utf8.DecodeEncode | src/pages/Home.jsx:9-15 | UTF-8 decoding the encoding of any string gives the string back. |
| Utf8.EncodeAppend | src/pages/Home.jsx:98 | The encoding of a concatenation is the concatenation of the encodings. |
| Seqs.SplitOnJoin | src/pages/Home.jsx:98 | Splitting a join of parts free of the separator gives back the parts. |
| Seqs.JoinNoStraySeparator | src/pages/Home.jsx:98 | A join of non-empty parts free of the separator has no separator at either end and none doubled. |
| Seqs.IndexOf | src/pages/Home.jsx:9 | The result is the position of the first occurrence, or the length when there is none. |

## Left out

- React Query is modelled only as its key. The key `["allProducts", query1.toString()]` is a plain value, and invalidation is reduced to the resource name Remove returns. Caching, refetching, deduplication and the asynchronous timing of `useQuery` belong to a library whose code is not part of this model.
- The categories query (src/pages/Home.jsx:45-52) is left out. It is a library call with a fixed key and a fixed path.
- The axios requests (`authenticatedInstance.get`) and the unwrapping of their responses are left out as network I/O. The model stops at the request path.
- The JSX rendering is left out as UI. This covers the spinner branch, the product grid and the category options. The `console.log` of the products is left out as logging.
- Router navigation is reduced to SearchOf. SearchOf takes the `search` a target leads to, from its first '?' to any '#'. Path resolution and history are left out.
- A submit event's `preventDefault` is left out. Every handler's event is reduced to the string value it carries.
- Percent.EncodeUriComponent: JavaScript strings can hold lone UTF-16 surrogates, for which encodeURIComponent throws URIError. Dafny strings hold only Unicode scalar values, so that error path is not modelled.
- src/pages/ConfirmEmail.jsx is not part of this model. It is form-validation glue around two network mutations.
- src/pages/Success.jsx is not part of this model. It is a static screen with one navigation button.
- src/components/AddMoneyHeader/AddMoneyHeader.jsx is not part of this model. It is a thin wrapper around a foreign payment library.
