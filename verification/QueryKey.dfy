/** The cache key of a request: `parseKeyInformations` and `computeKey`, with the sorted query as a canonical form. */
module QueryKey {
  import opened Strings
  import opened Wrappers
  import opened UrlEscape
  import opened HttpHeader

  type Params = map<string, seq<string>>

  // ---- Byte-wise lexicographic order and `sort.Strings`

  predicate AtMost(a: string, b: string) {
    a == "" || (b != "" && (a[0] < b[0] || (a[0] == b[0] && AtMost(a[1..], b[1..]))))
  }

  lemma {:induction false} AtMostTotal(a: string, b: string)
    ensures AtMost(a, b) || AtMost(b, a)
    ensures AtMost(a, b) && AtMost(b, a) ==> a == b
  {
    if a != "" && b != "" && a[0] == b[0] {
      AtMostTotal(a[1..], b[1..]);
      assert a == [a[0]] + a[1..] && b == [b[0]] + b[1..];
    }
  }

  lemma {:induction false} AtMostTransitive(a: string, b: string, c: string)
    requires AtMost(a, b) && AtMost(b, c)
    ensures AtMost(a, c)
  {
    if a != "" && a[0] == b[0] == c[0] {
      AtMostTransitive(a[1..], b[1..], c[1..]);
    }
  }

  ghost predicate Sorted(s: seq<string>) {
    forall i, j :: 0 <= i < j < |s| ==> AtMost(s[i], s[j])
  }

  function Insert(x: string, s: seq<string>): seq<string> {
    if s == [] || AtMost(x, s[0]) then [x] + s else [s[0]] + Insert(x, s[1..])
  }

  function SortStrings(s: seq<string>): seq<string> {
    if s == [] then [] else Insert(s[0], SortStrings(s[1..]))
  }

  lemma {:induction false} InsertProperties(x: string, s: seq<string>)
    requires Sorted(s)
    ensures Sorted(Insert(x, s)) && multiset(Insert(x, s)) == multiset(s) + multiset{x}
  {
    if s == [] {
    } else if AtMost(x, s[0]) {
      forall i | 0 <= i < |s|
        ensures AtMost(x, s[i])
      {
        if i > 0 {
          AtMostTransitive(x, s[0], s[i]);
        }
      }
    } else {
      AtMostTotal(x, s[0]);
      InsertProperties(x, s[1..]);
      assert s == [s[0]] + s[1..];
      var r := Insert(x, s[1..]);
      forall i | 0 <= i < |r|
        ensures AtMost(s[0], r[i])
      {
        assert r[i] in multiset(r);
        assert r[i] == x || r[i] in s[1..];
      }
    }
  }

  lemma {:induction false} SortProperties(s: seq<string>)
    ensures Sorted(SortStrings(s)) && multiset(SortStrings(s)) == multiset(s)
    ensures forall x :: x in SortStrings(s) <==> x in s
  {
    hide Insert, AtMost;
    if s != [] {
      SortProperties(s[1..]);
      InsertProperties(s[0], SortStrings(s[1..]));
      assert s == [s[0]] + s[1..];
    }
    SameMembers(SortStrings(s), s);
  }

  lemma SameMembers(a: seq<string>, b: seq<string>)
    requires multiset(a) == multiset(b)
    ensures forall x :: x in a <==> x in b
  {
    assert forall x :: x in a <==> x in multiset(a);
    assert forall x :: x in b <==> x in multiset(b);
  }

  lemma SortedHead(a: seq<string>, b: seq<string>)
    requires Sorted(a) && Sorted(b) && a != [] && b != []
    requires a[0] in b && b[0] in a
    ensures a[0] == b[0]
  {
    var i :| 0 <= i < |b| && b[i] == a[0];
    var j :| 0 <= j < |a| && a[j] == b[0];
    AtMostTotal(a[0], b[0]);
  }

  /** Sorting is canonical: a multiset of strings has one sorted listing. */
  lemma {:induction false} SortedUnique(a: seq<string>, b: seq<string>)
    requires Sorted(a) && Sorted(b) && multiset(a) == multiset(b)
    ensures a == b
  {
    assert |a| == |multiset(a)| == |multiset(b)| == |b|;
    if a != [] {
      assert a[0] in multiset(b) && b[0] in multiset(a);
      SortedHead(a, b);
      assert a == [a[0]] + a[1..] && b == [b[0]] + b[1..];
      assert multiset(a[1..]) == multiset(a) - multiset{a[0]};
      assert multiset(b[1..]) == multiset(b) - multiset{b[0]};
      SortedUnique(a[1..], b[1..]);
    }
  }

  // ---- `url.ParseQuery`

  /** `strings.Cut` at the first occurrence of `c`. */
  function Cut(s: string, c: char): (string, string) {
    if s == "" then ("", "")
    else if s[0] == c then ("", s[1..])
    else var rest := Cut(s[1..], c); ([s[0]] + rest.0, rest.1)
  }

  /** The key and value of one `&`-separated part, unless `ParseQuery` skips it. */
  function DecodePart(part: string): Option<(string, string)> {
    if part == "" || ';' in part then None
    else
      var (key, value) := Cut(part, '=');
      match (QueryUnescape(key), QueryUnescape(value))
      case (Some(k), Some(v)) => Some((k, v))
      case _ => None
  }

  function AddParam(m: Params, key: string, value: string): Params {
    m[key := (if key in m then m[key] else []) + [value]]
  }

  function ParseParts(parts: seq<string>): Params {
    if parts == [] then map[]
    else
      var m := ParseParts(parts[..|parts| - 1]);
      match DecodePart(parts[|parts| - 1])
      case Some((k, v)) => AddParam(m, k, v)
      case None => m
  }

  function Parsed(rawQuery: string): Params {
    ParseParts(Split(rawQuery, "&"))
  }

  /** `url.ParseQuery` with its error ignored: malformed parts are skipped. */
  method ParseQuery(rawQuery: string) returns (m: Params)
    ensures m == Parsed(rawQuery)
  {
    var parts := Split(rawQuery, "&");
    m := map[];
    for n := 0 to |parts|
      invariant m == ParseParts(parts[..n])
    {
      assert parts[..n + 1][..n] == parts[..n];
      match DecodePart(parts[n]) {
        case None =>
        case Some((k, v)) => m := AddParam(m, k, v);
      }
    }
    assert parts[..|parts|] == parts;
  }

  // ---- `Values.Encode`

  ghost predicate ByteParams(m: Params) {
    forall k :: k in m ==> IsBytes(k) && m[k] != [] && ByteList(m[k])
  }

  function EncodeItem(key: string, value: string): string
    requires IsBytes(key) && IsBytes(value)
  {
    QueryEscape(key) + "=" + QueryEscape(value)
  }

  ghost predicate ByteList(values: seq<string>) {
    forall i :: 0 <= i < |values| ==> IsBytes(values[i])
  }

  function KeyItems(key: string, values: seq<string>): (items: seq<string>)
    requires IsBytes(key) && ByteList(values)
    ensures |items| == |values|
  {
    seq(|values|, i requires 0 <= i < |values| => EncodeItem(key, values[i]))
  }

  function Items(m: Params, keys: seq<string>): seq<string>
    requires ByteParams(m) && forall k :: k in keys ==> k in m
  {
    if keys == [] then []
    else
      assert forall k :: k in keys[..|keys| - 1] ==> k in keys;
      assert keys[|keys| - 1] in m;
      Items(m, keys[..|keys| - 1]) + KeyItems(keys[|keys| - 1], m[keys[|keys| - 1]])
  }

  ghost predicate Lists(keys: seq<string>, s: set<string>) {
    NoDuplicates(keys) && forall k :: k in keys <==> k in s
  }

  lemma {:induction false} ListsMultiset(keys: seq<string>, s: set<string>)
    requires Lists(keys, s)
    ensures multiset(keys) == multiset(s)
  {
    if keys != [] {
      var front, last := keys[..|keys| - 1], keys[|keys| - 1];
      assert keys == front + [last];
      ListsMultiset(front, s - {last});
      assert multiset(keys) == multiset(front) + multiset{last};
      assert multiset(s) == multiset(s - {last}) + multiset{last};
    }
  }

  lemma {:induction false} ListingExists(s: set<string>) returns (keys: seq<string>)
    ensures Lists(keys, s)
  {
    if s == {} {
      keys := [];
    } else {
      var k :| k in s;
      keys := ListingExists(s - {k});
      keys := keys + [k];
    }
  }

  lemma SortedListing(keys: seq<string>, s: set<string>)
    requires Lists(keys, s)
    ensures Lists(SortStrings(keys), s) && Sorted(SortStrings(keys))
  {
    SortProperties(keys);
    ListsMultiset(keys, s);
    SingleCounts(SortStrings(keys));
  }

  lemma {:induction false} SingleCounts(s: seq<string>)
    requires forall x :: multiset(s)[x] <= 1
    ensures NoDuplicates(s)
  {
    if s != [] {
      var front, last := s[..|s| - 1], s[|s| - 1];
      assert s == front + [last];
      assert multiset(s) == multiset(front) + multiset{last};
      assert multiset(s)[last] == multiset(front)[last] + 1;
      assert forall x :: multiset(front)[x] <= multiset(s)[x];
      SingleCounts(front);
    }
  }

  ghost function SortedKeys(s: set<string>): (keys: seq<string>)
    ensures Lists(keys, s) && Sorted(keys)
  {
    var listing := ListingOf(s);
    SortedListing(listing, s);
    SortStrings(listing)
  }

  ghost function ListingOf(s: set<string>): (keys: seq<string>)
    ensures Lists(keys, s)
  {
    assert exists keys :: Lists(keys, s) by { var keys := ListingExists(s); }
    var keys :| Lists(keys, s);
    keys
  }

  ghost function Encoded(m: Params): string
    requires ByteParams(m)
  {
    Join(Items(m, SortedKeys(m.Keys)), "&")
  }

  /** `Values.Encode` lists the keys in the map's own order before it sorts them. */
  method Encode(m: Params) returns (query: string)
    requires ByteParams(m)
    ensures query == Encoded(m)
  {
    var keys, todo := [], m.Keys;
    while todo != {}
      invariant Lists(keys, m.Keys - todo) && todo <= m.Keys
      decreases todo
    {
      var k :| k in todo;
      keys, todo := keys + [k], todo - {k};
    }
    SortedListing(keys, m.Keys);
    keys := SortStrings(keys);
    ListsMultiset(keys, m.Keys);
    ListsMultiset(SortedKeys(m.Keys), m.Keys);
    SortedUnique(keys, SortedKeys(m.Keys));
    query := Join(Items(m, keys), "&");
  }

  // ---- Decoding undoes encoding

  lemma {:induction false} CutAtFirst(a: string, c: char, b: string)
    requires c !in a
    ensures Cut(a + [c] + b, c) == (a, b)
  {
    var s := a + [c] + b;
    if a == "" {
      assert s[1..] == b;
    } else {
      assert s[0] == a[0] && s[1..] == a[1..] + [c] + b;
      CutAtFirst(a[1..], c, b);
      assert [a[0]] + a[1..] == a;
    }
  }

  lemma EncodedItemAlphabet(key: string, value: string)
    requires IsBytes(key) && IsBytes(value)
    ensures '&' !in EncodeItem(key, value) && ';' !in EncodeItem(key, value) && EncodeItem(key, value) != ""
    ensures '=' !in QueryEscape(key)
  {
    EscapeAvoids(key);
    EscapeAvoids(value);
    JoinedAvoids(QueryEscape(key), QueryEscape(value), '&');
    JoinedAvoids(QueryEscape(key), QueryEscape(value), ';');
  }

  lemma EscapeAvoids(s: string)
    requires IsBytes(s)
    ensures '&' !in QueryEscape(s) && ';' !in QueryEscape(s) && '=' !in QueryEscape(s)
  {
    EscapeAlphabet(s);
  }

  lemma JoinedAvoids(a: string, b: string, c: char)
    requires c !in a && c !in b && c != '='
    ensures c !in a + "=" + b
  {
  }

  lemma DecodeEncodedItem(key: string, value: string)
    requires IsBytes(key) && IsBytes(value)
    ensures DecodePart(EncodeItem(key, value)) == Some((key, value))
  {
    EncodedItemAlphabet(key, value);
    EscapeRoundTrip(key);
    EscapeRoundTrip(value);
    CutAtFirst(QueryEscape(key), '=', QueryEscape(value));
    assert EncodeItem(key, value) == QueryEscape(key) + ['='] + QueryEscape(value);
  }

  lemma ParseLast(parts: seq<string>, last: string)
    ensures ParseParts(parts + [last]) ==
            match DecodePart(last)
            case Some((k, v)) => AddParam(ParseParts(parts), k, v)
            case None => ParseParts(parts)
  {
    assert (parts + [last])[..|parts|] == parts;
  }

  lemma ParseOneMore(parts: seq<string>, key: string, value: string)
    requires IsBytes(key) && IsBytes(value)
    ensures ParseParts(parts + [EncodeItem(key, value)]) == AddParam(ParseParts(parts), key, value)
  {
    DecodeEncodedItem(key, value);
    ParseLast(parts, EncodeItem(key, value));
  }

  lemma KeyItemsAppend(key: string, values: seq<string>, value: string)
    requires IsBytes(key) && ByteList(values) && IsBytes(value)
    ensures ByteList(values + [value])
    ensures KeyItems(key, values + [value]) == KeyItems(key, values) + [EncodeItem(key, value)]
  {
  }

  lemma NoKeyItems(key: string)
    requires IsBytes(key)
    ensures KeyItems(key, []) == []
  {
  }

  /** The values of one key are appended in order. */
  lemma {:induction false} ParseKeyItems(before: seq<string>, key: string, values: seq<string>)
    requires values != [] && IsBytes(key) && ByteList(values)
    requires key !in ParseParts(before)
    ensures ParseParts(before + KeyItems(key, values)) == ParseParts(before)[key := values]
  {
    hide KeyItems, EncodeItem, IsBytes, ParseParts;
    var shorter, last := values[..|values| - 1], values[|values| - 1];
    assert values == shorter + [last];
    KeyItemsAppend(key, shorter, last);
    var parts := before + KeyItems(key, shorter);
    ParseOneMore(parts, key, last);
    assert before + KeyItems(key, values) == parts + [EncodeItem(key, last)];
    if shorter == [] {
      NoKeyItems(key);
      assert parts == before;
    } else {
      ParseKeyItems(before, key, shorter);
    }
  }

  lemma {:induction false} ParseItems(m: Params, keys: seq<string>)
    requires ByteParams(m) && NoDuplicates(keys) && forall k :: k in keys ==> k in m
    ensures ParseParts(Items(m, keys)) == map k | k in m && k in keys :: m[k]
  {
    hide KeyItems, IsBytes, ByteList, DecodePart, AddParam;
    if keys != [] {
      var front, last := keys[..|keys| - 1], keys[|keys| - 1];
      assert keys == front + [last];
      assert forall k :: k in keys <==> k in front || k == last;
      assert last in m && last !in front;
      ParseItems(m, front);
      ParseKeyItems(Items(m, front), last, m[last]);
    }
  }

  lemma {:induction false} ItemsWithoutAmpersand(m: Params, keys: seq<string>)
    requires ByteParams(m) && forall k :: k in keys ==> k in m
    ensures forall item :: item in Items(m, keys) ==> '&' !in item
  {
    if keys != [] {
      var front, last := keys[..|keys| - 1], keys[|keys| - 1];
      assert last in keys && forall k :: k in front ==> k in keys;
      ItemsWithoutAmpersand(m, front);
      forall i | 0 <= i < |m[last]|
        ensures '&' !in KeyItems(last, m[last])[i]
      {
        EncodedItemAlphabet(last, m[last][i]);
      }
    }
  }

  /** Round trip: parsing an encoded query gives the parameters back. */
  lemma ParseOfEncoded(m: Params)
    requires ByteParams(m)
    ensures Parsed(Encoded(m)) == m
  {
    var keys := SortedKeys(m.Keys);
    var items := Items(m, keys);
    ParseItems(m, keys);
    ItemsWithoutAmpersand(m, keys);
    if items == [] {
      assert Split("", "&") == [""];
      assert [""][..0] == [];
      assert ParseParts([""]) == map[];
      assert ParseParts(items) == map[];
    } else {
      SplitOfJoin(items, '&');
    }
  }

  // ---- The sorted query part

  /** Sorts the values of every key, as `parseKeyInformations` does before it encodes. */
  function SortValues(m: Params): Params {
    map k | k in m :: SortStrings(m[k])
  }

  /** The decoded parameters are equal as multisets. */
  ghost predicate SameParams(a: Params, b: Params) {
    a.Keys == b.Keys && forall k :: k in a ==> multiset(a[k]) == multiset(b[k])
  }

  lemma {:induction false} SplitBytes(s: string, c: char)
    requires IsBytes(s)
    ensures forall i :: 0 <= i < |Split(s, [c])| ==> IsBytes(Split(s, [c])[i])
  {
    if s != "" {
      SplitBytes(s[1..], c);
    }
  }

  lemma {:induction false} CutBytes(s: string, c: char)
    requires IsBytes(s)
    ensures IsBytes(Cut(s, c).0) && IsBytes(Cut(s, c).1)
  {
    if s != "" && s[0] != c {
      CutBytes(s[1..], c);
    }
  }

  lemma {:induction false} ParsedIsByteParams(parts: seq<string>)
    requires forall i :: 0 <= i < |parts| ==> IsBytes(parts[i])
    ensures ByteParams(ParseParts(parts))
  {
    if parts != [] {
      var last := parts[|parts| - 1];
      ParsedIsByteParams(parts[..|parts| - 1]);
      CutBytes(last, '=');
      UnescapeBytes(Cut(last, '=').0);
      UnescapeBytes(Cut(last, '=').1);
    }
  }

  lemma SortValuesByteParams(m: Params)
    requires ByteParams(m)
    ensures ByteParams(SortValues(m))
  {
    forall k | k in m
      ensures SortValues(m)[k] != [] && ByteList(SortValues(m)[k])
    {
      SortProperties(m[k]);
      assert m[k][0] in SortStrings(m[k]);
      forall i | 0 <= i < |SortStrings(m[k])|
        ensures IsBytes(SortStrings(m[k])[i])
      {
        assert SortStrings(m[k])[i] in m[k];
      }
    }
  }

  ghost function SortedQuery(rawQuery: string): string
    requires IsBytes(rawQuery)
  {
    SplitBytes(rawQuery, '&');
    ParsedIsByteParams(Split(rawQuery, "&"));
    SortValuesByteParams(Parsed(rawQuery));
    Encoded(SortValues(Parsed(rawQuery)))
  }

  /** The sorted query is a canonical form of the decoded parameters, well-formed or not. */
  lemma SortedQueryCanonical(a: string, b: string)
    requires IsBytes(a) && IsBytes(b)
    ensures SortedQuery(a) == SortedQuery(b) <==> SameParams(Parsed(a), Parsed(b))
  {
    SplitBytes(a, '&');
    SplitBytes(b, '&');
    ParsedIsByteParams(Split(a, "&"));
    ParsedIsByteParams(Split(b, "&"));
    SortValuesByteParams(Parsed(a));
    SortValuesByteParams(Parsed(b));
    ParseOfEncoded(SortValues(Parsed(a)));
    ParseOfEncoded(SortValues(Parsed(b)));
    SameSorted(Parsed(a), Parsed(b));
  }

  lemma SameSorted(a: Params, b: Params)
    ensures SortValues(a) == SortValues(b) <==> SameParams(a, b)
  {
    assert SortValues(a).Keys == a.Keys && SortValues(b).Keys == b.Keys;
    forall k | k in a && k in b
      ensures SortValues(a)[k] == SortValues(b)[k] <==> multiset(a[k]) == multiset(b[k])
    {
      SortProperties(a[k]);
      SortProperties(b[k]);
      if multiset(a[k]) == multiset(b[k]) {
        SortedUnique(SortStrings(a[k]), SortStrings(b[k]));
      }
    }
  }

  // ---- The key

  /** The part of `keyContext` that shapes a key; key templates are not part of this model. */
  datatype KeyConfig = KeyConfig(
    disableBody: bool, disableHost: bool, disableMethod: bool, disableQuery: bool,
    sortQuery: bool, disableScheme: bool, headers: seq<string>)

  datatype KeyRequest = KeyRequest(
    verb: string, tls: bool, host: string, path: string, rawQuery: string,
    bodyHash: string, header: Header, requestURI: string)

  datatype Override = Override(matches: string -> bool, config: KeyConfig)

  function HeaderValues(rq: KeyRequest, names: seq<string>): string {
    if names == [] then ""
    else HeaderValues(rq, names[..|names| - 1]) + "-" + Get(rq.header, names[|names| - 1])
  }

  ghost function QueryPart(c: KeyConfig, rq: KeyRequest): string
    requires IsBytes(rq.rawQuery)
  {
    if c.disableQuery || rq.rawQuery == "" then ""
    else "?" + if c.sortQuery then SortedQuery(rq.rawQuery) else rq.rawQuery
  }

  function KeyPrefix(c: KeyConfig, rq: KeyRequest): string {
    (if c.disableMethod then "" else rq.verb + "-") +
    (if c.disableScheme then "" else if rq.tls then "https-" else "http-") +
    (if c.disableHost then "" else rq.host + "-") + rq.path
  }

  function KeySuffix(c: KeyConfig, rq: KeyRequest): string {
    (if c.disableBody then "" else rq.bodyHash) + HeaderValues(rq, c.headers)
  }

  ghost function KeyOf(c: KeyConfig, rq: KeyRequest): string
    requires IsBytes(rq.rawQuery)
  {
    KeyPrefix(c, rq) + QueryPart(c, rq) + KeySuffix(c, rq)
  }

  /** The branch of `parseKeyInformations` that sorts the query. */
  method SortQuery(rawQuery: string) returns (queryPart: string)
    requires IsBytes(rawQuery)
    ensures queryPart == SortedQuery(rawQuery)
  {
    hide IsBytes, ParseParts, Split;
    SplitBytes(rawQuery, '&');
    ParsedIsByteParams(Split(rawQuery, "&"));
    SortValuesByteParams(Parsed(rawQuery));
    var v := ParseQuery(rawQuery);
    queryPart := Encode(SortValues(v));
  }

  method ParseKeyInformations(rq: KeyRequest, c: KeyConfig)
    returns (query: string, body: string, host: string, scheme: string, verb: string, headerValues: string)
    requires IsBytes(rq.rawQuery)
    ensures query == QueryPart(c, rq)
    ensures verb + scheme + host + rq.path == KeyPrefix(c, rq) && body + headerValues == KeySuffix(c, rq)
  {
    hide IsBytes, SortedQuery, Get;
    query, body, host, scheme, verb, headerValues := "", "", "", "", "", "";
    if !c.disableQuery && |rq.rawQuery| > 0 {
      var queryPart := rq.rawQuery;
      if c.sortQuery {
        queryPart := SortQuery(rq.rawQuery);
      }
      query := query + "?" + queryPart;
    }
    if !c.disableBody {
      body := rq.bodyHash;
    }
    if !c.disableHost {
      host := rq.host + "-";
    }
    if !c.disableScheme {
      scheme := if rq.tls then "https-" else "http-";
    }
    if !c.disableMethod {
      verb := rq.verb + "-";
    }
    for n := 0 to |c.headers|
      invariant headerValues == HeaderValues(rq, c.headers[..n])
    {
      assert c.headers[..n + 1][..n] == c.headers[..n];
      headerValues := headerValues + "-" + Get(rq.header, c.headers[n]);
    }
    assert c.headers[..|c.headers|] == c.headers;
  }

  /** The configuration that applies: the first override that matches the request URI, else the base one. */
  ghost predicate Applies(base: KeyConfig, overrides: seq<Override>, uri: string, c: KeyConfig) {
    (c == base && forall i :: 0 <= i < |overrides| ==> !overrides[i].matches(uri)) ||
    exists i :: 0 <= i < |overrides| && overrides[i].matches(uri) && c == overrides[i].config &&
                forall j :: 0 <= j < i ==> !overrides[j].matches(uri)
  }

  method ComputeKey(base: KeyConfig, overrides: seq<Override>, rq: KeyRequest) returns (key: string)
    requires IsBytes(rq.rawQuery)
    ensures exists c :: Applies(base, overrides, rq.requestURI, c)
    ensures forall c :: Applies(base, overrides, rq.requestURI, c) ==> key == KeyOf(c, rq)
  {
    var query, body, host, scheme, verb, headerValues := ParseKeyInformations(rq, base);
    for n := 0 to |overrides|
      invariant forall i :: 0 <= i < n ==> !overrides[i].matches(rq.requestURI)
      invariant query == QueryPart(base, rq)
      invariant verb + scheme + host + rq.path == KeyPrefix(base, rq) && body + headerValues == KeySuffix(base, rq)
    {
      if overrides[n].matches(rq.requestURI) {
        query, body, host, scheme, verb, headerValues := ParseKeyInformations(rq, overrides[n].config);
        key := verb + scheme + host + rq.path + query + body + headerValues;
        assert key == (verb + scheme + host + rq.path) + query + (body + headerValues);
        assert Applies(base, overrides, rq.requestURI, overrides[n].config);
        return;
      }
    }
    key := verb + scheme + host + rq.path + query + body + headerValues;
    assert key == (verb + scheme + host + rq.path) + query + (body + headerValues);
    assert Applies(base, overrides, rq.requestURI, base);
  }

  lemma SameMiddle(a: string, x: string, y: string, b: string)
    ensures a + x + b == a + y + b <==> x == y
  {
    if a + x + b == a + y + b {
      assert |x| == |y|;
      assert x == (a + x + b)[|a|..|a| + |x|];
      assert y == (a + y + b)[|a|..|a| + |y|];
    }
  }

  /** Two requests that differ only in their query get the same key exactly when: queries are ignored; or both
      are empty; or neither is, and the decoded parameters are equal as multisets (sorted) or the texts are equal. */
  lemma SameKeyExactly(c: KeyConfig, a: KeyRequest, b: KeyRequest)
    requires IsBytes(a.rawQuery) && IsBytes(b.rawQuery)
    requires b == a.(rawQuery := b.rawQuery, requestURI := b.requestURI)
    ensures KeyOf(c, a) == KeyOf(c, b) <==>
            || c.disableQuery
            || (a.rawQuery == "" && b.rawQuery == "")
            || (a.rawQuery != "" && b.rawQuery != "" &&
                if c.sortQuery then SameParams(Parsed(a.rawQuery), Parsed(b.rawQuery)) else a.rawQuery == b.rawQuery)
  {
    HeaderValuesEqual(a, b, c.headers);
    SameMiddle(KeyPrefix(c, a), QueryPart(c, a), QueryPart(c, b), KeySuffix(c, a));
    SortedQueryCanonical(a.rawQuery, b.rawQuery);
    if !c.disableQuery && a.rawQuery != "" && b.rawQuery != "" {
      assert QueryPart(c, a)[1..] == if c.sortQuery then SortedQuery(a.rawQuery) else a.rawQuery;
      assert QueryPart(c, b)[1..] == if c.sortQuery then SortedQuery(b.rawQuery) else b.rawQuery;
    }
  }

  lemma {:induction false} HeaderValuesEqual(a: KeyRequest, b: KeyRequest, names: seq<string>)
    requires a.header == b.header
    ensures HeaderValues(a, names) == HeaderValues(b, names)
  {
    if names != [] {
      HeaderValuesEqual(a, b, names[..|names| - 1]);
    }
  }

  // ---- What else tells keys apart

  lemma SameAround(prefix: string, other: string, rest: string)
    ensures prefix + rest == other + rest <==> prefix == other
  {
    if prefix + rest == other + rest {
      assert |prefix| == |other|;
      assert prefix == (prefix + rest)[..|prefix|] && other == (other + rest)[..|other|];
    }
  }

  /** Two requests that differ in one part only get the same key exactly when that part is disabled. */
  lemma KeyTellsPartsApart(c: KeyConfig, a: KeyRequest, b: KeyRequest)
    requires IsBytes(a.rawQuery) && IsBytes(b.rawQuery)
    ensures b == a.(verb := b.verb) ==> (KeyOf(c, a) == KeyOf(c, b) <==> c.disableMethod || a.verb == b.verb)
    ensures b == a.(tls := b.tls) ==> (KeyOf(c, a) == KeyOf(c, b) <==> c.disableScheme || a.tls == b.tls)
    ensures b == a.(host := b.host) ==> (KeyOf(c, a) == KeyOf(c, b) <==> c.disableHost || a.host == b.host)
    ensures b == a.(path := b.path) ==> (KeyOf(c, a) == KeyOf(c, b) <==> a.path == b.path)
    ensures b == a.(bodyHash := b.bodyHash) ==>
            (KeyOf(c, a) == KeyOf(c, b) <==> c.disableBody || a.bodyHash == b.bodyHash)
  {
    hide IsBytes, Get;
    HeadersEqual(a, b, c.headers);
    SameRest(c, a, b);
    if b == a.(verb := b.verb) || b == a.(tls := b.tls) || b == a.(host := b.host) || b == a.(path := b.path) {
      PrefixApart(c, a, b);
      hide KeyPrefix, KeySuffix, QueryPart;
      var rest := QueryPart(c, a) + KeySuffix(c, a);
      assert KeyOf(c, a) == KeyPrefix(c, a) + rest && KeyOf(c, b) == KeyPrefix(c, b) + rest;
      SameAround(KeyPrefix(c, a), KeyPrefix(c, b), rest);
    } else if b == a.(bodyHash := b.bodyHash) {
      SameAround(if c.disableBody then "" else a.bodyHash, if c.disableBody then "" else b.bodyHash,
          HeaderValues(a, c.headers));
      SameMiddle(KeyPrefix(c, a) + QueryPart(c, a), KeySuffix(c, a), KeySuffix(c, b), "");
    }
  }

  /** The rest of the key does not depend on method, scheme, host and path. */
  lemma SameRest(c: KeyConfig, a: KeyRequest, b: KeyRequest)
    requires IsBytes(a.rawQuery) && IsBytes(b.rawQuery)
    ensures b == a.(verb := b.verb, tls := b.tls, host := b.host, path := b.path) ==>
              QueryPart(c, a) == QueryPart(c, b) && KeySuffix(c, a) == KeySuffix(c, b)
    ensures b == a.(bodyHash := b.bodyHash) ==> KeyPrefix(c, a) == KeyPrefix(c, b) && QueryPart(c, a) == QueryPart(c, b)
  {
    hide IsBytes, Get;
    HeadersEqual(a, b, c.headers);
  }

  lemma HeadersEqual(a: KeyRequest, b: KeyRequest, names: seq<string>)
    ensures a.header == b.header ==> HeaderValues(a, names) == HeaderValues(b, names)
  {
    if a.header == b.header {
      HeaderValuesEqual(a, b, names);
    }
  }

  lemma Regroup(v: string, s: string, h: string, p: string)
    ensures v + s + h + p == v + (s + h + p) && v + s + h + p == v + s + (h + p)
    ensures v + s + h + p == (v + s) + h + p
  {
  }

  lemma PrefixApart(c: KeyConfig, a: KeyRequest, b: KeyRequest)
    ensures b == a.(verb := b.verb) ==> (KeyPrefix(c, a) == KeyPrefix(c, b) <==> c.disableMethod || a.verb == b.verb)
    ensures b == a.(tls := b.tls) ==> (KeyPrefix(c, a) == KeyPrefix(c, b) <==> c.disableScheme || a.tls == b.tls)
    ensures b == a.(host := b.host) ==> (KeyPrefix(c, a) == KeyPrefix(c, b) <==> c.disableHost || a.host == b.host)
    ensures b == a.(path := b.path) ==> (KeyPrefix(c, a) == KeyPrefix(c, b) <==> a.path == b.path)
  {
    var va, sa, ha := VerbPart(c, a), SchemePart(c, a), HostPart(c, a);
    var vb, sb, hb := VerbPart(c, b), SchemePart(c, b), HostPart(c, b);
    assert KeyPrefix(c, a) == va + sa + ha + a.path && KeyPrefix(c, b) == vb + sb + hb + b.path;
    PartsApart(c, a, b);
    hide VerbPart, SchemePart, HostPart;
    Regroup(va, sa, ha, a.path);
    Regroup(vb, sb, hb, b.path);
    if b == a.(verb := b.verb) {
      SameAround(va, vb, sa + ha + a.path);
    }
    if b == a.(tls := b.tls) {
      SameMiddle(va, sa, sb, ha + a.path);
    }
    if b == a.(host := b.host) {
      SameMiddle(va + sa, ha, hb, a.path);
    }
    if b == a.(path := b.path) {
      SameAfter(va + sa + ha, a.path, b.path);
    }
  }

  /** A header that the configuration adds to the key tells requests apart by its first value. */
  lemma HeaderTellsApart(c: KeyConfig, a: KeyRequest, b: KeyRequest, name: string)
    requires IsBytes(a.rawQuery) && c.headers == [name] && b == a.(header := b.header)
    ensures KeyOf(c, a) == KeyOf(c, b) <==> Get(a.header, name) == Get(b.header, name)
  {
    hide IsBytes, Get, KeyPrefix, QueryPart;
    OneHeaderValue(a, name);
    OneHeaderValue(b, name);
    PrefixIgnoresHeader(c, a, b);
    var va, vb := Get(a.header, name), Get(b.header, name);
    var before := KeyPrefix(c, a) + QueryPart(c, a) + ((if c.disableBody then "" else a.bodyHash) + "-");
    assert KeyOf(c, a) == before + va && KeyOf(c, b) == before + vb;
    SameAfter(before, va, vb);
  }

  lemma OneHeaderValue(rq: KeyRequest, name: string)
    ensures HeaderValues(rq, [name]) == "-" + Get(rq.header, name)
  {
    assert [name][..0] == [];
    assert HeaderValues(rq, []) == "";
  }

  lemma PrefixIgnoresHeader(c: KeyConfig, a: KeyRequest, b: KeyRequest)
    requires IsBytes(a.rawQuery) && b == a.(header := b.header)
    ensures KeyPrefix(c, a) == KeyPrefix(c, b) && QueryPart(c, a) == QueryPart(c, b)
  {
  }

  lemma SameAfter(prefix: string, a: string, b: string)
    ensures prefix + a == prefix + b <==> a == b
  {
    assert (prefix + a)[|prefix|..] == a && (prefix + b)[|prefix|..] == b;
  }

  lemma PartsApart(c: KeyConfig, a: KeyRequest, b: KeyRequest)
    ensures VerbPart(c, a) == VerbPart(c, b) <==> c.disableMethod || a.verb == b.verb
    ensures SchemePart(c, a) == SchemePart(c, b) <==> c.disableScheme || a.tls == b.tls
    ensures HostPart(c, a) == HostPart(c, b) <==> c.disableHost || a.host == b.host
    ensures a.verb == b.verb ==> VerbPart(c, a) == VerbPart(c, b)
    ensures a.host == b.host ==> HostPart(c, a) == HostPart(c, b)
  {
    SameAround(a.verb, b.verb, "-");
    SameAround(a.host, b.host, "-");
    assert "https-"[4] == 's' && "http-"[4] == '-';
  }

  function VerbPart(c: KeyConfig, rq: KeyRequest): string {
    if c.disableMethod then "" else rq.verb + "-"
  }

  function HostPart(c: KeyConfig, rq: KeyRequest): string {
    if c.disableHost then "" else rq.host + "-"
  }

  function SchemePart(c: KeyConfig, rq: KeyRequest): string {
    if c.disableScheme then "" else if rq.tls then "https-" else "http-"
  }

  /** With no part disabled: the key names method, scheme, host and path of a request, when the method has no hyphen,
      the host no slash and the path begins with one. */
  lemma KeyNamesRequest(c: KeyConfig, a: KeyRequest, b: KeyRequest)
    requires IsBytes(a.rawQuery) && IsBytes(b.rawQuery)
    requires !c.disableMethod && !c.disableScheme && !c.disableHost
    requires '-' !in a.verb && '-' !in b.verb && '/' !in a.host && '/' !in b.host
    requires "/" <= a.path && "/" <= b.path
    requires b == a.(verb := b.verb, tls := b.tls, host := b.host, path := b.path)
    ensures KeyOf(c, a) == KeyOf(c, b) <==> a == b
  {
    hide IsBytes, Get, KeyPrefix, KeySuffix, QueryPart;
    SameRest(c, a, b);
    var rest := QueryPart(c, a) + KeySuffix(c, a);
    assert KeyOf(c, a) == KeyPrefix(c, a) + rest && KeyOf(c, b) == KeyPrefix(c, b) + rest;
    SameAround(KeyPrefix(c, a), KeyPrefix(c, b), rest);
    if KeyPrefix(c, a) == KeyPrefix(c, b) {
      PrefixNamesRequest(c, a, b);
    }
  }

  lemma PrefixNamesRequest(c: KeyConfig, a: KeyRequest, b: KeyRequest)
    requires !c.disableMethod && !c.disableScheme && !c.disableHost
    requires '-' !in a.verb && '-' !in b.verb && '/' !in a.host && '/' !in b.host
    requires "/" <= a.path && "/" <= b.path && KeyPrefix(c, a) == KeyPrefix(c, b)
    ensures a.verb == b.verb && a.tls == b.tls && a.host == b.host && a.path == b.path
  {
    hide Cut;
    CutPrefix(c, a);
    CutPrefix(c, b);
    var ra, rb := SchemePart(c, a) + HostAndPath(a), SchemePart(c, b) + HostAndPath(b);
    assert ra == rb;
    assert ra[4] == SchemePart(c, a)[4] && rb[4] == SchemePart(c, b)[4];
    assert ra[|SchemePart(c, a)|..] == HostAndPath(a) && rb[|SchemePart(c, b)|..] == HostAndPath(b);
    CutHostAndPath(a);
    CutHostAndPath(b);
    SameAround(a.host, b.host, "-");
  }

  function HostAndPath(rq: KeyRequest): string {
    rq.host + "-" + rq.path
  }

  lemma CutPrefix(c: KeyConfig, rq: KeyRequest)
    requires !c.disableMethod && !c.disableScheme && !c.disableHost && '-' !in rq.verb
    ensures Cut(KeyPrefix(c, rq), '-') == (rq.verb, SchemePart(c, rq) + HostAndPath(rq))
  {
    CutAtFirst(rq.verb, '-', SchemePart(c, rq) + HostAndPath(rq));
    assert KeyPrefix(c, rq) == rq.verb + ['-'] + (SchemePart(c, rq) + HostAndPath(rq));
  }

  lemma CutHostAndPath(rq: KeyRequest)
    requires '/' !in rq.host && "/" <= rq.path
    ensures Cut(HostAndPath(rq), '/') == (rq.host + "-", rq.path[1..]) && rq.path == "/" + rq.path[1..]
  {
    assert '/' !in rq.host + "-";
    CutAtFirst(rq.host + "-", '/', rq.path[1..]);
    assert HostAndPath(rq) == (rq.host + "-") + ['/'] + rq.path[1..];
  }

  // ---- What a query part means

  /** An empty part, one with a semicolon and one that does not unescape are skipped; another one is cut at its first
      equals sign, and a part without one has an empty value. */
  lemma PartMeans(key: string, value: string)
    requires '=' !in key
    ensures DecodePart("") == None
    ensures var part := key + "=" + value;
            DecodePart(part) ==
              if ';' in key || ';' in value || QueryUnescape(key).None? || QueryUnescape(value).None? then None
              else Some((QueryUnescape(key).value, QueryUnescape(value).value))
    ensures key != "" ==>
              DecodePart(key) == if ';' in key ||
                QueryUnescape(key).None? then None else Some((QueryUnescape(key).value, ""))
  {
    hide QueryUnescape;
    CutAtFirst(key, '=', value);
    assert key + "=" + value == key + ['='] + value;
    CutWithout(key, '=');
    assert forall c :: c in key + "=" + value <==> c in key || c == '=' || c in value;
    NothingUnescapes();
  }

  lemma NothingUnescapes()
    ensures QueryUnescape("") == Some("")
  {
  }

  lemma {:induction false} CutWithout(s: string, c: char)
    requires c !in s
    ensures Cut(s, c) == (s, "")
  {
    if s != "" {
      CutWithout(s[1..], c);
      assert [s[0]] + s[1..] == s;
    }
  }
}
