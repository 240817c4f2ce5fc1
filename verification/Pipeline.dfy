/** What gets into the storers and for how long: the gate of `Store`, and `backfillStorers`, which promotes a
    response found in a slower storer to the faster ones. Times are nanoseconds. */
module Pipeline {
  import opened Strings
  import opened Wrappers
  import opened HttpHeader
  import opened HttpRules
  import opened Messages
  import opened Storage
  import opened VaryKey

  /** `types.OneYearDuration`. */
  const ONE_YEAR: Time := 365 * 24 * 3600 * SECOND

  datatype Config = Config(allowedCodes: set<int>, ttl: Time, maxBodyBytes: int, mode: Mode)

  datatype ExpiresField = NoExpires | BadExpires | Until(at: Time)

  /** What `Store` sees of one request and its upstream response. `requestNow` is the request's Date header when it
      parses, else the time of arrival; `clock` is the time of the call; `target` is the storer picked by
      X-Souin-Storer; the response's control header has the configured default filled in. */
  datatype Exchange = Exchange(
    rq: Header, verb: string, rqCc: RequestCc, key: string, ignoredHeaders: seq<string>, requestNow: Time,
    clock: Time, canceled: bool, response: Response, expires: ExpiresField, target: Option<nat>)

  /** Time as HTTP prints it. */
  function Printed(t: Time): Time {
    t / SECOND * SECOND
  }

  function ToLower(s: string): string {
    seq(|s|, i requires 0 <= i < |s| => Lower(s[i]))
  }

  /** `canBypassAuthorizationRestriction`. */
  predicate MayBypassAuthorization(headers: Header, ignored: seq<string>) {
    (exists i :: 0 <= i < |ignored| && ToLower(ignored[i]) == "authorization") ||
    Contains(ToLower(Get(headers, "Vary")), "authorization")
  }

  // ---- The gate, as the caching rules state it

  /** Neither s-maxage nor max-age is given, so Expires counts. */
  predicate ExpiresCounts(c: Config, ex: Exchange, cc: ResponseCc) {
    !c.mode.bypassResponse && cc.sMaxAge < 0 && cc.maxAge < 0 && !ex.expires.NoExpires?
  }

  /** Expires parses, lies ahead but not more than ten years, and is not before Date. */
  predicate ExpiresUsable(ex: Exchange) {
    ex.expires.Until? && ex.clock < ex.expires.at <= ex.clock + 10 * ONE_YEAR &&
    (ex.response.date.At? ==> ex.response.date.t <= ex.expires.at)
  }

  /** The headers of the stored copy: those listed by no-cache are left out. */
  function CopiedHeaders(ex: Exchange, cc: ResponseCc): Header {
    ex.response.headers - cc.noCacheFields
  }

  ghost predicate Gate(c: Config, ex: Exchange) {
    PassesButForVary(c, ex) && !VariedHeaders(CopiedHeaders(ex, ex.response.controlCc.value)).1
  }

  /** The whole gate, apart from `Vary: *`. */
  ghost predicate PassesButForVary(c: Config, ex: Exchange) {
    var r := ex.response;
    && StatusAllowed(r.code, c.allowedCodes)
    && r.controlCc.Some?
    && var cc := r.controlCc.value;
    && (c.mode.bypassRequest || (!cc.isPrivate && Get(ex.rq, "Authorization") == "") ||
        MayBypassAuthorization(r.headers, ex.ignoredHeaders))
    && (ExpiresCounts(c, ex, cc) ==> ExpiresUsable(ex))
    && (c.mode.bypassRequest || !ex.rqCc.noStore)
    && (c.mode.bypassResponse || !cc.noStore || ExpiresCounts(c, ex, cc))
    && (c.maxBodyBytes > 0 ==> |r.body| <= c.maxBodyBytes)
    && (r.body != "" || ex.verb == "HEAD" || MayHaveEmptyBody(r.code) || r.code in c.allowedCodes)
    && !ex.canceled
  }

  /** The freshness lifetime before the response's age is taken off. */
  function Lifetime(c: Config, ex: Exchange, cc: ResponseCc): Time {
    if c.mode.bypassResponse then c.ttl
    else if cc.sMaxAge >= 0 then cc.sMaxAge * SECOND
    else if cc.maxAge >= 0 then cc.maxAge * SECOND
    else if ex.expires.Until? then ex.expires.at - ex.clock
    else c.ttl
  }

  function Remaining(c: Config, ex: Exchange, cc: ResponseCc): Time {
    Lifetime(c, ex, cc) - (ex.clock - Printed(ex.requestNow))
  }

  /** The response as it is written to the storers. */
  function StoredCopy(c: Config, ex: Exchange, cc: ResponseCc): Response {
    ex.response.(
      headers := CopiedHeaders(ex, cc),
      date := if ex.response.date.NoDate? || CanonicalHeaderKey("Date") in cc.noCacheFields
              then At(Printed(ex.requestNow)) else ex.response.date,
      storedTTL := if CanonicalHeaderKey("X-Souin-Stored-TTL") in cc.noCacheFields
                   then None else Some(Lifetime(c, ex, cc)))
  }

  function VariedNames(headers: Header): seq<string> {
    VariedHeaders(headers).0
  }

  /** The varied headers kept with the entry: the request's value of each named header. */
  function VariedValues(rq: Header, names: seq<string>): Header {
    if names == [] then map[]
    else HttpHeader.Set(VariedValues(rq, names[..|names| - 1]), NameOf(names[|names| - 1]),
                        Get(rq, NameOf(names[|names| - 1])))
  }

  /** `strings.Split(hname, ":")[0]`: the printer has overwritten each name with its item. */
  function NameOf(item: string): string {
    Split(item, ":")[0]
  }

  ghost predicate ByteHeader(rq: Header) {
    forall name :: IsBytes(TrimSpace(Get(rq, name)))
  }

  function Variant(key: string, rq: Header, headers: Header): string
    requires ByteValues(rq, VariedNames(headers))
  {
    key + PrintedSuffix(rq, VariedNames(headers))
  }

  /** The variant key and the varied headers of a response: printing the key overwrites the names with the items,
      and the header names are then cut out of the items. */
  method VaryParts(key: string, rq: Header, headers: Header) returns (variant: string, vhs: Header)
    requires ByteHeader(rq)
    ensures variant == Variant(key, rq, headers) && vhs == VariedValues(rq, VariedNames(headers))
  {
    hide PrintItem, VariedNames, NameOf, Get, TrimSpace;
    var names := VariedNames(headers);
    var variedHeaders := new string[|names|](i requires 0 <= i < |names| => names[i]);
    assert variedHeaders[..] == names;
    var suffix := GetVariedCacheKey(rq, variedHeaders);
    variant := key + suffix;
    var items := variedHeaders[..];
    vhs := map[];
    for n := 0 to |items|
      invariant vhs == VariedValues(rq, items[..n])
    {
      assert items[..n + 1][..n] == items[..n];
      vhs := HttpHeader.Set(vhs, NameOf(items[n]), Get(rq, NameOf(items[n])));
    }
    assert items[..|items|] == items;
    ItemsNameTheSame(rq, names);
  }

  lemma {:induction false} ItemsNameTheSame(rq: Header, names: seq<string>)
    requires ByteValues(rq, names)
    ensures VariedValues(rq, PrintItems(rq, names)) == VariedValues(rq, names)
  {
    hide PrintValue, Get, TrimSpace;
    if names != [] {
      var front, last := names[..|names| - 1], names[|names| - 1];
      ItemsNameTheSame(rq, front);
      assert PrintItems(rq, names)[..|names| - 1] == PrintItems(rq, front);
      var value := PrintValue(TrimSpace(Get(rq, last)));
      assert PrintItem(rq, last) == last + [':'] + value;
      SplitAtSeparator(last, ':', value);
    }
  }

  // ---- Vary: what is stored with a variant is what selects it (section 4.1 of RFC 9111)

  /** The request agrees with the one the variant was stored for on every header the response varies on. */
  ghost predicate SendsSameValues(rq: Header, stored: Header, names: seq<string>) {
    forall i :: 0 <= i < |names| ==> Get(rq, names[i]) == Get(stored, names[i])
  }

  /** An election that compares the stored values selects exactly the requests that agree with the stored one. */
  lemma VariedValuesSelect(stored: Header, names: seq<string>, rq: Header)
    requires Names(names)
    ensures SendsStoredValues(VariedValues(stored, names), rq) <==> SendsSameValues(rq, stored, names)
  {
    hide Get, CanonicalHeaderKey, VariedValues, Join, IsName;
    VariedValuesHold(stored, names);
    var varied := VariedValues(stored, names);
    forall i | 0 <= i < |names|
      ensures Get(rq, CanonicalHeaderKey(names[i])) == Get(rq, names[i])
      ensures Join(varied[CanonicalHeaderKey(names[i])], ", ") == Get(stored, names[i])
    {
      GetCanonical(rq, names[i]);
      JoinOne(Get(stored, names[i]), ", ");
    }
    if SendsStoredValues(varied, rq) {
      forall i | 0 <= i < |names|
        ensures Get(rq, names[i]) == Get(stored, names[i])
      {
        assert CanonicalHeaderKey(names[i]) in varied;
      }
    }
    if SendsSameValues(rq, stored, names) {
      forall k | k in varied
        ensures Get(rq, k) == Join(varied[k], ", ")
      {
        var i :| 0 <= i < |names| && k == CanonicalHeaderKey(names[i]);
      }
    }
  }

  lemma JoinOne(value: string, sep: string)
    ensures Join([value], sep) == value
  {
  }

  /** The stored headers are the named ones, under canonical names, with the stored request's values. */
  lemma {:induction false} VariedValuesHold(stored: Header, names: seq<string>)
    requires Names(names)
    ensures forall k :: k in VariedValues(stored, names) ==>
            exists i :: 0 <= i < |names| && k == CanonicalHeaderKey(names[i])
    ensures forall i :: 0 <= i < |names| ==>
              CanonicalHeaderKey(names[i]) in VariedValues(stored, names) &&
              VariedValues(stored, names)[CanonicalHeaderKey(names[i])] == [Get(stored, names[i])]
  {
    hide Get, CanonicalHeaderKey, NameOf;
    if names != [] {
      var front, last := names[..|names| - 1], names[|names| - 1];
      VariedValuesHold(stored, front);
      NameOfName(last);
      var before, varied := VariedValues(stored, front), VariedValues(stored, names);
      assert varied == before[CanonicalHeaderKey(last) := [Get(stored, last)]];
      forall i | 0 <= i < |names|
        ensures CanonicalHeaderKey(names[i]) in varied &&
                varied[CanonicalHeaderKey(names[i])] == [Get(stored, names[i])]
      {
        assert i < |front| ==> names[i] == front[i];
        SameNameSameValue(stored, names[i], last);
      }
      forall k | k in varied
        ensures exists i :: 0 <= i < |names| && k == CanonicalHeaderKey(names[i])
      {
        if k in before {
          var i :| 0 <= i < |front| && k == CanonicalHeaderKey(front[i]);
          assert names[i] == front[i];
        } else {
          assert k == CanonicalHeaderKey(names[|names| - 1]);
        }
      }
    }
  }

  lemma NameOfName(name: string)
    requires IsName(name)
    ensures NameOf(name) == name
  {
    SplitWithoutSeparator(name, ':');
  }

  lemma SameNameSameValue(stored: Header, a: string, b: string)
    ensures CanonicalHeaderKey(a) == CanonicalHeaderKey(b) ==> Get(stored, a) == Get(stored, b)
  {
  }

  // ---- What a stored or promoted copy leaves in a storer

  /** The storer holds the copy under the variant, and the index of the base key an entry for it: its varied headers
      select exactly the requests that agree with `stored` on every field of the copy's Vary lines. */
  ghost predicate HoldsVariant(cells: Cells, now: Time, stale: Time, key: string, variant: string, stored: Header,
                               copy: Response, freshTime: Time) {
    && variant in cells && cells[variant] == Cell(Body(copy), Some(freshTime + stale))
    && IndexOf(cells, now, key).Some? && variant in IndexOf(cells, now, key).value
    && cells[IndexKey(key)].expires == None
    && var e := IndexOf(cells, now, key).value[variant];
    && (forall rq :: SendsStoredValues(e.variedHeaders, rq) <==> AgreesOnFields(rq, stored, copy))
    && e.etag == Get(copy.headers, "Etag") && e.realKey == variant && e.storedAt == now
    && e.freshTime == freshTime && e.staleTime == freshTime + stale
  }

  /** The requests agree on every field of the response's Vary lines. */
  ghost predicate AgreesOnFields(rq: Header, stored: Header, response: Response) {
    forall f :: f in CommaSepFields(Values(response.headers, "Vary")) ==> Get(rq, f) == Get(stored, f)
  }

  /** Nothing else is touched: no other key of the storer, and no other entry of the index. */
  ghost predicate LeavesTheRest(before: Cells, after: Cells, now: Time, key: string, variant: string) {
    && (forall k :: k != variant && k != IndexKey(key) ==>
        (k in after <==> k in before) && (k in after ==> after[k] == before[k]))
    && (IndexOf(before, now, key).Some? && IndexOf(after, now, key).Some? ==>
          var was, m := IndexOf(before, now, key).value, IndexOf(after, now, key).value;
          forall k :: k != variant ==> (k in m <==> k in was) && (k in m ==> m[k] == was[k]))
  }

  /** The Vary lines list header names, and the storer can decode what it holds as the base key's index, if anything. */
  ghost predicate ReadyFor(cells: Cells, now: Time, key: string, variant: string, copy: Response) {
    && Names(CommaSepFields(Values(copy.headers, "Vary"))) && "*" !in CommaSepFields(Values(copy.headers, "Vary"))
    && !IsIndexKey(variant) && (Live(cells, now, IndexKey(key)) ==> cells[IndexKey(key)].value.Index?)
  }

  lemma SetHoldsVariant(cells: Cells, now: Time, stale: Time, key: string, variant: string, stored: Header,
                        copy: Response, duration: Time)
    requires ReadyFor(cells, now, key, variant, copy)
    ensures var after := AfterSet(cells, now, stale, key, variant, copy,
              VariedValues(stored, VariedNames(copy.headers)),
                                  Get(copy.headers, "Etag"), duration, variant).0;
            HoldsVariant(after, now, stale, key, variant, stored, copy, now + duration) &&
            LeavesTheRest(cells, after, now, key, variant)
  {
    hide VariedValues, Get, SendsStoredValues, Names, CommaSepFields, AgreesOnFields;
    IndexKeyInjective(key, key);
    var names := VariedNames(copy.headers);
    assert names == CommaSepFields(Values(copy.headers, "Vary"));
    forall rq
      ensures SendsStoredValues(VariedValues(stored, names), rq) <==> AgreesOnFields(rq, stored, copy)
    {
      VariedValuesSelect(stored, names, rq);
      SameOnFields(rq, stored, copy);
    }
  }

  lemma SameOnFields(rq: Header, stored: Header, copy: Response)
    requires "*" !in CommaSepFields(Values(copy.headers, "Vary"))
    ensures SendsSameValues(rq, stored, VariedNames(copy.headers)) <==> AgreesOnFields(rq, stored, copy)
  {
    hide Get, CommaSepFields;
    var names := VariedNames(copy.headers);
    if SendsSameValues(rq, stored, names) {
      forall f | f in names
        ensures Get(rq, f) == Get(stored, f)
      {
        var i :| 0 <= i < |names| && names[i] == f;
      }
    }
  }

  // ---- The gate and the copy, on the fields of the exchange

  /** "authorization" stands at this position, in whatever case. */
  predicate SpellsAuthorization(text: string, i: nat) {
    i + 13 <= |text| && forall j :: 0 <= j < 13 ==>
      text[i + j] == "authorization"[j] || text[i + j] == Upper("authorization"[j])
  }

  /** A shared cache may keep the response although it is private or authorized: the configuration ignores that header,
      or Vary names it. */
  ghost predicate NamesAuthorization(headers: Header, ignored: seq<string>) {
    (exists i :: 0 <= i < |ignored| && |ignored[i]| == 13 && SpellsAuthorization(ignored[i], 0)) ||
    exists i: nat :: SpellsAuthorization(Get(headers, "Vary"), i)
  }

  lemma SpelledIsRead(text: string, i: nat)
    ensures SpellsAuthorization(text, i) <==> ReadsAt(ToLower(text), "authorization", i)
  {
    var lower, word := ToLower(text), "authorization";
    if i + 13 <= |text| {
      forall j | 0 <= j < 13
        ensures lower[i + j] == word[j] <==> text[i + j] == word[j] || text[i + j] == Upper(word[j])
      {
        var k := i + j;
        assert 0 <= k < |text| && lower[k] == Lower(text[k]) && 'a' <= word[j] <= 'z';
      }
    }
  }

  lemma BypassNamesAuthorization(headers: Header, ignored: seq<string>)
    ensures MayBypassAuthorization(headers, ignored) <==> NamesAuthorization(headers, ignored)
  {
    hide Get, SpellsAuthorization, ReadsAt, Contains;
    var vary := Get(headers, "Vary");
    ContainsReads(ToLower(vary), "authorization");
    forall i: nat
      ensures SpellsAuthorization(vary, i) <==> ReadsAt(ToLower(vary), "authorization", i)
    {
      SpelledIsRead(vary, i);
    }
    forall i | 0 <= i < |ignored|
      ensures ToLower(ignored[i]) == "authorization" <==> |ignored[i]| == 13 && SpellsAuthorization(ignored[i], 0)
    {
      SpelledIsRead(ignored[i], 0);
      WholeWord(ToLower(ignored[i]), "authorization");
    }
  }

  lemma WholeWord(text: string, word: string)
    ensures text == word <==> |text| == |word| && ReadsAt(text, word, 0)
  {
    if |text| == |word| && ReadsAt(text, word, 0) {
      assert forall j :: 0 <= j < |word| ==> text[0 + j] == word[j];
    }
  }

  /** Section 3 of RFC 9111 as the code reads it: a response is stored if and only if all of this holds of the request,
      the response and the configuration. What the request asks for counts unless the mode bypasses the request, what
      the response says about caching unless it bypasses the response. */
  lemma GateExactly(c: Config, ex: Exchange)
    ensures Gate(c, ex) <==>
            && (ex.response.code in {200, 203, 204, 206, 300, 301, 404, 405, 410, 414, 501} ||
                ex.response.code in c.allowedCodes)
            && ex.response.controlCc.Some?
            && var cc, r := ex.response.controlCc.value, ex.response;
            && (!c.mode.bypassRequest && (cc.isPrivate || Get(ex.rq, "Authorization") != "") ==>
                  NamesAuthorization(r.headers, ex.ignoredHeaders))
            && (!c.mode.bypassRequest ==> !ex.rqCc.noStore)
            && (!c.mode.bypassResponse && cc.noStore ==> ExpiresDecides(ex, cc))
            && (!c.mode.bypassResponse && ExpiresDecides(ex, cc) ==>
                  && ex.expires.Until? && ex.clock < ex.expires.at
                  && ex.expires.at - ex.clock <= 3650 * 24 * 3600 * 1_000_000_000
                  && (r.date.At? ==> r.date.t <= ex.expires.at))
            && (c.maxBodyBytes > 0 ==> |r.body| <= c.maxBodyBytes)
            && (r.body == "" ==> ex.verb == "HEAD" || r.code in {204, 301, 405} || r.code in c.allowedCodes)
            && ("Vary" in cc.noCacheFields || "*" !in CommaSepFields(Values(r.headers, "Vary")))
            && !ex.canceled
  {
    hide MayBypassAuthorization, NamesAuthorization, Get, CommaSepFields;
    BypassNamesAuthorization(ex.response.headers, ex.ignoredHeaders);
    if ex.response.controlCc.Some? {
      VaryOfCopy(ex, ex.response.controlCc.value);
      NothingListed();
      hide Values, CopiedHeaders;
    }
  }

  lemma NothingListed()
    ensures CommaSepFields([]) == []
  {
  }

  /** A copy has the response's Vary lines, unless no-cache lists Vary: then it has none. */
  lemma VaryOfCopy(ex: Exchange, cc: ResponseCc)
    ensures Values(CopiedHeaders(ex, cc), "Vary") ==
            if "Vary" in cc.noCacheFields then [] else Values(ex.response.headers, "Vary")
  {
    assert CanonicalHeaderKey("Vary") == "Vary";
  }

  /** Neither s-maxage nor max-age is given, but Expires is. */
  predicate ExpiresDecides(ex: Exchange, cc: ResponseCc) {
    cc.sMaxAge < 0 && cc.maxAge < 0 && !ex.expires.NoExpires?
  }

  /** The stored copy: status and body of the response, its headers without those that no-cache lists, its Date or else
      that of the request in whole seconds, and the lifetime by s-maxage, max-age, Expires or configuration. */
  lemma StoredCopyMeans(c: Config, ex: Exchange, cc: ResponseCc)
    ensures var copy, r := StoredCopy(c, ex, cc), ex.response;
            && copy.code == r.code && copy.body == r.body
            && (forall name :: name in copy.headers <==> name in r.headers && name !in cc.noCacheFields)
            && (forall name :: name in copy.headers ==> copy.headers[name] == r.headers[name])
            && (if r.date.NoDate? || "Date" in cc.noCacheFields
                then copy.date.At? && copy.date.t <= ex.requestNow < copy.date.t + 1_000_000_000 &&
                     copy.date.t % 1_000_000_000 == 0
                else copy.date == r.date)
            && ("X-Souin-Stored-Ttl" !in cc.noCacheFields ==> copy.storedTTL == Some(Lifetime(c, ex, cc)))
    ensures var l := Lifetime(c, ex, cc);
            if c.mode.bypassResponse then l == c.ttl
            else if cc.sMaxAge >= 0 then l == cc.sMaxAge * 1_000_000_000
            else if cc.maxAge >= 0 then l == cc.maxAge * 1_000_000_000
            else if ex.expires.Until? then l == ex.expires.at - ex.clock
            else l == c.ttl
    ensures ex.clock + Remaining(c, ex, cc) <= ex.requestNow + Lifetime(c, ex, cc) <
            ex.clock + Remaining(c, ex, cc) + 1_000_000_000
  {
    assert CanonicalHeaderKey("Date") == "Date";
    assert CanonicalHeaderKey("X-Souin-Stored-TTL") == "X-Souin-Stored-Ttl";
  }

  ghost predicate TakesPart(ex: Exchange, i: nat) {
    ex.target.None? || ex.target.value == i
  }

  class SouinBaseHandler {
    const storers: seq<Storer>
    const config: Config

    ghost predicate Valid() {
      forall i, j :: 0 <= i < j < |storers| ==> storers[i] != storers[j]
    }

    constructor (storers: seq<Storer>, config: Config)
      ensures this.storers == storers && this.config == config
    {
      this.storers, this.config := storers, config;
    }

    /** The part of `Store` that decides, with its early returns in their order. */
    method Admit(ex: Exchange) returns (upstreamFailed: bool, admitted: Option<(Time, Response)>)
      ensures upstreamFailed <==> IsUpstreamFailure(ex.response.code, config.allowedCodes)
      ensures admitted.Some? <==> Gate(config, ex)
      ensures admitted.Some? ==> var cc := ex.response.controlCc.value;
                admitted.value == (Remaining(config, ex, cc), StoredCopy(config, ex, cc))
    {
      hide MayBypassAuthorization, VariedHeaders, CanonicalHeaderKey, Get;
      var code, r := ex.response.code, ex.response;
      if !IsCacheableCode(code) && code !in config.allowedCodes {
        return code in {500, 502, 503, 504}, None;
      }
      if r.controlCc.None? {
        return false, None;
      }
      var cc := r.controlCc.value;
      if !config.mode.bypassRequest && (cc.isPrivate || Get(ex.rq, "Authorization") != "") &&
         !MayBypassAuthorization(r.headers, ex.ignoredHeaders) {
        return false, None;
      }
      var hasFreshness, ma := false, config.ttl;
      if !config.mode.bypassResponse {
        if cc.sMaxAge >= 0 {
          ma := cc.sMaxAge * SECOND;
        } else if cc.maxAge >= 0 {
          ma := cc.maxAge * SECOND;
        } else if !ex.expires.NoExpires? {
          if ex.expires.BadExpires? {
            return false, None;
          }
          var duration := ex.expires.at - ex.clock;
          if duration <= 0 || duration > 10 * ONE_YEAR {
            return false, None;
          }
          if r.date.At? && r.date.t - ex.expires.at > 0 {
            return false, None;
          }
          ma, hasFreshness := duration, true;
        }
      }
      var storedTTL := ma;
      ma := ma - (ex.clock - Printed(ex.requestNow));
      if !((config.mode.bypassRequest || !ex.rqCc.noStore) &&
           (config.mode.bypassResponse || !cc.noStore || hasFreshness)) {
        return false, None;
      }
      var copy := r.(headers := r.headers - cc.noCacheFields,
                     storedTTL := if CanonicalHeaderKey("X-Souin-Stored-TTL") in cc.noCacheFields
                                  then None else Some(storedTTL));
      if copy.date.NoDate? || CanonicalHeaderKey("Date") in cc.noCacheFields {
        copy := copy.(date := At(Printed(ex.requestNow)));
      }
      if config.maxBodyBytes > 0 && |r.body| > config.maxBodyBytes {
        return false, None;
      }
      if !(|r.body| > 0 || ex.verb == "HEAD" || MayHaveEmptyBody(code) || code in config.allowedCodes) {
        return false, None;
      }
      var isVaryStar := VariedHeaders(copy.headers).1;
      if isVaryStar || ex.canceled {
        return false, None;
      }
      return false, Some((ma, copy));
    }

    /** `Store`: an admitted response is written to every storer, or to the one the response picked. */
    method Store(ex: Exchange) returns (upstreamFailed: bool)
      requires Valid() && ByteHeader(ex.rq)
      modifies storers
      ensures upstreamFailed <==> IsUpstreamFailure(ex.response.code, config.allowedCodes)
      ensures forall i :: 0 <= i < |storers| ==> storers[i].now == old(storers[i].now)
      ensures forall i :: 0 <= i < |storers| ==>
                storers[i].cells == if Gate(config, ex) && TakesPart(ex, i)
                                    then AfterStore(config, ex, old(storers[i].cells), storers[i].now, storers[i].stale)
                                    else old(storers[i].cells)
      ensures forall i :: 0 <= i < |storers| && !(Gate(config, ex) && (ex.target.None? || ex.target.value == i)) ==>
                storers[i].cells == old(storers[i].cells)
      ensures Gate(config, ex) ==>
                forall i :: 0 <= i < |storers| && (ex.target.None? || ex.target.value == i) ==>
                  var copy := StoredCopy(config, ex, ex.response.controlCc.value);
                  var variant := Variant(ex.key, ex.rq, copy.headers);
                  ReadyFor(old(storers[i].cells), storers[i].now, ex.key, variant, copy) ==>
                    HoldsVariant(storers[i].cells, storers[i].now, storers[i].stale, ex.key, variant, ex.rq, copy,
                                 storers[i].now + Remaining(config, ex, ex.response.controlCc.value)) &&
                    LeavesTheRest(old(storers[i].cells), storers[i].cells, storers[i].now, ex.key, variant)
    {
      hide HoldsVariant, LeavesTheRest, ReadyFor, Variant;
      hide Gate, PrintedSuffix, VariedNames, VariedValues, StoredCopy, Remaining, AfterSet;
      var admitted;
      upstreamFailed, admitted := Admit(ex);
      if admitted.None? {
        return;
      }
      GateHasControl(config, ex);
      var (ma, copy) := admitted.value;
      var variant, vhs := VaryParts(ex.key, ex.rq, copy.headers);
      for i := 0 to |storers|
        invariant forall j :: 0 <= j < |storers| ==> storers[j].now == old(storers[j].now)
        invariant forall j :: i <= j < |storers| ==> storers[j].cells == old(storers[j].cells)
        invariant forall j :: 0 <= j < i ==>
                    storers[j].cells == if TakesPart(ex, j)
                                        then AfterStore(config, ex, old(storers[j].cells), storers[j].now,
                                            storers[j].stale)
                                        else old(storers[j].cells)
      {
        if ex.target.None? || ex.target.value == i {
          var ok := storers[i].SetMultiLevel(ex.key, variant, copy, vhs, Get(copy.headers, "Etag"), ma, variant);
        }
      }
      forall i | 0 <= i < |storers| && TakesPart(ex, i) &&
        ReadyFor(old(storers[i].cells), storers[i].now, ex.key, variant, copy)
        ensures HoldsVariant(storers[i].cells, storers[i].now, storers[i].stale, ex.key, variant, ex.rq, copy,
                             storers[i].now + ma)
        ensures LeavesTheRest(old(storers[i].cells), storers[i].cells, storers[i].now, ex.key, variant)
      {
        SetHoldsVariant(old(storers[i].cells), storers[i].now, storers[i].stale, ex.key, variant, ex.rq, copy, ma);
      }
    }

    /** `backfillStorers`: copies a response found in storer `idx` to the storers before it. */
    method BackfillStorers(idx: nat, key: string, rq: Header, response: Response, clock: Time)
      requires Valid() && ByteHeader(rq) && idx <= |storers|
      modifies storers
      ensures forall i :: 0 <= i < |storers| ==> storers[i].now == old(storers[i].now)
      ensures forall i :: 0 <= i < |storers| ==>
                storers[i].cells == if i < idx && Promotable(response)
                                    then AfterPromotion(key, rq, response, clock, old(storers[i].cells),
                                        storers[i].now, storers[i].stale)
                                    else old(storers[i].cells)
      ensures response.storedTTL.Some? && response.date.At? ==>
                forall i :: 0 <= i < idx ==>
                  var variant := Variant(key, rq, response.headers);
                  ReadyFor(old(storers[i].cells), storers[i].now, key, variant, response) ==>
                    HoldsVariant(storers[i].cells, storers[i].now, storers[i].stale, key, variant, rq, response,
                                 storers[i].now + response.storedTTL.value - (clock - response.date.t)) &&
                    LeavesTheRest(old(storers[i].cells), storers[i].cells, storers[i].now, key, variant)
    {
      hide HoldsVariant, LeavesTheRest, ReadyFor, Variant;
      hide PrintedSuffix, VariedNames, VariedValues, AfterSet;
      if idx == 0 {
        return;
      }
      if response.storedTTL.None? || !response.date.At? {
        return;
      }
      var ma := response.storedTTL.value - (clock - response.date.t);
      var variant, vhs := VaryParts(key, rq, response.headers);
      for i := 0 to idx
        invariant forall j :: 0 <= j < |storers| ==> storers[j].now == old(storers[j].now)
        invariant forall j :: i <= j < |storers| ==> storers[j].cells == old(storers[j].cells)
        invariant forall j :: 0 <= j < i ==>
                    storers[j].cells == AfterPromotion(key, rq, response, clock, old(storers[j].cells),
                        storers[j].now, storers[j].stale)
      {
        var ok := storers[i].SetMultiLevel(key, variant, response, vhs, Get(response.headers, "Etag"), ma, variant);
      }
      forall i | 0 <= i < idx && ReadyFor(old(storers[i].cells), storers[i].now, key, variant, response)
        ensures HoldsVariant(storers[i].cells, storers[i].now, storers[i].stale, key, variant, rq, response,
                             storers[i].now + ma)
        ensures LeavesTheRest(old(storers[i].cells), storers[i].cells, storers[i].now, key, variant)
      {
        SetHoldsVariant(old(storers[i].cells), storers[i].now, storers[i].stale, key, variant, rq, response, ma);
      }
    }
  }

  lemma GateHasControl(c: Config, ex: Exchange)
    requires Gate(c, ex)
    ensures ex.response.controlCc.Some?
  {
  }

  /** A storer after `Store` admitted the exchange, at the storer's own time. */
  function AfterStore(c: Config, ex: Exchange, cells: Cells, now: Time, stale: Time): Cells
    requires ByteHeader(ex.rq) && ex.response.controlCc.Some?
  {
    var cc := ex.response.controlCc.value;
    var copy := StoredCopy(c, ex, cc);
    var variant := Variant(ex.key, ex.rq, copy.headers);
    AfterSet(cells, now, stale, ex.key, variant, copy, VariedValues(ex.rq, VariedNames(copy.headers)),
             Get(copy.headers, "Etag"), Remaining(c, ex, cc), variant).0
  }

  /** Both headers the promotion needs are readable. */
  predicate Promotable(r: Response) {
    r.storedTTL.Some? && r.date.At?
  }

  function AfterPromotion(key: string, rq: Header, r: Response, clock: Time, cells: Cells, now: Time,
                          stale: Time): Cells
    requires ByteHeader(rq) && Promotable(r)
  {
    var variant := Variant(key, rq, r.headers);
    AfterSet(cells, now, stale, key, variant, r, VariedValues(rq, VariedNames(r.headers)),
             Get(r.headers, "Etag"), r.storedTTL.value - (clock - r.date.t), variant).0
  }
}
