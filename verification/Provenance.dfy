/** Whole runs of the pipeline over a row of storers, fastest first: where every stored response came from, and
    what its fresh time is, however often it was promoted. */
module Provenance {
  import opened Strings
  import opened Wrappers
  import opened HttpHeader
  import opened HttpRules
  import opened Messages
  import opened Storage
  import opened Pipeline
  import E = Eviction
  import A = SouinApi

  /** A backfill that was started and has not run yet. */
  datatype Promotion = Promotion(idx: nat, key: string, rq: Header, response: Response)

  datatype State = State(now: Time, tiers: seq<Cells>, pending: set<Promotion>)

  datatype Event =
    | StoreCall(ex: Exchange, gap: nat)            // Store; the storers read the clock `gap` later
    | Serve(p: Promotion)                          // a fresh response was found in storer p.idx: backfill starts
    | Backfill(p: Promotion, gap: nat)             // the backfill runs, some time later
    | Dropped(tier: nat, keys: set<string>)        // deletes and expired entries
    | Placed(tier: nat, key: string, text: string, ttl: TTL)                           // Set: tags and locks
    | Evicted(tier: nat, ttl: TTL, after: Cells)                                       // EvictMapping
    | BulkDeleted(tier: nat, ttl: TTL, re: Regexp, key: string, purge: bool)           // BulkDelete on one storer
    | Elapsed(time: nat)

  /** The setting of a run: configuration, stale times per storer, the largest clock gap inside one call, and the
      base key that owns each variant key. */
  datatype Setting = Setting(
    config: Config, stales: seq<Time>, hidesIndex: bool, maxGap: nat, owner: map<string, string>)

  ghost predicate Owned(s: Setting, key: string, rq: Header, headers: Header) {
    ByteHeader(rq) &&
    var variant := Variant(key, rq, headers);
    variant in s.owner && s.owner[variant] == key && !IsIndexKey(variant)
  }

  ghost predicate Allowed(s: Setting, st: State, e: Event) {
    match e
    case StoreCall(ex, gap) => ex.clock == st.now && gap <= s.maxGap && ByteHeader(ex.rq)
    case Serve(p) =>
      p.idx < |st.tiers| &&
      exists staleRes :: Found(st.tiers[p.idx], st.now, s.hidesIndex, p.key, p.rq, Some(p.response), staleRes)
    case Backfill(p, gap) => p in st.pending && gap <= s.maxGap && p.idx <= |st.tiers| && ByteHeader(p.rq)
    case Dropped(tier, _) => tier < |st.tiers|
    case Placed(tier, _, _, _) => tier < |st.tiers|
    case Evicted(tier, ttl, after) =>
      tier < |st.tiers| &&
      forall key :: E.Under(after, key) == E.Evicted(st.tiers[tier], st.now, s.hidesIndex, ttl, key)
    case BulkDeleted(tier, _, _, _, _) => tier < |st.tiers|
    case Elapsed(_) => true
  }

  /** Variant keys belong to one base key each, and nothing else is stored under them. */
  ghost predicate OwnedEvent(s: Setting, e: Event) {
    match e
    case StoreCall(ex, _) => Gate(s.config, ex) ==>
                             Owned(s, ex.key, ex.rq, CopiedHeaders(ex, ex.response.controlCc.value))
    case Backfill(p, _) => Owned(s, p.key, p.rq, p.response.headers)
    case Placed(_, key, _, _) => key !in s.owner
    case _ => true
  }

  ghost predicate OwnedRun(s: Setting, run: seq<Event>) {
    forall j :: 0 <= j < |run| ==> OwnedEvent(s, run[j])
  }

  ghost function Apply(s: Setting, st: State, e: Event): (t: State)
    requires Allowed(s, st, e) && |st.tiers| == |s.stales|
    ensures |t.tiers| == |st.tiers|
  {
    match e
    case StoreCall(ex, gap) =>
      State(st.now + gap, seq(|st.tiers|, i requires 0 <= i < |st.tiers| =>
        if Gate(s.config, ex) && TakesPart(ex, i)
        then AfterStore(s.config, ex, st.tiers[i], st.now + gap, s.stales[i]) else st.tiers[i]), st.pending)
    case Serve(p) => st.(pending := st.pending + {p})
    case Backfill(p, gap) =>
      State(st.now + gap, seq(|st.tiers|, i requires 0 <= i < |st.tiers| =>
        if i < p.idx && Promotable(p.response)
        then AfterPromotion(p.key, p.rq, p.response, st.now, st.tiers[i], st.now + gap, s.stales[i]) else st.tiers[i]),
        st.pending - {p})
    case Dropped(tier, keys) => st.(tiers := st.tiers[tier := st.tiers[tier] - keys])
    case Placed(tier, key, text, ttl) =>
      st.(tiers := st.tiers[tier := st.tiers[tier][key := Cell(Text(text), Expiry(st.now, ttl))]])
    case Evicted(tier, _, after) => st.(tiers := st.tiers[tier := after])
    case BulkDeleted(tier, ttl, re, key, purge) =>
      st.(tiers := st.tiers[tier := A.AfterBulkDelete(st.tiers[tier], st.now, s.hidesIndex, ttl, re, key, purge)])
    case Elapsed(time) => st.(now := st.now + time)
  }

  ghost function Start(s: Setting, now: Time): State {
    State(now, seq(|s.stales|, _ => map[]), {})
  }

  ghost predicate ValidRun(s: Setting, start: Time, run: seq<Event>)
    decreases |run|, 0
  {
    run == [] ||
    (ValidRun(s, start, run[..|run| - 1]) && Allowed(s, After(s, start, run[..|run| - 1]), run[|run| - 1]))
  }

  ghost function After(s: Setting, start: Time, run: seq<Event>): (t: State)
    requires ValidRun(s, start, run)
    ensures |t.tiers| == |s.stales|
    decreases |run|, 1
  {
    if run == [] then Start(s, start) else Apply(s, After(s, start, run[..|run| - 1]), run[|run| - 1])
  }

  // ---- Provenance

  /** The response is the stored copy of an exchange of the run that passed the whole gate. */
  ghost predicate Admitted(s: Setting, run: seq<Event>, r: Response) {
    exists j :: 0 <= j < |run| && AdmittedAt(s, run[j], r)
  }

  ghost predicate AdmittedAt(s: Setting, e: Event, r: Response) {
    e.StoreCall? && Gate(s.config, e.ex) && r == StoredCopy(s.config, e.ex, e.ex.response.controlCc.value)
  }

  ghost predicate AllAdmitted(s: Setting, run: seq<Event>, t: State) {
    (forall i, k :: 0 <= i < |t.tiers| && k in t.tiers[i] && t.tiers[i][k].value.Body? ==>
       Admitted(s, run, t.tiers[i][k].value.response)) &&
    forall p :: p in t.pending ==> Admitted(s, run, p.response)
  }

  lemma AdmittedLater(s: Setting, run: seq<Event>, e: Event, r: Response)
    ensures Admitted(s, run, r) || AdmittedAt(s, e, r) ==> Admitted(s, run + [e], r)
  {
    var longer := run + [e];
    if Admitted(s, run, r) {
      var j :| 0 <= j < |run| && AdmittedAt(s, run[j], r);
      assert longer[j] == run[j];
    } else if AdmittedAt(s, e, r) {
      assert longer[|run|] == e;
    }
  }

  lemma SetAddsOneBody(cells: Cells, now: Time, stale: Time, base: string, variant: string, response: Response,
                       varied: Header, etag: string, duration: Time, k: string)
    ensures var after := AfterSet(cells, now, stale, base, variant, response, varied, etag, duration, variant).0;
            k in after && after[k].value.Body? ==>
              after[k].value.response == response || (k in cells && after[k] == cells[k])
  {
  }

  lemma StepAdmits(s: Setting, run: seq<Event>, st: State, e: Event)
    requires Allowed(s, st, e) && |st.tiers| == |s.stales| && AllAdmitted(s, run, st)
    ensures AllAdmitted(s, run + [e], Apply(s, st, e))
  {
    hide Gate, StoredCopy, AfterSet, Variant, VariedValues, VariedNames, Admitted, Remaining, Eligible;
    var t := Apply(s, st, e);
    forall i, k | 0 <= i < |t.tiers| && k in t.tiers[i] && t.tiers[i][k].value.Body?
      ensures Admitted(s, run + [e], t.tiers[i][k].value.response)
    {
      var r := t.tiers[i][k].value.response;
      AdmittedLater(s, run, e, r);
      if e.StoreCall? && Gate(s.config, e.ex) && TakesPart(e.ex, i) {
        StoreAddsCopy(s, e, st.tiers[i], st.now + e.gap, s.stales[i], k);
      } else if e.Backfill? && i < e.p.idx && Promotable(e.p.response) {
        PromotionAddsCopy(e.p, st.now, st.tiers[i], st.now + e.gap, s.stales[i], k);
      } else if e.Evicted? && i == e.tier {
        EvictionAddsNoBody(s, st, e, k);
      } else if e.BulkDeleted? && i == e.tier {
        BulkDeleteAddsNoBody(st.tiers[i], st.now, s.hidesIndex, e.ttl, e.re, e.key, e.purge, k);
      }
    }
    forall p | p in t.pending
      ensures Admitted(s, run + [e], p.response)
    {
      AdmittedLater(s, run, e, p.response);
      if e.Serve? && p == e.p {
        FoundIsStored(st.tiers[p.idx], st.now, s.hidesIndex, p.key, p.rq, p.response);
      }
    }
  }

  lemma StoreAddsCopy(s: Setting, e: Event, cells: Cells, now: Time, stale: Time, k: string)
    requires e.StoreCall? && Gate(s.config, e.ex) && ByteHeader(e.ex.rq)
    ensures e.ex.response.controlCc.Some?
    ensures var after := AfterStore(s.config, e.ex, cells, now, stale);
            k in after && after[k].value.Body? ==>
              AdmittedAt(s, e, after[k].value.response) || (k in cells && after[k] == cells[k])
  {
    hide AfterSet, Variant, VariedValues, VariedNames, Remaining;
    var cc := e.ex.response.controlCc.value;
    var copy := StoredCopy(s.config, e.ex, cc);
    var variant := Variant(e.ex.key, e.ex.rq, copy.headers);
    SetAddsOneBody(cells, now, stale, e.ex.key, variant, copy, VariedValues(e.ex.rq, VariedNames(copy.headers)),
                   Get(copy.headers, "Etag"), Remaining(s.config, e.ex, cc), k);
  }

  lemma PromotionAddsCopy(p: Promotion, clock: Time, cells: Cells, now: Time, stale: Time, k: string)
    requires ByteHeader(p.rq) && Promotable(p.response)
    ensures var after := AfterPromotion(p.key, p.rq, p.response, clock, cells, now, stale);
            k in after && after[k].value.Body? ==>
              after[k].value.response == p.response || (k in cells && after[k] == cells[k])
  {
    hide AfterSet, Variant, VariedValues, VariedNames;
    var r := p.response;
    SetAddsOneBody(cells, now, stale, p.key, Variant(p.key, p.rq, r.headers), r,
                   VariedValues(p.rq, VariedNames(r.headers)),
                   Get(r.headers, "Etag"), r.storedTTL.value - (clock - r.date.t), k);
  }

  lemma EvictionAddsNoBody(s: Setting, st: State, e: Event, k: string)
    requires e.Evicted? && Allowed(s, st, e)
    ensures k in e.after && e.after[k].value.Body? ==> k in st.tiers[e.tier] && e.after[k] == st.tiers[e.tier][k]
  {
    assert E.Under(e.after, k) == E.Evicted(st.tiers[e.tier], st.now, s.hidesIndex, e.ttl, k);
  }

  lemma BulkDeleteAddsNoBody(cells: Cells, now: Time, hidesIndex: bool, ttl: TTL, re: Regexp, key: string,
                             purge: bool, k: string)
    ensures var after := A.AfterBulkDelete(cells, now, hidesIndex, ttl, re, key, purge);
            k in after && after[k].value.Body? ==> k in cells && after[k] == cells[k]
  {
  }

  lemma FoundIsStored(cells: Cells, now: Time, hidesIndex: bool, key: string, rq: Header, response: Response)
    requires exists staleRes :: Found(cells, now, hidesIndex, key, rq, Some(response), staleRes)
    ensures exists k :: k in cells && cells[k].value == Body(response)
  {
    hide FreshIn, StaleIn;
    var staleRes :| Found(cells, now, hidesIndex, key, rq, Some(response), staleRes);
    var m := IndexOf(cells, now, key).value;
    var k :| FreshIn(cells, now, hidesIndex, m, rq, k) && Seen(cells, now, hidesIndex, k) == Some(Body(response));
    assert cells[k].value == Body(response);
  }

  /** In every reachable state, every response in every storer, backfilled copies included, and every response a
      backfill still has in hand, is the stored copy of an exchange that passed the whole gate. */
  lemma {:induction false} EveryResponsePassedTheGate(s: Setting, start: Time, run: seq<Event>)
    requires ValidRun(s, start, run)
    ensures AllAdmitted(s, run, After(s, start, run))
  {
    if run != [] {
      var before, e := run[..|run| - 1], run[|run| - 1];
      EveryResponsePassedTheGate(s, start, before);
      StepAdmits(s, before, After(s, start, before), e);
      assert run == before + [e];
    }
  }

  /** In strict mode the gate is what section 3 of RFC 9111 asks for, with two departures the code makes: a
      no-store response is stored when Expires sets its freshness, and `Vary: *` counts in the stored copy only. */
  lemma StrictGateMeans(s: Setting, e: Event, r: Response)
    requires s.config.mode.Strict() && AdmittedAt(s, e, r)
    ensures var ex, cc := e.ex, e.ex.response.controlCc.value;
            && StatusAllowed(r.code, s.config.allowedCodes) && !ex.rqCc.noStore
            && (cc.noStore ==> cc.sMaxAge < 0 && cc.maxAge < 0 && ex.expires.Until? && ex.clock < ex.expires.at)
            && (cc.isPrivate || Get(ex.rq, "Authorization") != "" ==>
                MayBypassAuthorization(ex.response.headers, ex.ignoredHeaders))
            && !VariedHeaders(r.headers).1
            && (VariedHeaders(ex.response.headers).1 ==> "Vary" in cc.noCacheFields)
            && ("Vary" !in cc.noCacheFields ==> Values(ex.response.headers, "Vary") == Values(r.headers, "Vary"))
            && (s.config.maxBodyBytes > 0 ==> |r.body| <= s.config.maxBodyBytes)
  {
    hide MayBypassAuthorization, Get;
    VaryOfCopy(e.ex, e.ex.response.controlCc.value);
  }

  /** A `Vary: *` response that passes the rest of the gate is stored if and only if no-cache lists Vary. */
  lemma VaryStarStoredExactly(c: Config, ex: Exchange, cc: ResponseCc)
    requires ex.response.controlCc == Some(cc) && VariedHeaders(ex.response.headers).1 && PassesButForVary(c, ex)
    ensures Gate(c, ex) <==> "Vary" in cc.noCacheFields
  {
    hide PassesButForVary, CopiedHeaders, Values;
    VaryOfCopy(ex, cc);
  }

  /** The rest of the gate can only get stricter when the response loses its Vary header. */
  lemma PassesWithVary(c: Config, ex: Exchange)
    requires Gate(c, ex.(response := ex.response.(headers := ex.response.headers - {"Vary"})))
    ensures PassesButForVary(c, ex)
  {
    assert CanonicalHeaderKey("Vary") == "Vary";
    NothingInEmpty("authorization");
    assert ToLower("") == "";
  }

  /** So when a response would be stored without its Vary header, `Vary: *` keeps it out unless no-cache lists Vary. */
  lemma VaryStarKeepsOutExactly(c: Config, ex: Exchange, cc: ResponseCc)
    requires ex.response.controlCc == Some(cc) && VariedHeaders(ex.response.headers).1
    requires Gate(c, ex.(response := ex.response.(headers := ex.response.headers - {"Vary"})))
    ensures Gate(c, ex) <==> "Vary" in cc.noCacheFields
  {
    hide Gate, PassesButForVary, VariedHeaders;
    PassesWithVary(c, ex);
    VaryStarStoredExactly(c, ex, cc);
  }

  lemma NothingInEmpty(sub: string)
    requires sub != ""
    ensures !Contains("", sub)
  {
  }

  /** A GET in strict mode, answered 200 one hundred seconds after the epoch of the model's clock. */
  function SampleExchange(headers: Header, cc: ResponseCc, date: DateField, expires: ExpiresField): Exchange {
    Exchange(map[], "GET", RequestCc(false, false, false, false, -1, -1, -1, -1), "GET-http-host-/", [], 100 * SECOND,
             100 * SECOND, false, Response(200, headers, "body", date, None, 0, Some(cc), Some(cc)), expires, None)
  }

  function SampleCc(noStore: bool, noCacheFields: set<string>, maxAge: int): ResponseCc {
    ResponseCc(noStore, false, noCacheFields != {}, noCacheFields, false, maxAge, -1, -1, -1)
  }

  const STRICT := Config({}, 60 * SECOND, 0, Mode(false, false))

  /** `Vary: *` with `Cache-Control: max-age=60, no-cache="Vary"` is stored. */
  lemma VaryStarIsStored()
    ensures var ex := SampleExchange(map["Vary" := ["*"]], SampleCc(false, {"Vary"}, 60), NoDate, NoExpires);
            VariedHeaders(ex.response.headers).1 && Gate(STRICT, ex)
  {
    var ex := SampleExchange(map["Vary" := ["*"]], SampleCc(false, {"Vary"}, 60), NoDate, NoExpires);
    assert CanonicalHeaderKey("Vary") == "Vary";
    StarIsListed(ex.response.headers);
    VaryStarStoredExactly(STRICT, ex, ex.response.controlCc.value);
  }

  lemma StarIsListed(headers: Header)
    requires Values(headers, "Vary") == ["*"]
    ensures VariedHeaders(headers).1
  {
    SplitWithoutSeparator("*", ',');
    assert TrimSpace("*") == "*";
    assert ["*"][..0] == [];
    assert CommaSepFields([]) == [];
    assert TrimAll(["*"])[0] == "*";
  }

  /** In strict mode no-store is honoured if and only if Expires does not set the freshness. */
  lemma NoStoreHonouredExactly(c: Config, ex: Exchange, cc: ResponseCc)
    requires c.mode.Strict() && ex.response.controlCc == Some(cc) && cc.noStore
    requires Gate(c, ex.(response := ex.response.(controlCc := Some(cc.(noStore := false)))))
    ensures Gate(c, ex) <==> ExpiresCounts(c, ex, cc)
  {
    hide MayBypassAuthorization, VariedHeaders, Get, StatusAllowed;
  }

  /** `Cache-Control: no-store` with Expires in one minute is stored. */
  lemma NoStoreIsStored()
    ensures Gate(STRICT, SampleExchange(map[], SampleCc(true, {}, -1), NoDate, Until(160 * SECOND)))
  {
    var ex := SampleExchange(map[], SampleCc(true, {}, -1), NoDate, Until(160 * SECOND));
    assert CommaSepFields([]) == [];
    assert Values(map[], "Vary") == [];
  }

  // ---- Fresh times

  /** `t` is the fresh time of a copy of `r`: the request's time plus the lifetime when the exchange stored it
      directly, or the copy's own Date plus its stored lifetime when it was promoted, up to the gap of one call. */
  ghost predicate DirectTime(s: Setting, run: seq<Event>, r: Response, t: Time) {
    exists j :: 0 <= j < |run| && AdmittedAt(s, run[j], r) &&
                DirectBasis(s, run[j].ex) <= t <= DirectBasis(s, run[j].ex) + s.maxGap
  }

  ghost function DirectBasis(s: Setting, ex: Exchange): Time {
    Printed(ex.requestNow) +
    if ex.response.controlCc.Some? then Lifetime(s.config, ex, ex.response.controlCc.value) else 0
  }

  predicate PromotedTime(s: Setting, r: Response, t: Time) {
    Promotable(r) && r.date.t + r.storedTTL.value <= t <= r.date.t + r.storedTTL.value + s.maxGap
  }

  ghost predicate Timed(s: Setting, run: seq<Event>, cells: Cells, base: string, k: string) {
    Indexed(cells, base, k) ==>
      k in s.owner && s.owner[k] == base && !IsIndexKey(k) &&
      (k in cells ==>
         cells[k].value.Body? &&
         var r, t := cells[k].value.response, cells[IndexKey(base)].value.mapping[k].freshTime;
         DirectTime(s, run, r, t) || PromotedTime(s, r, t))
  }

  ghost predicate AllTimed(s: Setting, run: seq<Event>, t: State) {
    forall i, base, k :: 0 <= i < |t.tiers| ==> Timed(s, run, t.tiers[i], base, k)
  }

  /** One `SetMultiLevel` keeps the times right if the entry it writes is right. */
  lemma SetKeepsTimed(s: Setting, run: seq<Event>, cells: Cells, now: Time, stale: Time, key: string, variant: string,
                      response: Response, varied: Header, etag: string, duration: Time, base: string, k: string)
    requires Timed(s, run, cells, base, k)
    requires variant in s.owner && s.owner[variant] == key && !IsIndexKey(variant)
    requires DirectTime(s, run, response, now + duration) || PromotedTime(s, response, now + duration)
    ensures Timed(s, run, AfterSet(cells, now, stale, key, variant, response, varied, etag, duration, variant).0,
              base, k)
  {
    hide DirectTime, PromotedTime;
    IndexKeyInjective(base, key);
    IndexKeyInjective(key, key);
  }

  lemma TimedLater(s: Setting, run: seq<Event>, e: Event, cells: Cells, base: string, k: string)
    requires Timed(s, run, cells, base, k)
    ensures Timed(s, run + [e], cells, base, k)
  {
    if Indexed(cells, base, k) && k in cells {
      var r, t := cells[k].value.response, cells[IndexKey(base)].value.mapping[k].freshTime;
      if DirectTime(s, run, r, t) {
        var j :| 0 <= j < |run| && AdmittedAt(s, run[j], r) &&
                 DirectBasis(s, run[j].ex) <= t <= DirectBasis(s, run[j].ex) + s.maxGap;
        assert (run + [e])[j] == run[j];
      }
    }
  }

  lemma StoreKeepsTimed(s: Setting, run: seq<Event>, st: State, e: Event, i: nat, base: string, k: string)
    requires e.StoreCall? && Allowed(s, st, e) && OwnedEvent(s, e) && Gate(s.config, e.ex) && i < |st.tiers| &&
             |st.tiers| == |s.stales|
    requires Timed(s, run + [e], st.tiers[i], base, k)
    ensures e.ex.response.controlCc.Some?
    ensures Timed(s, run + [e], AfterStore(s.config, e.ex, st.tiers[i], st.now + e.gap, s.stales[i]), base, k)
  {
    hide Timed, AfterSet, VariedValues, VariedNames, Variant, CopiedHeaders, Lifetime, Gate, Get, CanonicalHeaderKey;
    GateHasControl(s.config, e.ex);
    var ex, cc := e.ex, e.ex.response.controlCc.value;
    var copy := StoredCopy(s.config, ex, cc);
    var now := st.now + e.gap;
    assert (run + [e])[|run|] == e;
    assert now + Remaining(s.config, ex, cc) == DirectBasis(s, ex) + e.gap;
    assert DirectTime(s, run + [e], copy, now + Remaining(s.config, ex, cc));
    SetKeepsTimed(s, run + [e], st.tiers[i], now, s.stales[i], ex.key, Variant(ex.key, ex.rq, copy.headers), copy,
                  VariedValues(ex.rq, VariedNames(copy.headers)), Get(copy.headers, "Etag"),
                  Remaining(s.config, ex, cc), base, k);
  }

  lemma BackfillKeepsTimed(s: Setting, run: seq<Event>, st: State, e: Event, i: nat, base: string, k: string)
    requires e.Backfill? && Allowed(s, st, e) && OwnedEvent(s, e) && Promotable(e.p.response) && i < |st.tiers| &&
             |st.tiers| == |s.stales|
    requires Timed(s, run + [e], st.tiers[i], base, k)
    ensures Timed(s, run + [e], AfterPromotion(e.p.key, e.p.rq, e.p.response, st.now, st.tiers[i], st.now + e.gap,
              s.stales[i]), base, k)
  {
    hide Timed, AfterSet, VariedValues, VariedNames, Variant;
    var p, r := e.p, e.p.response;
    var now, ma := st.now + e.gap, r.storedTTL.value - (st.now - r.date.t);
    assert PromotedTime(s, r, now + ma);
    SetKeepsTimed(s, run + [e], st.tiers[i], now, s.stales[i], p.key, Variant(p.key, p.rq, r.headers), r,
                  VariedValues(p.rq, VariedNames(r.headers)), Get(r.headers, "Etag"), ma, base, k);
  }

  lemma StepKeepsTimed(s: Setting, run: seq<Event>, st: State, e: Event)
    requires Allowed(s, st, e) && OwnedEvent(s, e) && |st.tiers| == |s.stales| && AllTimed(s, run, st)
    ensures AllTimed(s, run + [e], Apply(s, st, e))
  {
    hide Timed, Gate, AfterStore, AfterPromotion, Owned, Promotable;
    var t := Apply(s, st, e);
    forall i, base, k | 0 <= i < |t.tiers|
      ensures Timed(s, run + [e], t.tiers[i], base, k)
    {
      TimedLater(s, run, e, st.tiers[i], base, k);
      if e.StoreCall? && Gate(s.config, e.ex) && TakesPart(e.ex, i) {
        StoreKeepsTimed(s, run, st, e, i, base, k);
      } else if e.Backfill? && i < e.p.idx && Promotable(e.p.response) {
        BackfillKeepsTimed(s, run, st, e, i, base, k);
      } else if e.Dropped? && i == e.tier {
        DropKeepsTimed(s, run + [e], st.tiers[i], e.keys, base, k);
      } else if e.Placed? && i == e.tier {
        PlaceKeepsTimed(s, run + [e], st, e, base, k);
      } else if e.Evicted? && i == e.tier {
        EvictionKeepsTimed(s, run + [e], st, e, base, k);
      } else if e.BulkDeleted? && i == e.tier {
        BulkDeleteKeepsTimed(s, run + [e], st, e, base, k);
      }
    }
  }

  lemma DropKeepsTimed(s: Setting, run: seq<Event>, cells: Cells, keys: set<string>, base: string, k: string)
    requires Timed(s, run, cells, base, k)
    ensures Timed(s, run, cells - keys, base, k)
  {
    hide DirectTime, PromotedTime;
  }

  lemma PlaceKeepsTimed(s: Setting, run: seq<Event>, st: State, e: Event, base: string, k: string)
    requires e.Placed? && Allowed(s, st, e) && OwnedEvent(s, e) && Timed(s, run, st.tiers[e.tier], base, k)
    requires |st.tiers| == |s.stales|
    ensures Timed(s, run, Apply(s, st, e).tiers[e.tier], base, k)
  {
    hide DirectTime, PromotedTime;
  }

  lemma EvictionKeepsTimed(s: Setting, run: seq<Event>, st: State, e: Event, base: string, k: string)
    requires e.Evicted? && Allowed(s, st, e) && Timed(s, run, st.tiers[e.tier], base, k)
    ensures Timed(s, run, e.after, base, k)
  {
    hide DirectTime, PromotedTime;
    var cells := st.tiers[e.tier];
    IndexKeyInjective(base, base);
    assert E.Under(e.after, IndexKey(base)) == E.Evicted(cells, st.now, s.hidesIndex, e.ttl, IndexKey(base));
    assert E.Under(e.after, k) == E.Evicted(cells, st.now, s.hidesIndex, e.ttl, k);
  }

  /** A bulk deletion resets fresh times, but only of entries whose bodies it deletes. */
  lemma BulkStepKeepsTimed(s: Setting, run: seq<Event>, cells: Cells, now: Time, ttl: TTL, key: string, purge: bool,
                           base: string, k: string)
    requires Timed(s, run, cells, base, k)
    ensures Timed(s, run, A.AfterBulkStep(cells, now, s.hidesIndex, ttl, key, purge), base, k)
  {
    hide DirectTime, PromotedTime;
    IndexKeyInjective(base, key);
  }

  lemma BulkDeleteKeepsTimed(s: Setting, run: seq<Event>, st: State, e: Event, base: string, k: string)
    requires e.BulkDeleted? && Allowed(s, st, e) && Timed(s, run, st.tiers[e.tier], base, k)
    requires |st.tiers| == |s.stales|
    ensures Timed(s, run, Apply(s, st, e).tiers[e.tier], base, k)
  {
    hide Timed, A.AfterBulkStep;
    var key := A.CutIndexPrefix(e.key);
    var stepped := A.AfterBulkStep(st.tiers[e.tier], st.now, s.hidesIndex, e.ttl, key, e.purge);
    var after := A.AfterDelete(stepped, e.re, key);
    BulkStepKeepsTimed(s, run, st.tiers[e.tier], st.now, e.ttl, key, e.purge, base, k);
    DropKeepsTimed(s, run, stepped, stepped.Keys - after.Keys, base, k);
    assert stepped - (stepped.Keys - after.Keys) == after;
  }

  lemma {:induction false} RunKeepsTimed(s: Setting, start: Time, run: seq<Event>)
    requires ValidRun(s, start, run) && OwnedRun(s, run)
    ensures AllTimed(s, run, After(s, start, run))
  {
    if run != [] {
      var before, e := run[..|run| - 1], run[|run| - 1];
      RunKeepsTimed(s, start, before);
      StepKeepsTimed(s, before, After(s, start, before), e);
      assert run == before + [e];
    }
  }

  /** Over any run, with any number of hits and promotions: the fresh time of a copy is its Date plus its stored
      lifetime, or, for a copy its own exchange stored, the request's time plus the lifetime; never anything that
      depends on the promotions in between. */
  lemma PromotionNeverDrifts(s: Setting, start: Time, run: seq<Event>, i: nat, base: string, k: string)
    requires ValidRun(s, start, run) && OwnedRun(s, run) && i < |s.stales|
    ensures var cells := After(s, start, run).tiers[i];
            Indexed(cells, base, k) && k in cells ==>
              cells[k].value.Body? &&
              var r, t := cells[k].value.response, cells[IndexKey(base)].value.mapping[k].freshTime;
              PromotedTime(s, r, t) || DirectTime(s, run, r, t)
  {
    RunKeepsTimed(s, start, run);
    assert Timed(s, run, After(s, start, run).tiers[i], base, k);
  }

  /** The two fresh times are one if and only if the copy's Date is the request's time, as it is when the upstream
      response had no Date of its own; otherwise the first promotion moves the fresh time, once and for all. */
  lemma SameBasisExactly(s: Setting, e: Event, r: Response)
    requires AdmittedAt(s, e, r) && Promotable(r)
    ensures DirectBasis(s, e.ex) == r.date.t + r.storedTTL.value <==> r.date.t == Printed(e.ex.requestNow)
    ensures e.ex.response.date.NoDate? ==> r.date.t == Printed(e.ex.requestNow)
    ensures DirectBasis(s, e.ex) - (r.date.t + r.storedTTL.value) == Printed(e.ex.requestNow) - r.date.t
  {
    hide CopiedHeaders, CanonicalHeaderKey;
  }

  /** A response whose Date lies ten seconds before the request: its first copy is fresh ten seconds longer than any
      promoted one. */
  lemma PromotionShortensFreshness()
    ensures var ex := SampleExchange(map[], SampleCc(false, {}, 60), At(90 * SECOND), NoExpires);
            var s, r := Setting(STRICT, [], false, 0, map[]), StoredCopy(STRICT, ex, SampleCc(false, {}, 60));
            AdmittedAt(s, StoreCall(ex, 0), r) && Promotable(r) &&
            DirectBasis(s, ex) == 160 * SECOND && r.date.t + r.storedTTL.value == 150 * SECOND
  {
    assert CommaSepFields([]) == [];
    assert Values(map[], "Vary") == [];
  }
}
