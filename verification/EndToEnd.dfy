/** Results that need several parts at once. */
module EndToEnd {
  import opened Wrappers
  import opened HttpHeader
  import opened HttpRules
  import opened Messages
  import opened Validator
  import opened Storage
  import opened VaryKey
  import P = Pipeline
  import R = Provenance
  import S = ServeHttp
  import H = StoreHistory
  import E = Eviction

  // ---- From Store to lookup

  /** A storer that holds a copy serves it as fresh to exactly the requests that agree on its Vary fields and match its
      tag, until its fresh time; and whatever else it holds, a lookup by such a request then finds a fresh response as
      long as the index reads back. */
  lemma HeldVariantIsFound(cells: Cells, now: Time, stale: Time, key: string, variant: string, stored: Header,
                           copy: Response, freshTime: Time, hidesIndex: bool, t: Time, rq: Header)
    requires P.HoldsVariant(cells, now, stale, key, variant, stored, copy, freshTime) && stale >= 0
    requires now <= t < freshTime
    ensures IndexOf(cells, t, key).Some?
    ensures var m := IndexOf(cells, t, key).value;
            && (FreshIn(cells, t, hidesIndex, m, rq, variant) <==>
                  P.AgreesOnFields(rq, stored, copy) && ETagRule(rq, Get(copy.headers, "Etag")))
            && Seen(cells, t, hidesIndex, variant) == Some(Body(copy))
    ensures P.AgreesOnFields(rq, stored, copy) && ETagRule(rq, Get(copy.headers, "Etag")) ==>
              (forall freshRes, staleRes ::
                 Found(cells, t, hidesIndex, key, rq, freshRes, staleRes) &&
                 Decodable(cells, t, hidesIndex, IndexOf(cells, t, key).value)
                 ==> freshRes.Some?)
  {
    hide Get, ETagRule, SendsStoredValues, P.AgreesOnFields;
    assert P.AgreesOnFields(rq, stored, copy) <==>
           SendsStoredValues(IndexOf(cells, now, key).value[variant].variedHeaders, rq);
    assert IndexOf(cells, t, key) == IndexOf(cells, now, key);
  }

  /** What Store does to a storer is an event of the history: the copy stored under the variant, with varied headers
      that select the requests that agree with it. */
  lemma StoreIsEvent(c: P.Config, ex: P.Exchange, s: H.State, stale: Time)
    requires P.Gate(c, ex) && P.ByteHeader(ex.rq)
    requires var copy := P.StoredCopy(c, ex, ex.response.controlCc.value);
             P.ReadyFor(s.cells, s.now, ex.key, P.Variant(ex.key, ex.rq, copy.headers), copy)
    ensures var copy := P.StoredCopy(c, ex, ex.response.controlCc.value);
            exists varied ::
              && E.SingleValued(varied)
              && (forall rq :: SendsStoredValues(varied, rq) <==> P.AgreesOnFields(rq, ex.rq, copy))
              && H.Apply(stale, s, H.Stored(ex.key, P.Variant(ex.key, ex.rq, copy.headers), copy, varied,
                                            Get(copy.headers, "Etag"), P.Remaining(c, ex, ex.response.controlCc.value)))
                 == s.(cells := P.AfterStore(c, ex, s.cells, s.now, stale))
  {
    hide P.Gate, P.VariedValues, Get, SendsStoredValues, P.AgreesOnFields, P.StoredCopy, P.Variant, P.Remaining,
      E.SingleValued, AfterSet, P.VariedNames;
    P.GateHasControl(c, ex);
    var copy := P.StoredCopy(c, ex, ex.response.controlCc.value);
    var varied := P.VariedValues(ex.rq, P.VariedNames(copy.headers));
    VariedValuesAreSingle(ex.rq, P.VariedNames(copy.headers));
    SelectsAgreeing(s, ex, copy, P.Variant(ex.key, ex.rq, copy.headers));
    assert E.SingleValued(varied);
  }

  lemma SelectsAgreeing(s: H.State, ex: P.Exchange, copy: Response, variant: string)
    requires P.ReadyFor(s.cells, s.now, ex.key, variant, copy)
    ensures forall rq :: SendsStoredValues(P.VariedValues(ex.rq, P.VariedNames(copy.headers)), rq) <==>
                         P.AgreesOnFields(rq, ex.rq, copy)
  {
    hide P.VariedValues, Get, SendsStoredValues, P.AgreesOnFields, CommaSepFields, Names, P.SendsSameValues;
    var names := P.VariedNames(copy.headers);
    assert names == CommaSepFields(Values(copy.headers, "Vary"));
    forall rq
      ensures SendsStoredValues(P.VariedValues(ex.rq, names), rq) <==> P.AgreesOnFields(rq, ex.rq, copy)
    {
      P.VariedValuesSelect(ex.rq, names, rq);
      P.SameOnFields(rq, ex.rq, copy);
    }
  }

  // ---- A fresh response and its entity tag

  /** A fresh response found by an election, with the validator as the election left it, is answered by the entity-tag
      branch if and only if its own entry has a tag; and with a 304 there if and only if the request sent
      If-None-Match, which then lists that tag or the star. */
  lemma FreshTagIsItsOwn(cells: Cells, now: Time, hidesIndex: bool, m: Mapping, rq: Header, visited: seq<string>,
                         response: Response, i: S.Input, next: S.NextResult)
    requires visited != [] && Served(cells, now, hidesIndex, m, rq, response, visited[|visited| - 1])
    requires i.validator == ValidatedAll(Parsed(rq), visited) && i.freshRes == Some(response)
    requires S.UsesFresh(i) && (i.mode.bypassRequest || !i.rqCc.noCache)
    ensures exists k :: FreshIn(cells, now, hidesIndex, m, rq, k) && k in m &&
                        Seen(cells, now, hidesIndex, k) == Some(Body(response)) && AnsweredByTag(rq, m[k].etag, i, next)
  {
    hide Parsed, ETagRule, AnsweredByTag, S.UsesFresh, ValidatedAll, Served, FreshIn, Seen;
    var seen, etag := visited[..|visited| - 1], visited[|visited| - 1];
    assert visited == seen + [etag];
    var k := ServedVariant(cells, now, hidesIndex, m, rq, response, etag);
    TagAnswers(rq, seen, etag, i, next);
  }

  lemma ServedVariant(cells: Cells, now: Time, hidesIndex: bool, m: Mapping, rq: Header, response: Response,
                      etag: string)
    returns (k: string)
    requires Served(cells, now, hidesIndex, m, rq, response, etag)
    ensures FreshIn(cells, now, hidesIndex, m, rq, k) && Seen(cells, now, hidesIndex, k) == Some(Body(response))
    ensures k in m && m[k].etag == etag && ETagRule(rq, etag)
  {
    hide ETagRule, Seen, SendsStoredValues;
    k :| FreshIn(cells, now, hidesIndex, m, rq, k) && Seen(cells, now, hidesIndex, k) == Some(Body(response)) &&
         m[k].etag == etag;
  }

  lemma TagAnswers(rq: Header, seen: seq<string>, etag: string, i: S.Input, next: S.NextResult)
    requires i.validator == ValidatedAll(Parsed(rq), seen + [etag]) && i.freshRes.Some? && ETagRule(rq, etag)
    requires S.UsesFresh(i) && (i.mode.bypassRequest || !i.rqCc.noCache)
    ensures AnsweredByTag(rq, etag, i, next)
  {
    hide Get, Values, S.Decide, Parsed, ETagRule, S.UsesFresh;
    ExaminedLast(rq, seen, etag);
    ValidatorDecides(i, next);
  }

  /** What the validator says after it examined an entry that matched. */
  lemma ExaminedLast(rq: Header, seen: seq<string>, etag: string)
    requires ETagRule(rq, etag)
    ensures var v := ValidatedAll(Parsed(rq), seen + [etag]);
            v.matched && v.responseETag == etag && (v.notModified <==> Get(rq, "If-None-Match") != "") &&
            (v.notModified ==> Listed(etag, Values(rq, "If-None-Match")))
  {
    hide Get, Values, Parsed;
    ValidatedOneMore(Parsed(rq), seen, etag);
    MatchIsTheRule(rq, seen, etag);
    ValidatedAllKeepsRequest(rq, seen + [etag]);
  }

  lemma ValidatorDecides(i: S.Input, next: S.NextResult)
    requires i.freshRes.Some? && S.UsesFresh(i) && (i.mode.bypassRequest || !i.rqCc.noCache) && i.validator.matched
    ensures var o := S.Decide(i, next);
            && (o.action.FreshETag? <==> i.validator.responseETag != "")
            && (o.action.FreshETag? ==>
                  if i.validator.notModified then o.status == 304 && o.body == ""
                  else o.status == i.freshRes.value.code && o.body == i.freshRes.value.body)
  {
    hide S.RevalidateResult, S.Aged, S.FreshAgeValid, S.ControlValid, S.DecideMaxStale, S.DecideStale;
  }

  ghost predicate AnsweredByTag(rq: Header, etag: string, i: S.Input, next: S.NextResult) {
    var o := S.Decide(i, next);
    && (o.action.FreshETag? <==> etag != "")
    && (o.action.FreshETag? && Get(rq, "If-None-Match") == "" ==>
          o.status == i.freshRes.value.code && o.body == i.freshRes.value.body)
    && (o.action.FreshETag? && Get(rq, "If-None-Match") != "" ==>
          o.status == 304 && o.body == "" && Listed(etag, Values(rq, "If-None-Match")))
  }

  // ---- 304 over whole runs

  /** With 304 not an allowed additional status: in every reachable state, an unconditional request served from any
      storer gets a 304 only by relaying one that upstream itself sent to a revalidation of a fresh response. */
  lemma NoUnaskedNotModifiedEver(s: R.Setting, start: Time, run: seq<R.Event>, tier: nat, key: string, rq: Header,
                                 visited: seq<string>, i: S.Input, next: S.NextResult)
    requires R.ValidRun(s, start, run) && tier < |s.stales| && 304 !in s.config.allowedCodes
    requires var st := R.After(s, start, run);
             Found(st.tiers[tier], st.now, s.hidesIndex, key, rq, i.freshRes, i.staleRes)
    requires i.validator == ValidatedAll(Parsed(rq), visited) && !S.Conditional(rq)
    ensures var o := S.Decide(i, next);
            !o.action.Forwarded? && !o.action.Panics? && o.status == 304 ==>
              o.action.FreshRevalidated? && UpstreamStatus(next) == 304
  {
    hide S.Decide, S.RevalidateResult, ValidatedAll, Parsed, S.Conditional, Found, R.AllAdmitted, R.After;
    R.EveryResponsePassedTheGate(s, start, run);
    var st := R.After(s, start, run);
    if i.freshRes.Some? {
      FoundCode(s, run, st, tier, key, rq, i.freshRes, i.staleRes, i.freshRes.value);
    }
    if i.staleRes.Some? {
      FoundCode(s, run, st, tier, key, rq, i.freshRes, i.staleRes, i.staleRes.value);
    }
    S.NoUnaskedNotModified(rq, visited, i, next);
    RelayedCode(i, next);
  }

  lemma RelayedCode(i: S.Input, next: S.NextResult)
    ensures S.RevalidateResult(i, next).status == UpstreamStatus(next)
  {
  }

  function UpstreamStatus(next: S.NextResult): int {
    match next
    case NextFails(code, _) => code
    case Answers(a, _) => a.code
  }

  lemma FoundCode(s: R.Setting, run: seq<R.Event>, st: R.State, tier: nat, key: string, rq: Header,
                  freshRes: Option<Response>, staleRes: Option<Response>, r: Response)
    requires R.AllAdmitted(s, run, st) && tier < |st.tiers|
    requires Found(st.tiers[tier], st.now, s.hidesIndex, key, rq, freshRes, staleRes)
    requires freshRes == Some(r) || staleRes == Some(r)
    ensures StatusAllowed(r.code, s.config.allowedCodes)
  {
    hide FreshIn, StaleIn, P.Gate, P.CopiedHeaders;
    var cells := st.tiers[tier];
    var m := IndexOf(cells, st.now, key).value;
    var k :| Seen(cells, st.now, s.hidesIndex, k) == Some(Body(r));
    SeenIsStored(cells, st.now, s.hidesIndex, k);
    var j :| 0 <= j < |run| && R.AdmittedAt(s, run[j], r);
    GateAllowsStatus(s.config, run[j].ex);
  }

  lemma SeenIsStored(cells: Cells, now: Time, hidesIndex: bool, k: string)
    ensures Seen(cells, now, hidesIndex, k).Some? ==>
            k in cells && cells[k].value == Seen(cells, now, hidesIndex, k).value
  {
  }

  lemma GateAllowsStatus(c: P.Config, ex: P.Exchange)
    requires P.Gate(c, ex)
    ensures StatusAllowed(ex.response.code, c.allowedCodes)
  {
  }

  // ---- Every history leaves a store that eviction and lookups agree on

  lemma {:induction false} HistoryIsEvictable(rules: H.Rules, stale: Time, start: Time,
                                              events: seq<H.Event>)
    requires H.ValidHistory(rules, stale, start, events)
    ensures E.WellIndexed(H.After(stale, start, events).cells) && E.SingleOwner(H.After(stale, start, events).cells)
  {
    H.StoreRefinesHistory(rules, stale, start, events);
    H.RefinesHasSingleOwner(rules, stale, start, events);
    if events != [] {
      var before, e := events[..|events| - 1], events[|events| - 1];
      HistoryIsEvictable(rules, stale, start, before);
      EventKeepsWellIndexed(rules, stale, H.After(stale, start, before), e);
    }
  }

  lemma EventKeepsWellIndexed(rules: H.Rules, stale: Time, s: H.State, e: H.Event)
    requires H.Allowed(rules, stale, s, e) && E.WellIndexed(s.cells)
    ensures E.WellIndexed(H.Apply(stale, s, e).cells)
  {
    if e.Stored? {
      E.SetKeepsWellIndexed(s.cells, s.now, stale, e.base, e.variant, e.response, e.varied, e.etag, e.duration);
    } else if e.Evicted? {
      E.EvictionLeavesLiveEntries(s.cells, e.after, s.now, e.hidesIndex, rules.indexTTL, INDEX_PREFIX);
    } else {
      var t := H.Apply(stale, s, e);
      forall ik, k | E.Lists(t.cells, ik, k)
        ensures !IsIndexKey(k) && t.cells[ik].value.mapping[k].realKey == k
      {
        assert E.Lists(s.cells, ik, k);
      }
    }
  }

  /** Every history whose stores give varied headers as `Store` does leaves indexes as `SetMultiLevel` writes them. */
  lemma HistoryIsAsStored(rules: H.Rules, stale: Time, start: Time, events: seq<H.Event>, base: string)
    requires stale >= 0 && H.ValidHistory(rules, stale, start, events) && StoresSingleValued(events)
    ensures E.AsStored(H.After(stale, start, events).cells, base)
  {
    hide H.Current, H.After, E.SingleValued;
    H.StoreRefinesHistory(rules, stale, start, events);
    var s := H.After(stale, start, events);
    forall k | Indexed(s.cells, base, k) && k in s.cells
      ensures var e := s.cells[IndexKey(base)].value.mapping[k];
              e.freshTime <= e.staleTime && E.SingleValued(e.variedHeaders) &&
              s.cells[k].value.Body? && s.cells[k].expires == Some(e.staleTime)
    {
      assert H.AgreesAt(rules, stale, s, base, k, H.Current(start, events, base, k));
      CurrentIsSingleValued(start, events, base, k);
    }
  }

  /** Every varied header of the history comes from `Store`, or from a backfill: the request's values of some names. */
  ghost predicate StoredByStore(events: seq<H.Event>) {
    forall j :: 0 <= j < |events| && events[j].Stored? ==>
      exists rq, names :: events[j].varied == P.VariedValues(rq, names)
  }

  /** Such a history leaves the store as `InvisibleToStoredIndexExactly` expects it. */
  lemma StoreLeavesAsStored(rules: H.Rules, stale: Time, start: Time, events: seq<H.Event>, base: string)
    requires stale >= 0 && H.ValidHistory(rules, stale, start, events) && StoredByStore(events)
    ensures E.AsStored(H.After(stale, start, events).cells, base)
    ensures E.WellIndexed(H.After(stale, start, events).cells) && E.SingleOwner(H.After(stale, start, events).cells)
  {
    hide E.SingleValued, P.VariedValues, E.AsStored, H.After, E.WellIndexed, E.SingleOwner;
    forall j | 0 <= j < |events| && events[j].Stored?
      ensures E.SingleValued(events[j].varied)
    {
      var rq, names :| events[j].varied == P.VariedValues(rq, names);
      VariedValuesAreSingle(rq, names);
    }
    HistoryIsAsStored(rules, stale, start, events, base);
    HistoryIsEvictable(rules, stale, start, events);
  }

  /** So an eviction after any such history, with any lifetime for rewritten indexes, is invisible to a base key for
      good if and only if it does not rewrite the index, keeps it for ever, or every kept response ends before it. */
  lemma EvictionAfterHistoryExactly(rules: H.Rules, stale: Time, start: Time, events: seq<H.Event>, base: string,
                                    hidesIndex: bool, ttl: TTL, after: Cells)
    requires stale >= 0 && H.ValidHistory(rules, stale, start, events) && StoredByStore(events)
    requires var s := H.After(stale, start, events);
             forall key :: E.Under(after, key) == E.Evicted(s.cells, s.now, hidesIndex, ttl, key)
    ensures var s := H.After(stale, start, events);
            (forall t, rq, k :: s.now <= t ==> E.SameCandidate(s.cells, after, t, hidesIndex, base, rq, k)) <==>
            (E.Rewritten(s.cells, s.now, hidesIndex, base) ==>
               ttl.Keep? || E.KeptEndInTime(s.cells, s.now, ttl.duration, base))
  {
    hide E.SameCandidate, E.Evicted, E.AsStored, H.After, E.WellIndexed, E.SingleOwner, E.KeptEndInTime;
    StoreLeavesAsStored(rules, stale, start, events, base);
    var s := H.After(stale, start, events);
    E.InvisibleToStoredIndexExactly(s.cells, after, s.now, hidesIndex, ttl, base);
  }

  ghost predicate StoresSingleValued(events: seq<H.Event>) {
    forall j :: 0 <= j < |events| && events[j].Stored? ==> E.SingleValued(events[j].varied)
  }

  lemma {:induction false} CurrentIsSingleValued(start: Time, events: seq<H.Event>, base: string, k: string)
    requires StoresSingleValued(events)
    ensures H.Current(start, events, base, k).Some? ==> E.SingleValued(H.Current(start, events, base, k).value.varied)
  {
    hide E.SingleValued;
    if events != [] {
      CurrentIsSingleValued(start, events[..|events| - 1], base, k);
    }
  }

  /** What `Store` keeps as varied headers has one value under each canonical name. */
  lemma {:induction false} VariedValuesAreSingle(stored: Header, names: seq<string>)
    ensures E.SingleValued(P.VariedValues(stored, names))
  {
    hide Get, CanonicalHeaderKey, P.NameOf;
    if names != [] {
      VariedValuesAreSingle(stored, names[..|names| - 1]);
      CanonicalTwice(P.NameOf(names[|names| - 1]));
    }
  }

  // ---- The storer's methods are events of the history

  /** A read that forgets expired entries is an event the history allows; so are the deletions of `DeleteMany`, and
      so is what `EvictMapping` leaves. */
  lemma MethodsAreEvents(rules: H.Rules, stale: Time, s: H.State, after: Cells, re: Regexp, pattern: string,
                         hidesIndex: bool, evicted: Cells)
    requires Forgot(s.cells, after, s.now)
    requires forall key :: E.Under(evicted, key) == E.Evicted(s.cells, s.now, hidesIndex, rules.indexTTL, key)
    ensures var e := H.Read(s.cells.Keys - after.Keys);
            H.Allowed(rules, stale, s, e) && H.Apply(stale, s, e) == s.(cells := after)
    ensures var e := H.Deleted(set k | k in s.cells && PatternDeletes(re, pattern, k));
            H.Allowed(rules, stale, s, e) && H.Apply(stale, s, e).cells == AfterDeleteMany(s.cells, re, pattern)
    ensures H.Allowed(rules, stale, s, H.Evicted(hidesIndex, evicted)) &&
            H.Apply(stale, s, H.Evicted(hidesIndex, evicted)).cells == evicted
  {
    var forgotten := s.cells.Keys - after.Keys;
    assert s.cells - forgotten == after;
  }
}
