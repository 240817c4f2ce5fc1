/** The two-level store refines the history of what was stored and deleted: a lookup finds exactly the variants
    that the history says are current, with the last response stored under each. */
module StoreHistory {
  import opened Wrappers
  import opened HttpHeader
  import opened Messages
  import opened Validator
  import opened Storage
  import E = Eviction

  datatype Event =
    | Stored(base: string, variant: string, response: Response, varied: Header, etag: string, duration: Time)
    | Deleted(keys: set<string>)                      // Delete and DeleteMany
    | Placed(key: string, text: string, ttl: TTL)     // Set: tags and locks
    | Read(forgotten: set<string>)                    // Get, GetMultiLevel: expired entries may go
    | Evicted(hidesIndex: bool, after: Cells)         // EvictMapping
    | Elapsed(time: nat)

  datatype State = State(cells: Cells, now: Time)

  function Apply(stale: Time, s: State, e: Event): State {
    match e
    case Stored(base, variant, response, varied, etag, duration) =>
      s.(cells := AfterSet(s.cells, s.now, stale, base, variant, response, varied, etag, duration, variant).0)
    case Deleted(keys) => s.(cells := s.cells - keys)
    case Placed(key, text, ttl) => s.(cells := s.cells[key := Cell(Text(text), Expiry(s.now, ttl))])
    case Read(forgotten) => s.(cells := s.cells - forgotten)
    case Evicted(_, after) => s.(cells := after)
    case Elapsed(time) => s.(now := s.now + time)
  }

  /** The base key that owns each variant key, and the lifetime of an index that an eviction rewrites. */
  datatype Rules = Rules(owner: map<string, string>, indexTTL: TTL)

  /** Index keys, variant keys and other keys are told apart, and no response is stored for longer than a rewritten
      index lives. */
  ghost predicate Allowed(rules: Rules, stale: Time, s: State, e: Event) {
    match e
    case Stored(base, variant, _, _, _, duration) =>
      variant in rules.owner && rules.owner[variant] == base && !IsIndexKey(variant) &&
      (rules.indexTTL.For? ==> duration + stale <= rules.indexTTL.duration)
    case Placed(key, _, _) => key !in rules.owner && !IsIndexKey(key)
    case Read(forgotten) => forall k :: k in forgotten && k in s.cells ==> !Live(s.cells, s.now, k)
    case Evicted(hidesIndex, after) =>
      forall key :: E.Under(after, key) == E.Evicted(s.cells, s.now, hidesIndex, rules.indexTTL, key)
    case _ => true
  }

  function After(stale: Time, start: Time, events: seq<Event>): State {
    if events == [] then State(map[], start)
    else Apply(stale, After(stale, start, events[..|events| - 1]), events[|events| - 1])
  }

  ghost predicate ValidHistory(rules: Rules, stale: Time, start: Time, events: seq<Event>) {
    events == [] ||
    (ValidHistory(rules, stale, start, events[..|events| - 1]) &&
     Allowed(rules, stale, After(stale, start, events[..|events| - 1]), events[|events| - 1]))
  }

  // ---- The history on its own

  datatype Record = Record(response: Response, varied: Header, etag: string, storedAt: Time, duration: Time)

  function Clock(start: Time, events: seq<Event>): Time {
    if events == [] then start
    else Clock(start, events[..|events| - 1]) +
         match events[|events| - 1] { case Elapsed(time) => time case _ => 0 }
  }

  /** The last response stored under a variant of a base key, unless it or the whole index was deleted since. */
  function Current(start: Time, events: seq<Event>, base: string, variant: string): Option<Record> {
    if events == [] then None
    else
      var before := events[..|events| - 1];
      match events[|events| - 1]
      case Stored(b, v, response, varied, etag, duration) =>
        if b == base && v == variant then Some(Record(response, varied, etag, Clock(start, before), duration))
        else Current(start, before, base, variant)
      case Deleted(keys) =>
        if variant in keys || IndexKey(base) in keys then None else Current(start, before, base, variant)
      case _ => Current(start, before, base, variant)
  }

  /** A current variant that agrees with the request on its varied headers and matches its entity-tag rule. */
  ghost predicate Wanted(start: Time, events: seq<Event>, base: string, rq: Header, variant: string) {
    var r := Current(start, events, base, variant);
    r.Some? && SendsStoredValues(r.value.varied, rq) && ETagRule(rq, r.value.etag)
  }

  // ---- The store agrees with it

  function Entry(stale: Time, variant: string, r: Record): KeyIndex {
    KeyIndex(r.storedAt, r.storedAt + r.duration, r.storedAt + r.duration + stale, r.varied, r.etag, variant)
  }

  ghost predicate AgreesAt(rules: Rules, stale: Time, s: State, base: string, variant: string,
                           r: Option<Record>) {
    && (Indexed(s.cells, base, variant) ==>
        variant in rules.owner && rules.owner[variant] == base && !IsIndexKey(variant))
    && (r.Some? ==> variant in rules.owner && rules.owner[variant] == base && !IsIndexKey(variant))
    && (Indexed(s.cells, base, variant) && variant in s.cells ==>
          && r.Some?
          && s.cells[IndexKey(base)].value.mapping[variant] == Entry(stale, variant, r.value)
          && s.cells[variant] == Cell(Body(r.value.response), Some(r.value.storedAt + r.value.duration + stale)))
    && (r.Some? && s.now < r.value.storedAt + r.value.duration + stale ==>
          Indexed(s.cells, base, variant) && variant in s.cells)
  }

  /** The index entry does not expire before any of the stale times it lists; nor would it if it was rewritten now. */
  predicate IndexOutlives(rules: Rules, now: Time, cell: Cell) {
    cell.value.Index? &&
    forall k :: k in cell.value.mapping ==>
      (cell.expires.Some? ==> cell.value.mapping[k].staleTime <= cell.expires.value) &&
      (rules.indexTTL.For? ==> cell.value.mapping[k].staleTime <= now + rules.indexTTL.duration)
  }

  ghost predicate IndexesKept(rules: Rules, s: State) {
    forall base :: IndexKey(base) in s.cells ==> IndexOutlives(rules, s.now, s.cells[IndexKey(base)])
  }

  ghost predicate Refines(rules: Rules, stale: Time, start: Time, events: seq<Event>) {
    var s := After(stale, start, events);
    && s.now == Clock(start, events)
    && IndexesKept(rules, s)
    && forall base, variant :: AgreesAt(rules, stale, s, base, variant, Current(start, events, base, variant))
  }

  lemma StoredKeepsAgreement(rules: Rules, stale: Time, s: State, e: Event,
                             base: string, variant: string, r: Option<Record>)
    requires e.Stored? && Allowed(rules, stale, s, e) && IndexesKept(rules, s)
    requires AgreesAt(rules, stale, s, base, variant, r)
    ensures AgreesAt(rules, stale, Apply(stale, s, e), base, variant,
                     if e.base == base && e.variant == variant
                     then Some(Record(e.response, e.varied, e.etag, s.now, e.duration)) else r)
    ensures IndexesKept(rules, Apply(stale, s, e))
  {
    IndexKeyInjective(base, e.base);
    IndexKeyInjective(e.base, e.base);
    var stored := s.cells[e.variant := Cell(Body(e.response), Some(s.now + e.duration + stale))];
    var t := Apply(stale, s, e);
    forall b | IndexKey(b) in t.cells
      ensures IndexOutlives(rules, t.now, t.cells[IndexKey(b)])
    {
      IndexKeyInjective(b, e.base);
    }
    if r.Some? && s.now < r.value.storedAt + r.value.duration + stale {
      assert Live(s.cells, s.now, IndexKey(base));
    }
  }

  lemma StepKeepsAgreement(rules: Rules, stale: Time, s: State, e: Event,
                           base: string, variant: string, r: Option<Record>)
    requires !e.Stored? && !e.Evicted? && Allowed(rules, stale, s, e) && IndexesKept(rules, s)
    requires AgreesAt(rules, stale, s, base, variant, r)
    ensures AgreesAt(rules, stale, Apply(stale, s, e), base, variant,
                     if e.Deleted? && (variant in e.keys || IndexKey(base) in e.keys) then None else r)
    ensures IndexesKept(rules, Apply(stale, s, e))
  {
    IndexKeyInjective(base, base);
    if e.Placed? {
      forall b
        ensures IndexKey(b) != e.key
      {
        IndexKeyInjective(b, b);
      }
    }
    if e.Read? && r.Some? && s.now < r.value.storedAt + r.value.duration + stale {
      assert Live(s.cells, s.now, variant) && Live(s.cells, s.now, IndexKey(base));
    }
  }

  /** An eviction drops only entries whose responses are past their stale times. */
  lemma EvictionKeepsAgreement(rules: Rules, stale: Time, s: State, e: Event,
                               base: string, variant: string, r: Option<Record>)
    requires e.Evicted? && Allowed(rules, stale, s, e) && IndexesKept(rules, s) && E.SingleOwner(s.cells)
    requires AgreesAt(rules, stale, s, base, variant, r)
    ensures AgreesAt(rules, stale, Apply(stale, s, e), base, variant, r)
    ensures IndexesKept(rules, Apply(stale, s, e))
  {
    hide E.Doomed;
    var ik := IndexKey(base);
    IndexKeyInjective(base, base);
    assert E.Under(e.after, ik) == E.Evicted(s.cells, s.now, e.hidesIndex, rules.indexTTL, ik);
    assert E.Under(e.after, variant) == E.Evicted(s.cells, s.now, e.hidesIndex, rules.indexTTL, variant);
    if r.Some? && s.now < r.value.storedAt + r.value.duration + stale {
      var m := s.cells[ik].value.mapping;
      assert IsIndexKey(ik) && E.Lists(s.cells, ik, variant) && m[variant] == Entry(stale, variant, r.value);
      assert variant in E.Kept(m, s.now);
      E.OnlyOwnerDooms(s.cells, s.now, e.hidesIndex, ik, variant);
    }
    forall b | IndexKey(b) in e.after
      ensures IndexOutlives(rules, s.now, e.after[IndexKey(b)])
    {
      IndexKeyInjective(b, b);
      assert E.Under(e.after, IndexKey(b)) == E.Evicted(s.cells, s.now, e.hidesIndex, rules.indexTTL, IndexKey(b));
    }
  }

  /** No variant is listed under two base keys, because each has one owner. */
  lemma RefinesHasSingleOwner(rules: Rules, stale: Time, start: Time, events: seq<Event>)
    requires Refines(rules, stale, start, events)
    ensures E.SingleOwner(After(stale, start, events).cells)
  {
    hide After, Current;
    var s := After(stale, start, events);
    forall a, b, k | E.Lists(s.cells, a, k) && E.Lists(s.cells, b, k)
      ensures a == b
    {
      assert a == IndexKey(a[4..]) && b == IndexKey(b[4..]);
      assert AgreesAt(rules, stale, s, a[4..], k, Current(start, events, a[4..], k));
      assert AgreesAt(rules, stale, s, b[4..], k, Current(start, events, b[4..], k));
    }
  }

  lemma {:induction false} StoreRefinesHistory(rules: Rules, stale: Time, start: Time, events: seq<Event>)
    requires ValidHistory(rules, stale, start, events)
    ensures Refines(rules, stale, start, events)
  {
    hide AgreesAt, Allowed;
    if events == [] {
      forall base, variant
        ensures AgreesAt(rules, stale, State(map[], start), base, variant, None)
      {
        NothingAgrees(rules, stale, start, base, variant);
      }
    } else {
      var before, e := events[..|events| - 1], events[|events| - 1];
      StoreRefinesHistory(rules, stale, start, before);
      var s := After(stale, start, before);
      RefinesHasSingleOwner(rules, stale, start, before);
      forall base, variant
        ensures AgreesAt(rules, stale, Apply(stale, s, e), base, variant, Current(start, events, base, variant))
      {
        EventKeepsAgreement(rules, stale, s, e, base, variant, Current(start, before, base, variant));
      }
      EventKeepsAgreement(rules, stale, s, e, "", "", Current(start, before, "", ""));
      assert After(stale, start, events) == Apply(stale, s, e);
      assert Apply(stale, s, e).now == Clock(start, events);
    }
  }

  lemma EventKeepsAgreement(rules: Rules, stale: Time, s: State, e: Event,
                            base: string, variant: string, r: Option<Record>)
    requires Allowed(rules, stale, s, e) && IndexesKept(rules, s) && E.SingleOwner(s.cells)
    requires AgreesAt(rules, stale, s, base, variant, r)
    ensures AgreesAt(rules, stale, Apply(stale, s, e), base, variant, AfterEvent(s, e, base, variant, r))
    ensures IndexesKept(rules, Apply(stale, s, e))
  {
    hide AgreesAt, Allowed, IndexesKept;
    if e.Stored? {
      StoredKeepsAgreement(rules, stale, s, e, base, variant, r);
    } else if e.Evicted? {
      EvictionKeepsAgreement(rules, stale, s, e, base, variant, r);
    } else {
      StepKeepsAgreement(rules, stale, s, e, base, variant, r);
    }
  }

  /** How one event changes what is current under a variant. */
  function AfterEvent(s: State, e: Event, base: string, variant: string, r: Option<Record>): Option<Record> {
    match e
    case Stored(b, v, response, varied, etag, duration) =>
      if b == base && v == variant then Some(Record(response, varied, etag, s.now, duration)) else r
    case Deleted(keys) => if variant in keys || IndexKey(base) in keys then None else r
    case _ => r
  }

  lemma NothingAgrees(rules: Rules, stale: Time, start: Time, base: string, variant: string)
    ensures AgreesAt(rules, stale, State(map[], start), base, variant, None)
  {
  }

  // ---- Lookups

  /** A wanted variant before its fresh time, and one past it but before its stale time. */
  ghost predicate WantedFresh(start: Time, events: seq<Event>, base: string, rq: Header, variant: string) {
    Wanted(start, events, base, rq, variant) &&
    var r := Current(start, events, base, variant).value;
    Clock(start, events) < r.storedAt + r.duration
  }

  ghost predicate WantedStale(start: Time, events: seq<Event>, stale: Time, base: string, rq: Header, variant: string) {
    Wanted(start, events, base, rq, variant) &&
    var r := Current(start, events, base, variant).value;
    r.storedAt + r.duration <= Clock(start, events) < r.storedAt + r.duration + stale
  }

  /** The candidates of an election at a base key are the wanted variants of the history, with their responses. */
  ghost predicate CandidateMatches(start: Time, events: seq<Event>, stale: Time, hidesIndex: bool,
                                   base: string, rq: Header, k: string, s: State) {
    var wantedFresh := WantedFresh(start, events, base, rq, k);
    var wantedStale := WantedStale(start, events, stale, base, rq, k);
    match IndexOf(s.cells, s.now, base)
    case None => !wantedFresh && !wantedStale
    case Some(m) =>
      && (FreshIn(s.cells, s.now, hidesIndex, m, rq, k) <==> wantedFresh)
      && (StaleIn(s.cells, s.now, hidesIndex, m, rq, k) <==> wantedStale)
      && (wantedFresh || wantedStale ==>
            Current(start, events, base, k).Some? &&
            Seen(s.cells, s.now, hidesIndex, k) == Some(Body(Current(start, events, base, k).value.response)))
      && (k in m && Seen(s.cells, s.now, hidesIndex, k).Some? ==> Seen(s.cells, s.now, hidesIndex, k).value.Body?)
  }

  lemma CandidatesAreWanted(rules: Rules, stale: Time, start: Time, events: seq<Event>,
                            hidesIndex: bool, base: string, rq: Header, k: string)
    requires stale >= 0 && ValidHistory(rules, stale, start, events)
    ensures CandidateMatches(start, events, stale, hidesIndex, base, rq, k, After(stale, start, events))
  {
    hide ETagRule, SendsStoredValues, Current, After, Clock;
    StoreRefinesHistory(rules, stale, start, events);
    assert AgreesAt(rules, stale, After(stale, start, events), base, k, Current(start, events, base, k));
  }

  /** After any run of stores, deletes, reads and time passing, and whatever the iteration order of the index:
      a lookup is fresh exactly when some current variant agrees with the request, matches its tag rule and is
      before its fresh time; otherwise it is stale exactly when some such variant is before its stale time;
      and the response is the last one stored under that variant. */
  lemma LookupMatchesHistory(rules: Rules, stale: Time, start: Time, events: seq<Event>, hidesIndex: bool,
                             base: string, rq: Header, freshRes: Option<Response>, staleRes: Option<Response>)
    requires stale >= 0 && ValidHistory(rules, stale, start, events)
    requires var s := After(stale, start, events); Found(s.cells, s.now, hidesIndex, base, rq, freshRes, staleRes)
    ensures freshRes.Some? <==> exists k :: WantedFresh(start, events, base, rq, k)
    ensures freshRes.Some? ==> exists k :: WantedFresh(start, events, base, rq, k) &&
                                           Current(start, events, base, k).value.response == freshRes.value
    ensures freshRes.None? ==> (staleRes.Some? <==> exists k :: WantedStale(start, events, stale, base, rq, k))
    ensures staleRes.Some? ==> exists k :: WantedStale(start, events, stale, base, rq, k) &&
                                           Current(start, events, base, k).value.response == staleRes.value
  {
    hide WantedFresh, WantedStale, FreshIn, StaleIn, Current, After, IndexOf, Seen;
    var s := After(stale, start, events);
    forall k
      ensures CandidateMatches(start, events, stale, hidesIndex, base, rq, k, s)
    {
      CandidatesAreWanted(rules, stale, start, events, hidesIndex, base, rq, k);
    }
    match IndexOf(s.cells, s.now, base) {
      case None =>
        forall k
          ensures !WantedFresh(start, events, base, rq, k) && !WantedStale(start, events, stale, base, rq, k)
        {
          assert CandidateMatches(start, events, stale, hidesIndex, base, rq, k, s);
        }
      case Some(m) =>
        forall k
          ensures FreshIn(s.cells, s.now, hidesIndex, m, rq, k) <==> WantedFresh(start, events, base, rq, k)
          ensures StaleIn(s.cells, s.now, hidesIndex, m, rq, k) <==> WantedStale(start, events, stale, base, rq, k)
          ensures WantedFresh(start, events, base, rq, k) || WantedStale(start, events, stale, base, rq, k) ==>
                    Current(start, events, base, k).Some? &&
                    Seen(s.cells, s.now, hidesIndex, k) == Some(Body(Current(start, events, base, k).value.response))
          ensures k in m && Seen(s.cells, s.now, hidesIndex, k).Some? ==>
                  Seen(s.cells, s.now, hidesIndex, k).value.Body?
        {
          assert CandidateMatches(start, events, stale, hidesIndex, base, rq, k, s);
        }
        assert Decodable(s.cells, s.now, hidesIndex, m);
    }
  }
}
