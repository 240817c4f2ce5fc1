/** The two-level store: a base key's index entry maps variant keys to times, varied headers and entity tags;
    the bodies are stored under the variant keys. Each storer method is one atomic step at the storer's clock. */
module Storage {
  import opened Strings
  import opened Wrappers
  import opened HttpHeader
  import opened Messages
  import opened Validator

  /** `core.MappingKeyPrefix`. */
  const INDEX_PREFIX := "IDX_"

  function IndexKey(baseKey: string): string {
    INDEX_PREFIX + baseKey
  }

  predicate IsIndexKey(key: string) {
    HasPrefix(key, INDEX_PREFIX)
  }

  lemma IndexKeyInjective(a: string, b: string)
    ensures IndexKey(a) == IndexKey(b) ==> a == b
    ensures IsIndexKey(IndexKey(a)) && IndexKey(a)[4..] == a
  {
    assert IndexKey(a)[4..] == a && IndexKey(b)[4..] == b;
  }

  datatype KeyIndex = KeyIndex(
    storedAt: Time, freshTime: Time, staleTime: Time,
    variedHeaders: Header, etag: string, realKey: string)

  type Mapping = map<string, KeyIndex>

  /** What a storer holds under a key: a response, an index entry, or other bytes (tags, locks, garbage). */
  datatype Value = Body(response: Response) | Index(mapping: Mapping) | Text(text: string)

  datatype Cell = Cell(value: Value, expires: Option<Time>)

  type Cells = map<string, Cell>

  /** A time to live; zero and -1 mean "keep" for the storers that use them. */
  datatype TTL = Keep | For(duration: Time)

  function Expiry(now: Time, ttl: TTL): Option<Time> {
    match ttl
    case Keep => None
    case For(d) => Some(now + d)
  }

  datatype Regexp = Regexp(compiles: string -> bool, matches: (string, string) -> bool)

  // ---- Reading

  predicate Live(cells: Cells, now: Time, key: string) {
    key in cells && (cells[key].expires.Some? ==> now < cells[key].expires.value)
  }

  /** What Get returns. A storer that hides its index entries keeps them in a form Get does not return. */
  function Seen(cells: Cells, now: Time, hidesIndex: bool, key: string): Option<Value> {
    if Live(cells, now, key) && !(hidesIndex && cells[key].value.Index?) then Some(cells[key].value) else None
  }

  /** Reads may drop expired entries, and nothing else. */
  ghost predicate Forgot(before: Cells, after: Cells, now: Time) {
    after.Keys <= before.Keys &&
    forall k :: k in before ==> (k in after && after[k] == before[k]) || (k !in after && !Live(before, now, k))
  }

  lemma ForgotTransitive(a: Cells, b: Cells, c: Cells, now: Time)
    requires Forgot(a, b, now) && Forgot(b, c, now)
    ensures Forgot(a, c, now)
  {
    forall k | k in a
      ensures (k in c && c[k] == a[k]) || (k !in c && !Live(a, now, k))
    {
      assert k in b ==> b[k] == a[k];
    }
  }

  lemma ForgotSeen(before: Cells, after: Cells, now: Time, hidesIndex: bool, key: string)
    requires Forgot(before, after, now)
    ensures Seen(after, now, hidesIndex, key) == Seen(before, now, hidesIndex, key)
  {
  }

  // ---- Election

  /** The request sends, for every varied header of the entry, its stored values. */
  ghost predicate SendsStoredValues(varied: Header, rq: Header) {
    forall name :: name in varied ==> Get(rq, name) == Join(varied[name], ", ")
  }

  /** A variant the election may serve. */
  ghost predicate Eligible(cells: Cells, now: Time, hidesIndex: bool, m: Mapping, rq: Header, k: string) {
    k in m && SendsStoredValues(m[k].variedHeaders, rq) && ETagRule(rq, m[k].etag) &&
      Seen(cells, now, hidesIndex, k).Some?
  }

  ghost predicate FreshIn(cells: Cells, now: Time, hidesIndex: bool, m: Mapping, rq: Header, k: string) {
    Eligible(cells, now, hidesIndex, m, rq, k) && now < m[k].freshTime
  }

  ghost predicate StaleIn(cells: Cells, now: Time, hidesIndex: bool, m: Mapping, rq: Header, k: string) {
    Eligible(cells, now, hidesIndex, m, rq, k) && m[k].freshTime <= now < m[k].staleTime
  }

  /** Every variant the index names that can be read holds a response. */
  ghost predicate Decodable(cells: Cells, now: Time, hidesIndex: bool, m: Mapping) {
    forall k :: k in m && Seen(cells, now, hidesIndex, k).Some? ==> Seen(cells, now, hidesIndex, k).value.Body?
  }

  /** What `MappingElection` may answer, whatever the iteration order of the index. */
  ghost predicate Elected(cells: Cells, now: Time, hidesIndex: bool, m: Mapping, rq: Header,
                          freshRes: Option<Response>, staleRes: Option<Response>) {
    && (freshRes.Some? ==> exists k :: FreshIn(cells, now, hidesIndex, m, rq, k) &&
                                    Seen(cells, now, hidesIndex, k) == Some(Body(freshRes.value)))
    && (staleRes.Some? ==> exists k :: StaleIn(cells, now, hidesIndex, m, rq, k) &&
                                    Seen(cells, now, hidesIndex, k) == Some(Body(staleRes.value)))
    && (Decodable(cells, now, hidesIndex, m) && freshRes.None? ==>
          (forall k :: !FreshIn(cells, now, hidesIndex, m, rq, k)) &&
          (staleRes.None? ==> forall k :: !StaleIn(cells, now, hidesIndex, m, rq, k)))
  }

  /** The result of examining one entry: a response that does not read back ends the election. */
  datatype Examined =
    | Skip
    | FreshHit(response: Response)
    | StaleHit(response: Response)
    | FreshUnreadable
    | StaleUnreadable

  ghost predicate ExaminedRight(cells: Cells, now: Time, hidesIndex: bool, m: Mapping, rq: Header, k: string,
                                r: Examined) {
    match r
    case Skip => !FreshIn(cells, now, hidesIndex, m, rq, k) && !StaleIn(cells, now, hidesIndex, m, rq, k)
    case FreshHit(response) =>
      FreshIn(cells, now, hidesIndex, m, rq, k) && SendsStoredValues(m[k].variedHeaders, rq) &&
        Seen(cells, now, hidesIndex, k) == Some(Body(response))
    case StaleHit(response) =>
      StaleIn(cells, now, hidesIndex, m, rq, k) && !FreshIn(cells, now, hidesIndex, m, rq, k) &&
        Seen(cells, now, hidesIndex, k) == Some(Body(response))
    case _ =>
      k in m && Seen(cells, now, hidesIndex, k).Some? && !Seen(cells, now, hidesIndex, k).value.Body?
  }

  lemma ForgotExamined(before: Cells, after: Cells, now: Time, hidesIndex: bool, m: Mapping, rq: Header, k: string)
    requires Forgot(before, after, now)
    ensures forall r :: ExaminedRight(after, now, hidesIndex, m, rq, k, r) <==>
            ExaminedRight(before, now, hidesIndex, m, rq, k, r)
  {
    ForgotSeen(before, after, now, hidesIndex, k);
  }

  /** What reading a matched entry comes to. */
  function ReadResult(value: Option<Value>, now: Time, freshTime: Time, staleTime: Time): Examined {
    match value
    case None => Skip
    case Some(Body(response)) =>
      if now < freshTime then FreshHit(response) else if now < staleTime then StaleHit(response) else Skip
    case Some(_) =>
      if now < freshTime then FreshUnreadable else if now < staleTime then StaleUnreadable else Skip
  }

  lemma ResultIsRight(cells: Cells, now: Time, hidesIndex: bool, m: Mapping, rq: Header, k: string, r: Examined)
    requires k in m
    requires r == if SendsStoredValues(m[k].variedHeaders, rq) && ETagRule(rq, m[k].etag)
                  then ReadResult(Seen(cells, now, hidesIndex, k), now, m[k].freshTime, m[k].staleTime) else Skip
    ensures ExaminedRight(cells, now, hidesIndex, m, rq, k, r)
  {
    hide ETagRule, SendsStoredValues, Seen;
  }

  lemma ExaminedMeans(cells: Cells, now: Time, hidesIndex: bool, m: Mapping, rq: Header, k: string, r: Examined)
    requires ExaminedRight(cells, now, hidesIndex, m, rq, k, r)
    ensures match r
            case Skip => !FreshIn(cells, now, hidesIndex, m, rq, k) && !StaleIn(cells, now, hidesIndex, m, rq, k)
            case FreshHit(response) =>
              FreshIn(cells, now, hidesIndex, m, rq, k) && SendsStoredValues(m[k].variedHeaders, rq) &&
              Seen(cells, now, hidesIndex, k) == Some(Body(response))
            case StaleHit(response) =>
              StaleIn(cells, now, hidesIndex, m, rq, k) && !FreshIn(cells, now, hidesIndex, m, rq, k) &&
              Seen(cells, now, hidesIndex, k) == Some(Body(response))
            case _ => !Decodable(cells, now, hidesIndex, m)
  {
  }

  lemma OutsideIndex(cells: Cells, now: Time, hidesIndex: bool, m: Mapping, rq: Header)
    ensures forall k :: k !in m ==>
              !FreshIn(cells, now, hidesIndex, m, rq, k) && !StaleIn(cells, now, hidesIndex, m, rq, k)
  {
  }

  lemma ForgotNothing(cells: Cells, now: Time)
    ensures Forgot(cells, cells, now)
  {
  }

  /** The response served fresh is that of a fresh variant whose tag was examined last. */
  ghost predicate Served(cells: Cells, now: Time, hidesIndex: bool, m: Mapping, rq: Header, response: Response,
                         etag: string) {
    exists k :: FreshIn(cells, now, hidesIndex, m, rq, k) &&
      Seen(cells, now, hidesIndex, k) == Some(Body(response)) && m[k].etag == etag
  }

  /** The index the lookup of a base key decodes, if there is one. */
  function IndexOf(cells: Cells, now: Time, baseKey: string): Option<Mapping> {
    var key := IndexKey(baseKey);
    if Live(cells, now, key) && cells[key].value.Index? then Some(cells[key].value.mapping) else None
  }

  /** The index of the base key lists the variant. */
  predicate Indexed(cells: Cells, base: string, variant: string) {
    IndexKey(base) in cells && cells[IndexKey(base)].value.Index? && variant in cells[IndexKey(base)].value.mapping
  }

  /** What `GetMultiLevel` may answer. */
  ghost predicate Found(cells: Cells, now: Time, hidesIndex: bool, baseKey: string, rq: Header,
                        freshRes: Option<Response>, staleRes: Option<Response>) {
    match IndexOf(cells, now, baseKey)
    case None => freshRes.None? && staleRes.None?
    case Some(m) => Elected(cells, now, hidesIndex, m, rq, freshRes, staleRes)
  }

  // ---- Writing

  function WithEntry(cells: Cells, now: Time, stale: Time, m: Mapping, baseKey: string, variant: string, varied: Header,
                     etag: string, duration: Time, realKey: string): Cells {
    cells[IndexKey(baseKey) := Cell(Index(m[variant := KeyIndex(now, now + duration, now + duration + stale,
                                                                varied, etag, realKey)]), None)]
  }

  /** The store after `SetMultiLevel`; `None` in the second place means it failed to decode the old index,
      after it had already stored the response. */
  function AfterSet(cells: Cells, now: Time, stale: Time, baseKey: string, variant: string, response: Response,
                    varied: Header, etag: string, duration: Time, realKey: string): (r: (Cells, bool)) {
    var stored := cells[variant := Cell(Body(response), Some(now + duration + stale))];
    var key := IndexKey(baseKey);
    if !Live(stored, now, key) then
      (WithEntry(stored, now, stale, map[], baseKey, variant, varied, etag, duration, realKey), true)
    else if stored[key].value.Index? then
      (WithEntry(stored, now, stale, stored[key].value.mapping, baseKey, variant, varied, etag, duration, realKey),
          true)
    else (stored, false)
  }

  predicate PatternDeletes(re: Regexp, pattern: string, key: string) {
    (re.compiles(pattern) && re.matches(pattern, key)) || HasPrefix(key, pattern)
  }

  function AfterDeleteMany(cells: Cells, re: Regexp, pattern: string): Cells {
    map k | k in cells && !PatternDeletes(re, pattern, k) :: cells[k]
  }

  class Storer {
    const stale: Time
    const hidesIndex: bool
    const indexTTL: TTL       // storageToInfiniteTTLMap at this storer's name
    const regexp: Regexp
    var now: Time             // what the storer's clock shows when a method is called
    var cells: Cells

    constructor (stale: Time, hidesIndex: bool, indexTTL: TTL, regexp: Regexp, now: Time)
      ensures this.stale == stale && this.hidesIndex == hidesIndex && this.indexTTL == indexTTL && this.regexp == regexp
      ensures cells == map[] && this.now == now
    {
      this.stale, this.hidesIndex, this.indexTTL, this.regexp := stale, hidesIndex, indexTTL, regexp;
      this.now, cells := now, map[];
    }

    /** An entry found expired is deleted on the way. */
    method Get(key: string) returns (value: Option<Value>)
      modifies `cells
      ensures value == Seen(old(cells), now, hidesIndex, key)
      ensures value.Some? <==>
                && key in old(cells) && !(hidesIndex && old(cells)[key].value.Index?)
                && (old(cells)[key].expires.Some? ==> now < old(cells)[key].expires.value)
      ensures value.Some? ==> value.value == old(cells)[key].value
      ensures Forgot(old(cells), cells, now) && (key in cells ==> Live(cells, now, key))
      ensures forall k :: k != key && k in old(cells) ==> k in cells
    {
      if key !in cells {
        return None;
      }
      var cell := cells[key];
      if cell.expires.Some? && cell.expires.value <= now {
        cells := cells - {key};
        return None;
      }
      if hidesIndex && cell.value.Index? {
        return None;
      }
      return Some(cell.value);
    }

    method Set(key: string, value: Value, ttl: TTL)
      modifies `cells
      ensures cells == old(cells)[key := Cell(value, Expiry(now, ttl))]
      ensures cells[key].value == value && (ttl.For? <==> cells[key].expires.Some?) &&
              (ttl.For? ==> cells[key].expires.value == now + ttl.duration)
    {
      cells := cells[key := Cell(value, Expiry(now, ttl))];
    }

    method Delete(key: string)
      modifies `cells
      ensures cells == old(cells) - {key}
    {
      cells := cells - {key};
    }

    /** Deletes the keys that match the pattern as a regular expression or start with it. */
    method DeleteMany(pattern: string)
      modifies `cells
      ensures cells == AfterDeleteMany(old(cells), regexp, pattern)
      ensures forall k :: k in cells <==>
                k in old(cells) && !(regexp.compiles(pattern) && regexp.matches(pattern, k)) && !(pattern <= k)
    {
      var todo := cells.Keys;
      while todo != {}
        invariant todo <= old(cells).Keys
        invariant forall k :: k in cells <==>
                    k in old(cells) && (k in todo || !PatternDeletes(regexp, pattern, k))
        invariant forall k :: k in cells ==> cells[k] == old(cells)[k]
        decreases todo
      {
        var current :| current in todo;
        todo := todo - {current};
        if (regexp.compiles(pattern) && regexp.matches(pattern, current)) || HasPrefix(current, pattern) {
          cells := cells - {current};
        }
      }
    }

    /** The keys under a prefix, cut, with what Get returns for them. */
    method MapKeys(prefix: string) returns (keys: map<string, Value>)
      ensures forall k :: k in keys <==> Seen(cells, now, hidesIndex, prefix + k).Some?
      ensures forall k :: k in keys ==> keys[k] == Seen(cells, now, hidesIndex, prefix + k).value
    {
      keys := map[];
      var todo := cells.Keys;
      while todo != {}
        invariant todo <= cells.Keys
        invariant forall k :: k in keys <==> prefix + k !in todo && Seen(cells, now, hidesIndex, prefix + k).Some?
        invariant forall k :: k in keys ==> keys[k] == Seen(cells, now, hidesIndex, prefix + k).value
        decreases todo
      {
        var key :| key in todo;
        todo := todo - {key};
        if HasPrefix(key, prefix) {
          assert key == prefix + key[|prefix|..];
          assert forall k: string :: prefix + k == key ==> k == key[|prefix|..] by {
            forall k: string | prefix + k == key
              ensures k == key[|prefix|..]
            {
              assert (prefix + k)[|prefix|..] == k;
            }
          }
          if Live(cells, now, key) && !(hidesIndex && cells[key].value.Index?) {
            keys := keys[key[|prefix|..] := cells[key].value];
          }
        }
      }
    }

    /** Stores the response under the variant key and its times and headers in the base key's index. */
    method SetMultiLevel(baseKey: string, variant: string, response: Response, varied: Header,
                         etag: string, duration: Time, realKey: string)
      returns (ok: bool)
      modifies `cells
      ensures (cells, ok) == AfterSet(old(cells), now, stale, baseKey, variant, response, varied, etag, duration,
                realKey)
    {
      cells := cells[variant := Cell(Body(response), Some(now + duration + stale))];
      var mappingKey := IndexKey(baseKey);
      var mapping: Mapping := map[];
      if Live(cells, now, mappingKey) {
        if !cells[mappingKey].value.Index? {
          return false;
        }
        mapping := cells[mappingKey].value.mapping;
      }
      mapping := MappingUpdater(variant, mapping, now, now + duration, now + duration + stale, varied, etag, realKey);
      cells := cells[mappingKey := Cell(Index(mapping), None)];
      return true;
    }

    /** `MappingUpdater` copies the varied headers name by name. */
    static method MappingUpdater(key: string, mapping: Mapping, now: Time, freshTime: Time, staleTime: Time,
                                 variedHeaders: Header, etag: string, realKey: string)
      returns (updated: Mapping)
      ensures updated == mapping[key := KeyIndex(now, freshTime, staleTime, variedHeaders, etag, realKey)]
    {
      var copied: Header := map[];
      var todo := variedHeaders.Keys;
      while todo != {}
        invariant todo <= variedHeaders.Keys
        invariant copied == map k | k in variedHeaders && k !in todo :: variedHeaders[k]
        decreases todo
      {
        var k :| k in todo;
        todo := todo - {k};
        copied := copied[k := variedHeaders[k]];
      }
      assert copied == variedHeaders;
      updated := mapping[key := KeyIndex(now, freshTime, staleTime, copied, etag, realKey)];
    }

    /** The loop of `MappingElection` over an entry's varied headers. */
    static method SendsVariedHeaders(varied: Header, rq: Header) returns (valid: bool)
      ensures valid <==> SendsStoredValues(varied, rq)
    {
      var todo := varied.Keys;
      while todo != {}
        invariant todo <= varied.Keys
        invariant forall name :: name in varied && name !in todo ==>
                  HttpHeader.Get(rq, name) == Join(varied[name], ", ")
        decreases todo
      {
        var name :| name in todo;
        todo := todo - {name};
        if HttpHeader.Get(rq, name) != Join(varied[name], ", ") {
          return false;
        }
      }
      return true;
    }

    /** The two reads of the election loop, for an entry that matched. */
    method ReadEntry(k: string, freshTime: Time, staleTime: Time) returns (result: Examined)
      modifies `cells
      ensures Forgot(old(cells), cells, now)
      ensures result == ReadResult(Seen(old(cells), now, hidesIndex, k), now, freshTime, staleTime)
    {
      if now < freshTime {
        var response := this.Get(k);
        if response.Some? {
          return if response.value.Body? then FreshHit(response.value.response) else FreshUnreadable;
        }
      }
      if now < staleTime {
        ghost var was := cells;
        ForgotSeen(old(cells), cells, now, hidesIndex, k);
        var response := this.Get(k);
        ForgotTransitive(old(cells), was, cells, now);
        if response.Some? {
          return if response.value.Body? then StaleHit(response.value.response) else StaleUnreadable;
        }
      }
      return Skip;
    }

    /** One entry of the election loop. */
    method ExamineEntry(m: Mapping, k: string, rq: Header, validator: Revalidator, ghost before: seq<string>)
      returns (result: Examined)
      requires k in m && validator.Value() == ValidatedAll(Parsed(rq), before)
      modifies `cells, validator
      ensures Forgot(old(cells), cells, now)
      ensures validator.Value() == if SendsStoredValues(m[k].variedHeaders,
                rq) then Validated(old(validator.Value()), m[k].etag)
                                   else old(validator.Value())
      ensures ExaminedRight(old(cells), now, hidesIndex, m, rq, k, result)
    {
      hide ValidatedAll, Parsed, ETagRule, SendsStoredValues, Forgot, Validated, Live, Seen, ReadResult, ExaminedRight;
      ForgotNothing(cells, now);
      result := Skip;
      var valid := SendsVariedHeaders(m[k].variedHeaders, rq);
      if valid {
        MatchIsTheRule(rq, before, m[k].etag);
        validator.ValidateETagFromHeader(m[k].etag);
        if validator.matched {
          result := ReadEntry(k, m[k].freshTime, m[k].staleTime);
        }
      }
      ResultIsRight(old(cells), now, hidesIndex, m, rq, k, result);
    }

    /** `MappingElection`: visits the index in any order and returns at the first fresh response. The validator may
        have seen the entries of other storers `before`. */
    method MappingElection(m: Mapping, rq: Header, validator: Revalidator, ghost before: seq<string>)
      returns (freshRes: Option<Response>, staleRes: Option<Response>, ghost visited: seq<string>)
      requires validator.Value() == ValidatedAll(Parsed(rq), before)
      modifies `cells, validator
      ensures Forgot(old(cells), cells, now)
      ensures Elected(old(cells), now, hidesIndex, m, rq, freshRes, staleRes)
      ensures validator.Value() == ValidatedAll(Parsed(rq), visited)
      ensures freshRes.Some? ==>
                visited != [] && Served(old(cells), now, hidesIndex, m, rq, freshRes.value, visited[|visited| - 1])
    {
      hide Parsed, ValidatedAll, ETagRule, FreshIn, StaleIn, SendsStoredValues, Seen, Forgot, Validated, ExaminedRight;
      freshRes, staleRes, visited := None, None, before;
      ForgotNothing(cells, now);
      OutsideIndex(cells, now, hidesIndex, m, rq);
      var todo := m.Keys;
      while todo != {}
        invariant todo <= m.Keys && freshRes.None?
        invariant Forgot(old(cells), cells, now)
        invariant validator.Value() == ValidatedAll(Parsed(rq), visited)
        invariant staleRes.Some? ==> exists k :: StaleIn(old(cells), now, hidesIndex, m, rq, k) &&
                                                 Seen(old(cells), now, hidesIndex, k) == Some(Body(staleRes.value))
        invariant forall k :: k in m && k !in todo ==> !FreshIn(old(cells), now, hidesIndex, m, rq, k)
        invariant staleRes.None? ==> forall k :: k in m && k !in todo ==>
                  !StaleIn(old(cells), now, hidesIndex, m, rq, k)
        decreases todo
      {
        var k :| k in todo;
        todo := todo - {k};
        ghost var was, seen := cells, visited;
        ForgotExamined(old(cells), was, now, hidesIndex, m, rq, k);
        var result := ExamineEntry(m, k, rq, validator, visited);
        ForgotTransitive(old(cells), was, cells, now);
        if SendsStoredValues(m[k].variedHeaders, rq) {
          visited := visited + [m[k].etag];
          ValidatedOneMore(Parsed(rq), seen, m[k].etag);
        }
        ExaminedMeans(old(cells), now, hidesIndex, m, rq, k, result);
        match result {
          case Skip =>
          case FreshHit(response) =>
            freshRes := Some(response);
            return;
          case FreshUnreadable =>
            return;
          case StaleHit(response) =>
            staleRes := Some(response);
          case StaleUnreadable =>
            staleRes := None;
            return;
        }
      }
    }

    method GetMultiLevel(baseKey: string, rq: Header, validator: Revalidator, ghost before: seq<string>)
      returns (freshRes: Option<Response>, staleRes: Option<Response>, ghost visited: seq<string>)
      requires validator.Value() == ValidatedAll(Parsed(rq), before)
      modifies `cells, validator
      ensures Forgot(old(cells), cells, now)
      ensures Found(old(cells), now, hidesIndex, baseKey, rq, freshRes, staleRes)
      ensures validator.Value() == ValidatedAll(Parsed(rq), visited)
      ensures freshRes.Some? ==>
                IndexOf(old(cells), now, baseKey).Some? && visited != [] &&
                Served(old(cells), now, hidesIndex, IndexOf(old(cells), now, baseKey).value, rq, freshRes.value,
                       visited[|visited| - 1])
    {
      hide Parsed, ValidatedAll, Elected, SendsStoredValues, ETagRule, Served;
      freshRes, staleRes, visited := None, None, before;
      var key := IndexKey(baseKey);
      if Live(cells, now, key) && cells[key].value.Index? {
        freshRes, staleRes, visited := MappingElection(cells[key].value.mapping, rq, validator, before);
      }
    }
  }
}
