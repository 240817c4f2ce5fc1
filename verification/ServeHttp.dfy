/** The decision tree of `ServeHTTP`: fresh, stale, revalidated or forwarded; and when it answers 304. */
module ServeHttp {
  import opened Wrappers
  import opened HttpHeader
  import opened HttpRules
  import opened Messages
  import opened Validator
  import opened Writer

  const NOT_MODIFIED := 304
  const PRECONDITION_FAILED := 412
  const GATEWAY_TIMEOUT := 504

  /** What the handler behind the cache does when a stored response is revalidated. */
  datatype NextResult =
    | NextFails(code: int, partial: string)
    | Answers(response: Response, lastModified: Option<Time>)

  /** One request at the point where the storers have been asked: `validator` has examined the elected entries,
      `ifModifiedSince` is the parsed header (zero when malformed). */
  datatype Input = Input(
    mode: Mode, rqCc: RequestCc, validator: View, ifModifiedSince: Time,
    freshRes: Option<Response>, staleRes: Option<Response>, clock: Time, allowedCodes: set<int>)

  // ---- Ages

  /** Go's conversion of a duration to whole seconds truncates toward zero. */
  function WholeSeconds(d: Time): int {
    if d >= 0 then d / SECOND else -((-d) / SECOND)
  }

  /** `manageAge`: the age after time spent in the store, unless Date does not parse. A missing Date is set to the
      current time, which HTTP prints in whole seconds. */
  function Aged(r: Response, clock: Time): Response {
    match r.date
    case BadDate => r
    case NoDate => r.(age := r.age + if clock % SECOND == 0 then 0 else 1)
    case At(t) => r.(age := r.age + if clock <= t then 0 else (clock - t + SECOND - 1) / SECOND)
  }

  /** `ValidateCacheControl`. */
  predicate ControlValid(r: Response, rqCc: RequestCc, clock: Time) {
    r.cacheControl.Some? &&
    (rqCc.minFresh >= 0 ==> r.date.At? && WholeSeconds(clock - r.date.t) > rqCc.minFresh)
  }

  /** `validateMaxAgeCachedResponse`. */
  predicate WithinAge(r: Response, maxAge: int, addTime: int) {
    maxAge >= 0 ==> r.age <= maxAge + addTime
  }

  /** `ValidateMaxAgeCachedResponse`; `None` stands for the nil dereference on an unparsable Cache-Control. */
  function FreshAgeValid(r: Response, rqCc: RequestCc): Option<bool> {
    match r.cacheControl
    case None => None
    case Some(cc) =>
      Some(WithinAge(r, if cc.sMaxAge > -1 then cc.sMaxAge else if cc.maxAge > -1 then cc.maxAge else rqCc.maxAge, 0))
  }

  /** `ValidateMaxAgeCachedStaleResponse`. */
  predicate StaleAgeValid(r: Response, cc: Option<ResponseCc>, rqCc: RequestCc, addTime: int) {
    || rqCc.maxStaleSet
    || (cc.Some? && cc.value.staleIfError > -1 && WithinAge(r, cc.value.staleIfError, addTime))
    || (cc.Some? && rqCc.staleIfError > 0 && WithinAge(r, rqCc.staleIfError, addTime))
    || (rqCc.maxStale >= 0 && WithinAge(r, rqCc.maxStale, addTime))
  }

  function StoredSeconds(r: Response): (s: int)
    ensures r.storedTTL.None? ==> s == 0
    ensures r.storedTTL.Some? && r.storedTTL.value >= 0 ==>
              s * 1_000_000_000 <= r.storedTTL.value < (s + 1) * 1_000_000_000
  {
    if r.storedTTL.Some? then WholeSeconds(r.storedTTL.value) else 0
  }

  // ---- Revalidation

  /** `direct` is a status written past the delayed writer; `status` and `buffer` are left in the writer. */
  datatype Revalidated = Revalidated(failed: bool, direct: Option<int>, status: int, buffer: string)

  function RevalidateResult(i: Input, next: NextResult): Revalidated {
    match next
    case NextFails(code, partial) => Revalidated(true, None, code, partial)
    case Answers(a, lastModified) =>
      if i.validator.ifUnmodifiedSincePresent && a.code != NOT_MODIFIED then
        Revalidated(true, Some(PRECONDITION_FAILED), a.code, "")
      else if i.validator.ifModifiedSincePresent && lastModified.Some? && i.ifModifiedSince > lastModified.value then
        Revalidated(true, Some(NOT_MODIFIED), a.code, "")
      else
        Revalidated(a.code != NOT_MODIFIED && IsUpstreamFailure(a.code, i.allowedCodes), None, a.code, a.body)
  }

  /** `Revalidate` on a request of its own. */
  method Revalidate(i: Input, next: NextResult, w: CustomWriter) returns (failed: bool)
    requires w.buf == "" && !w.headersSent && w.statuses == []
    modifies w
    ensures var r := RevalidateResult(i, next);
            failed == r.failed && w.statusCode == r.status && w.buf == r.buffer &&
            w.statuses == (if r.direct.Some? then [r.direct.value] else []) &&
            !w.headersSent && w.body == old(w.body)
  {
    match next {
      case NextFails(code, partial) =>
        w.WriteHeader(code);
        w.Write(partial);
        return true;
      case Answers(a, lastModified) =>
        w.WriteHeader(a.code);
        w.Write(a.body);
        if i.validator.ifUnmodifiedSincePresent && w.statusCode != NOT_MODIFIED {
          w.ResetBuffer();
          w.WriteRawHeader(PRECONDITION_FAILED);
          return true;
        }
        if i.validator.ifModifiedSincePresent {
          if lastModified.Some? && i.ifModifiedSince - lastModified.value > 0 {
            w.ResetBuffer();
            w.WriteRawHeader(NOT_MODIFIED);
            return true;
          }
        }
        failed := false;
        if w.statusCode != NOT_MODIFIED {
          failed := IsUpstreamFailure(w.statusCode, i.allowedCodes);
        }
    }
  }

  // ---- The decision

  /** What was done with the request. `Forwarded` goes on to `Upstream` with this text and status
      in the writer. */
  datatype Action =
    | FreshETag(response: Response)             // the entity-tag branch of a fresh response
    | FreshServed(response: Response)
    | FreshRevalidated                          // relays the upstream answer to a revalidation
    | StaleWhileRevalidating(response: Response)
    | StaleRevalidated                          // relays the upstream answer, or a 304 of its own
    | StaleConfirmed(response: Response)        // upstream confirmed the stored response with a 304
    | StaleOnError(response: Response)          // upstream attempt reported an error
    | StaleServed(response: Response)
    | TimedOut
    | Forwarded(buffer: string, written: int)
    | Panics

  /** `status` is the one the client gets; `tried` tells whether upstream was asked to revalidate. */
  datatype Outcome = Outcome(action: Action, status: int, body: string, tried: bool)

  function FirstStatus(direct: Option<int>, status: int): int {
    if direct.Some? then direct.value else status
  }

  predicate CarriesMaxStale(rqCc: RequestCc) {
    rqCc.maxStaleSet || rqCc.maxStale > -1
  }

  predicate UsesFresh(i: Input) {
    i.freshRes.Some? && (!i.mode.Strict() || ControlValid(i.freshRes.value, i.rqCc, i.clock))
  }

  predicate StaleIfError(cc: ResponseCc, rqCc: RequestCc) {
    cc.staleIfError > -1 || rqCc.staleIfError > 0
  }

  /** On to `Upstream` with the writer as it was made. */
  function Forward(): Outcome {
    Outcome(Forwarded("", 200), 0, "", false)
  }

  function DecideFresh(i: Input, next: NextResult): Outcome
    requires i.freshRes.Some?
  {
    var r, v := i.freshRes.value, i.validator;
    var aged := Aged(r, i.clock);
    var re := RevalidateResult(i, next);
    if v.responseETag != "" && v.matched then
      if v.notModified then Outcome(FreshETag(aged), NOT_MODIFIED, "", false)
      else Outcome(FreshETag(aged), r.code, r.body, false)
    else if !i.mode.bypassRequest && v.needRevalidation then
      Outcome(FreshRevalidated, FirstStatus(re.direct, re.status), re.buffer, true)
    else if !i.mode.bypassResponse && r.cacheControl.None? then Outcome(Panics, 0, "", false)
    else if !i.mode.bypassResponse && r.cacheControl.value.noCachePresent then
      Outcome(FreshRevalidated, FirstStatus(re.direct, re.status), re.buffer, true)
    else if !i.mode.Strict() || FreshAgeValid(aged, i.rqCc) == Some(true) then
      Outcome(FreshServed(aged), r.code, r.body, false)
    else Forward()
  }

  /** A request that accepts stale responses, when the stored one has to be revalidated. */
  function DecideRevalidation(i: Input, next: NextResult): Outcome
    requires i.staleRes.Some? && i.staleRes.value.cacheControl.Some?
  {
    var r, v := i.staleRes.value, i.validator;
    var aged := Aged(r, i.clock);
    var re := RevalidateResult(i, next);
    var clientConditional := v.ifNoneMatchPresent || v.ifModifiedSincePresent;
    if re.failed then
      if StaleIfError(r.cacheControl.value, i.rqCc) then
        Outcome(StaleOnError(aged), FirstStatus(re.direct, r.code), r.body, true)
      else Outcome(TimedOut, FirstStatus(re.direct, GATEWAY_TIMEOUT), "", true)
    else if re.status == NOT_MODIFIED && (!v.matched || !clientConditional) then
      Outcome(StaleConfirmed(aged), r.code, re.buffer + r.body, true)
    else if re.status != NOT_MODIFIED && v.matched && clientConditional then
      Outcome(StaleRevalidated, NOT_MODIFIED, "", true)
    else Outcome(StaleRevalidated, re.status, re.buffer, true)
  }

  /** The request accepts stale responses. */
  function DecideMaxStale(i: Input, next: NextResult): Outcome {
    if i.staleRes.None? || (i.mode.Strict() && !ControlValid(i.staleRes.value, i.rqCc, i.clock)) then Forward()
    else
      var r := i.staleRes.value;
      var aged := Aged(r, i.clock);
      if r.cacheControl.None? then Outcome(Panics, 0, "", false)
      else
        var cc := r.cacheControl.value;
        if cc.staleWhileRevalidate > 0 then Outcome(StaleWhileRevalidating(aged), r.code, r.body, false)
        else if i.mode.bypassResponse || cc.mustRevalidate || cc.noCachePresent || i.validator.needRevalidation then
          DecideRevalidation(i, next)
        else if !i.mode.Strict() || StaleAgeValid(aged, r.cacheControl, i.rqCc, StoredSeconds(r)) then
          Outcome(StaleServed(aged), r.code, r.body, false)
        else Forward()
  }

  /** The request did not ask for stale responses. */
  function DecideStale(i: Input, next: NextResult): Outcome
    requires i.staleRes.Some?
  {
    var r := i.staleRes.value;
    var aged := Aged(r, i.clock);
    var re := RevalidateResult(i, next);
    if !i.mode.Strict() then Outcome(StaleServed(aged), r.code, r.body, false)
    else if StaleAgeValid(r, r.cacheControl, i.rqCc, StoredSeconds(r)) then
      if r.cacheControl.None? then Outcome(Panics, 0, "", false)
      else if StaleIfError(r.cacheControl.value, i.rqCc) then
        if re.failed then Outcome(StaleOnError(aged), FirstStatus(re.direct, r.code), r.body, true)
        else Outcome(Forwarded(re.buffer, re.status), 0, "", true)
      else Forward()
    else Forward()
  }

  function Decide(i: Input, next: NextResult): Outcome {
    if !i.mode.bypassRequest && i.rqCc.noCache then Forward()
    else if UsesFresh(i) then DecideFresh(i, next)
    else if !i.rqCc.onlyIfCached && CarriesMaxStale(i.rqCc) then DecideMaxStale(i, next)
    else if i.staleRes.Some? then DecideStale(i, next)
    else Forward()
  }

  /** What the writer holds when an outcome was sent, or is passed on to `Upstream`. */
  ghost predicate Delivers(w: CustomWriter, o: Outcome)
    reads w
  {
    match o.action
    case Forwarded(buffer, written) =>
      w.statuses == [] && w.body == "" && w.buf == buffer && w.statusCode == written && !w.headersSent
    case Panics => true
    case _ => w.statuses != [] && w.statuses[0] == o.status && w.body == o.body && w.headersSent
  }

  method SendStored(w: CustomWriter, code: int, text: string)
    requires !w.headersSent
    modifies w
    ensures w.statuses == old(w.statuses) + [code] && w.body == old(w.body) + old(w.buf) + text && w.headersSent
  {
    w.WriteHeader(code);
    w.Write(text);
    w.Send();
  }

  /** The body of `ServeHTTP` from the election to the point where it sends, panics or goes on to `Upstream`. */
  method ServeHTTP(i: Input, next: NextResult, w: CustomWriter) returns (action: Action, tried: bool)
    requires w.buf == "" && w.statusCode == 200 && !w.headersSent && w.statuses == [] && w.body == ""
    modifies w
    ensures var o := Decide(i, next);
            action == o.action && tried == o.tried && Delivers(w, o)
  {
    tried := false;
    if i.mode.bypassRequest || !i.rqCc.noCache {
      if i.freshRes.Some? && (!i.mode.Strict() || ControlValid(i.freshRes.value, i.rqCc, i.clock)) {
        action, tried := ServeFresh(i, next, w);
        return;
      } else if !i.rqCc.onlyIfCached && (i.rqCc.maxStaleSet || i.rqCc.maxStale > -1) {
        if i.staleRes.Some? && (!i.mode.Strict() || ControlValid(i.staleRes.value, i.rqCc, i.clock)) {
          action, tried := ServeMaxStale(i, next, w);
          return;
        }
      } else if i.staleRes.Some? {
        action, tried := ServeStale(i, next, w);
        return;
      }
    }
    return Forwarded("", 200), false;
  }

  method ServeFresh(i: Input, next: NextResult, w: CustomWriter) returns (action: Action, tried: bool)
    requires i.freshRes.Some?
    requires w.buf == "" && w.statusCode == 200 && !w.headersSent && w.statuses == [] && w.body == ""
    modifies w
    ensures var o := DecideFresh(i, next);
            action == o.action && tried == o.tried && Delivers(w, o)
  {
    var r, v := i.freshRes.value, i.validator;
    if v.responseETag != "" && v.matched {
      if v.notModified {
        w.WriteHeader(NOT_MODIFIED);
        w.ResetBuffer();
        w.Send();
        return FreshETag(Aged(r, i.clock)), false;
      }
      SendStored(w, r.code, r.body);
      return FreshETag(Aged(r, i.clock)), false;
    }
    if !i.mode.bypassRequest && v.needRevalidation {
      var failed := Revalidate(i, next, w);
      w.Send();
      return FreshRevalidated, true;
    }
    if !i.mode.bypassResponse {
      if r.cacheControl.None? {
        return Panics, false;
      }
      if r.cacheControl.value.noCachePresent {
        var failed := Revalidate(i, next, w);
        w.Send();
        return FreshRevalidated, true;
      }
    }
    if !i.mode.Strict() || FreshAgeValid(Aged(r, i.clock), i.rqCc) == Some(true) {
      SendStored(w, r.code, r.body);
      return FreshServed(Aged(r, i.clock)), false;
    }
    return Forwarded("", 200), false;
  }

  method ServeMaxStale(i: Input, next: NextResult, w: CustomWriter) returns (action: Action, tried: bool)
    requires i.staleRes.Some? && (!i.mode.Strict() || ControlValid(i.staleRes.value, i.rqCc, i.clock))
    requires w.buf == "" && w.statusCode == 200 && !w.headersSent && w.statuses == [] && w.body == ""
    modifies w
    ensures var o := DecideMaxStale(i, next);
            action == o.action && tried == o.tried && Delivers(w, o)
  {
    hide StaleAgeValid, StoredSeconds, DecideRevalidation, RevalidateResult;
    var r := i.staleRes.value;
    var aged := Aged(r, i.clock);
    if r.cacheControl.None? {
      return Panics, false;
    }
    var cc := r.cacheControl.value;
    if cc.staleWhileRevalidate > 0 {
      SendStored(w, r.code, r.body);
      return StaleWhileRevalidating(aged), false;
    }
    if i.mode.bypassResponse || cc.mustRevalidate || cc.noCachePresent || i.validator.needRevalidation {
      action := RevalidateStale(i, next, w);
      return action, true;
    }
    if !i.mode.Strict() || StaleAgeValid(aged, r.cacheControl, i.rqCc, StoredSeconds(r)) {
      SendStored(w, r.code, r.body);
      return StaleServed(aged), false;
    }
    return Forwarded("", 200), false;
  }

  /** The branch of a stale response that has to be revalidated. */
  method RevalidateStale(i: Input, next: NextResult, w: CustomWriter) returns (action: Action)
    requires i.staleRes.Some? && i.staleRes.value.cacheControl.Some?
    requires w.buf == "" && w.statusCode == 200 && !w.headersSent && w.statuses == [] && w.body == ""
    modifies w
    ensures var o := DecideRevalidation(i, next);
            action == o.action && o.tried && Delivers(w, o)
  {
    hide RevalidateResult, Aged;
    var r, v := i.staleRes.value, i.validator;
    var aged, cc := Aged(r, i.clock), r.cacheControl.value;
    var failed := Revalidate(i, next, w);
    var statusCode := w.statusCode;
    if failed {
      if cc.staleIfError > -1 || i.rqCc.staleIfError > 0 {
        w.ResetBuffer();
        SendStored(w, r.code, r.body);
        return StaleOnError(aged);
      }
      w.WriteRawHeader(GATEWAY_TIMEOUT);
      w.ResetBuffer();
      w.Send();
      return TimedOut;
    }
    RevalidatedDirectly(i, next);
    var clientConditional := v.ifNoneMatchPresent || v.ifModifiedSincePresent;
    if statusCode == NOT_MODIFIED {
      if !v.matched || !clientConditional {
        SendStored(w, r.code, r.body);
        return StaleConfirmed(aged);
      }
    }
    if statusCode != NOT_MODIFIED && v.matched && clientConditional {
      w.WriteHeader(NOT_MODIFIED);
      w.ResetBuffer();
      w.Send();
      return StaleRevalidated;
    }
    w.Send();
    return StaleRevalidated;
  }

  /** A status is written past the delayed writer only with an error. */
  lemma RevalidatedDirectly(i: Input, next: NextResult)
    ensures RevalidateResult(i, next).direct.Some? ==> RevalidateResult(i, next).failed
  {
  }

  method ServeStale(i: Input, next: NextResult, w: CustomWriter) returns (action: Action, tried: bool)
    requires i.staleRes.Some?
    requires w.buf == "" && w.statusCode == 200 && !w.headersSent && w.statuses == [] && w.body == ""
    modifies w
    ensures var o := DecideStale(i, next);
            action == o.action && tried == o.tried && Delivers(w, o)
  {
    var r := i.staleRes.value;
    if !i.mode.Strict() {
      SendStored(w, r.code, r.body);
      return StaleServed(Aged(r, i.clock)), false;
    }
    if StaleAgeValid(r, r.cacheControl, i.rqCc, StoredSeconds(r)) {
      if r.cacheControl.None? {
        return Panics, false;
      }
      if r.cacheControl.value.staleIfError > -1 || i.rqCc.staleIfError > 0 {
        var failed := Revalidate(i, next, w);
        if failed {
          w.ResetBuffer();
          SendStored(w, r.code, r.body);
          return StaleOnError(Aged(r, i.clock)), true;
        }
        return Forwarded(w.buf, w.statusCode), true;
      }
    }
    return Forwarded("", 200), false;
  }

  // ---- The decision, on the fields of the request and of the stored responses

  /** The stored age and the seconds since Date, rounded up, are within the limit. */
  predicate AgeWithin(r: Response, clock: Time, limit: int) {
    match r.date
    case BadDate => r.age <= limit
    case NoDate => r.age + (if clock % 1_000_000_000 == 0 then 0 else 1) <= limit
    case At(t) => if t < clock then clock - t <= (limit - r.age) * 1_000_000_000 else r.age <= limit
  }

  lemma AgedWithin(r: Response, clock: Time, limit: int)
    ensures Aged(r, clock).age <= limit <==> AgeWithin(r, clock, limit)
  {
  }

  /** `min-fresh`, as the code reads it: more whole seconds than that have passed since Date. */
  predicate MinFreshHolds(r: Response, rqCc: RequestCc, clock: Time) {
    rqCc.minFresh < 0 || (r.date.At? && clock - r.date.t >= (rqCc.minFresh + 1) * 1_000_000_000)
  }

  predicate IsStrict(i: Input) {
    !i.mode.bypassRequest && !i.mode.bypassResponse
  }

  predicate Usable(i: Input, found: Option<Response>) {
    found.Some? && (IsStrict(i) ==> found.value.cacheControl.Some? && MinFreshHolds(found.value, i.rqCc, i.clock))
  }

  /** No older than s-maxage, or else max-age, or else the request's max-age. */
  predicate YoungEnough(r: Response, cc: ResponseCc, rqCc: RequestCc, clock: Time) {
    && (cc.sMaxAge > -1 ==> AgeWithin(r, clock, cc.sMaxAge))
    && (cc.sMaxAge <= -1 && cc.maxAge > -1 ==> AgeWithin(r, clock, cc.maxAge))
    && (cc.sMaxAge <= -1 && cc.maxAge <= -1 && rqCc.maxAge >= 0 ==> AgeWithin(r, clock, rqCc.maxAge))
  }

  /** max-stale without a limit, or an age within the stored lifetime and one of the given limits. */
  predicate NotTooStale(r: Response, cc: ResponseCc, rqCc: RequestCc, clock: Time) {
    || rqCc.maxStaleSet
    || (cc.staleIfError > -1 && AgeWithin(r, clock, cc.staleIfError + StoredSeconds(r)))
    || (rqCc.staleIfError > 0 && AgeWithin(r, clock, rqCc.staleIfError + StoredSeconds(r)))
    || (rqCc.maxStale >= 0 && AgeWithin(r, clock, rqCc.maxStale + StoredSeconds(r)))
  }

  /** The stale-if-error branch asks for the same, of the age the response was stored with. */
  predicate StoredNotTooStale(r: Response, cc: Option<ResponseCc>, rqCc: RequestCc) {
    || rqCc.maxStaleSet
    || (cc.Some? && cc.value.staleIfError > -1 && r.age <= cc.value.staleIfError + StoredSeconds(r))
    || (cc.Some? && rqCc.staleIfError > 0 && r.age <= rqCc.staleIfError + StoredSeconds(r))
    || (rqCc.maxStale >= 0 && r.age <= rqCc.maxStale + StoredSeconds(r))
  }

  /** A request without no-cache, or one that ignores it, may be answered from the cache. */
  predicate MayUseCache(i: Input) {
    i.mode.bypassRequest || !i.rqCc.noCache
  }

  predicate AcceptsStale(i: Input) {
    !i.rqCc.onlyIfCached && (i.rqCc.maxStaleSet || i.rqCc.maxStale >= 0)
  }

  predicate FreshByTag(i: Input) {
    MayUseCache(i) && Usable(i, i.freshRes) && i.validator.responseETag != "" && i.validator.matched
  }

  predicate FreshMustAsk(i: Input) {
    MayUseCache(i) && Usable(i, i.freshRes) && !(i.validator.responseETag != "" && i.validator.matched) &&
    ((!i.mode.bypassRequest && i.validator.needRevalidation) ||
     (!i.mode.bypassResponse && i.freshRes.value.cacheControl.Some? &&
         i.freshRes.value.cacheControl.value.noCachePresent))
  }

  predicate FreshAsIs(i: Input) {
    && MayUseCache(i) && Usable(i, i.freshRes) && !(i.validator.responseETag != "" && i.validator.matched)
    && (i.mode.bypassRequest || !i.validator.needRevalidation)
    && (i.mode.bypassResponse || (i.freshRes.value.cacheControl.Some? &&
        !i.freshRes.value.cacheControl.value.noCachePresent))
    && (IsStrict(i) ==> YoungEnough(i.freshRes.value, i.freshRes.value.cacheControl.value, i.rqCc, i.clock))
  }

  /** The request accepts stale responses and a usable one is stored. */
  predicate StaleUsable(i: Input) {
    MayUseCache(i) && !Usable(i, i.freshRes) && AcceptsStale(i) && Usable(i, i.staleRes) &&
      i.staleRes.value.cacheControl.Some?
  }

  predicate StaleMustAsk(i: Input) {
    StaleUsable(i) &&
    var cc := i.staleRes.value.cacheControl.value;
    cc.staleWhileRevalidate <= 0 &&
    (i.mode.bypassResponse || cc.mustRevalidate || cc.noCachePresent || i.validator.needRevalidation)
  }

  predicate StaleAsIs(i: Input) {
    StaleUsable(i) &&
    var cc := i.staleRes.value.cacheControl.value;
    && cc.staleWhileRevalidate <= 0 && !i.mode.bypassResponse && !cc.mustRevalidate && !cc.noCachePresent
    && !i.validator.needRevalidation
    && (IsStrict(i) ==> NotTooStale(i.staleRes.value, cc, i.rqCc, i.clock))
  }

  /** The request did not ask for stale responses, and only a stale one is stored. */
  predicate OnlyStale(i: Input) {
    MayUseCache(i) && !Usable(i, i.freshRes) && !AcceptsStale(i) && i.staleRes.Some?
  }

  /** ... and it is kept for the case of an upstream error. */
  predicate StaleForError(i: Input) {
    OnlyStale(i) && IsStrict(i) && i.staleRes.value.cacheControl.Some? && HasStaleIfError(i) &&
    StoredNotTooStale(i.staleRes.value, i.staleRes.value.cacheControl, i.rqCc)
  }

  /** `Revalidate` reports an error: upstream failed, or the client's own condition is refused. */
  predicate AttemptFails(i: Input, next: NextResult) {
    match next
    case NextFails(_, _) => true
    case Answers(a, lastModified) =>
      || (i.validator.ifUnmodifiedSincePresent && a.code != 304)
      || (i.validator.ifModifiedSincePresent && lastModified.Some? && lastModified.value < i.ifModifiedSince)
      || (a.code in {500, 502, 503, 504} && a.code !in i.allowedCodes)
  }

  predicate Confirms(i: Input, next: NextResult) {
    next.Answers? && next.response.code == 304 &&
    !(i.validator.matched && (i.validator.ifNoneMatchPresent || i.validator.ifModifiedSincePresent))
  }

  /** What is done with a request, decided by its fields, those of the stored responses and what upstream says. */
  lemma DecisionTable(i: Input, next: NextResult)
    ensures var a := Decide(i, next).action;
            && (a.FreshETag? <==> FreshByTag(i))
            && (a.FreshRevalidated? <==> FreshMustAsk(i))
            && (a.FreshServed? <==> FreshAsIs(i))
            && (a.StaleWhileRevalidating? <==>
                  StaleUsable(i) && i.staleRes.value.cacheControl.value.staleWhileRevalidate > 0)
            && (a.StaleServed? <==> StaleAsIs(i) || (OnlyStale(i) && !IsStrict(i)))
            && (a.StaleOnError? <==>
                  AttemptFails(i, next) && ((StaleMustAsk(i) && HasStaleIfError(i)) || StaleForError(i)))
            && (a.TimedOut? <==> AttemptFails(i, next) && StaleMustAsk(i) && !HasStaleIfError(i))
            && (a.StaleConfirmed? <==> !AttemptFails(i, next) && StaleMustAsk(i) && Confirms(i, next))
            && (a.StaleRevalidated? <==> !AttemptFails(i, next) && StaleMustAsk(i) && !Confirms(i, next))
            && (Decide(i, next).tried <==> FreshMustAsk(i) || StaleMustAsk(i) || StaleForError(i))
  {
    hide Decide, FreshByTag, FreshMustAsk, FreshAsIs, StaleUsable, StaleMustAsk, StaleAsIs, OnlyStale, StaleForError;
    FreshRows(i, next);
    MaxStaleRows(i, next);
    StaleRows(i, next);
  }

  /** What each branch can come to. */
  lemma Branches(i: Input, next: NextResult)
    ensures var a := Decide(i, next).action;
            if !MayUseCache(i) then a.Forwarded?
            else if UsesFresh(i) then a == DecideFresh(i, next).action && InFreshBranch(a)
            else if AcceptsStale(i) then a == DecideMaxStale(i, next).action && InStaleBranch(a)
            else if i.staleRes.Some? then a == DecideStale(i, next).action && InStaleBranch(a)
            else a.Forwarded?
    ensures Decide(i, next).tried ==> MayUseCache(i)
  {
    hide ControlValid, StaleAgeValid, FreshAgeValid, Aged, RevalidateResult, StoredSeconds;
  }

  predicate InFreshBranch(a: Action) {
    a.FreshETag? || a.FreshRevalidated? || a.FreshServed? || a.Forwarded? || a.Panics?
  }

  predicate InStaleBranch(a: Action) {
    a.StaleWhileRevalidating? || a.StaleServed? || a.StaleOnError? || a.TimedOut? || a.StaleConfirmed? ||
    a.StaleRevalidated? || a.Forwarded? || a.Panics?
  }

  lemma FreshRows(i: Input, next: NextResult)
    ensures var a := Decide(i, next).action;
            && (a.FreshETag? <==> FreshByTag(i))
            && (a.FreshRevalidated? <==> FreshMustAsk(i))
            && (a.FreshServed? <==> FreshAsIs(i))
    ensures UsesFresh(i) ==> (Decide(i, next).tried <==> FreshMustAsk(i))
  {
    Branches(i, next);
    FreshTable(i);
    hide UsesFresh, Aged, YoungEnough, FreshAgeValid, DecideMaxStale, DecideStale, RevalidateResult;
  }

  lemma MaxStaleRows(i: Input, next: NextResult)
    ensures AttemptFails(i, next) <==> RevalidateResult(i, next).failed
    ensures var a := Decide(i, next).action;
            && (a.StaleWhileRevalidating? <==>
                  StaleUsable(i) && i.staleRes.value.cacheControl.value.staleWhileRevalidate > 0)
            && (a.TimedOut? <==> AttemptFails(i, next) && StaleMustAsk(i) && !HasStaleIfError(i))
            && (a.StaleConfirmed? <==> !AttemptFails(i, next) && StaleMustAsk(i) && Confirms(i, next))
            && (a.StaleRevalidated? <==> !AttemptFails(i, next) && StaleMustAsk(i) && !Confirms(i, next))
            && (!UsesFresh(i) && AcceptsStale(i) ==>
                  && (a.StaleServed? <==> StaleAsIs(i))
                  && (a.StaleOnError? <==> AttemptFails(i, next) && StaleMustAsk(i) && HasStaleIfError(i))
                  && (Decide(i, next).tried <==> StaleMustAsk(i)))
  {
    Branches(i, next);
    FreshTable(i);
    if i.staleRes.Some? {
      StaleTable(i);
    }
    AttemptTable(i, next);
    hide UsesFresh, Aged, FreshAgeValid, StaleAgeValid, ControlValid, NotTooStale, DecideFresh, RevalidateResult,
      AttemptFails, MinFreshHolds, StoredSeconds;
  }

  lemma StaleRows(i: Input, next: NextResult)
    ensures var a := Decide(i, next).action;
            && (OnlyStale(i) ==>
                  && (a.StaleServed? <==> !IsStrict(i))
                  && (a.StaleOnError? <==> AttemptFails(i, next) && StaleForError(i))
                  && (Decide(i, next).tried <==> StaleForError(i)))
            && (UsesFresh(i) || (!AcceptsStale(i) && !OnlyStale(i)) ==> !a.StaleServed? && !a.StaleOnError?)
            && (!UsesFresh(i) && !AcceptsStale(i) && !OnlyStale(i) ==> !Decide(i, next).tried)
    ensures UsesFresh(i) ==> !OnlyStale(i) && !StaleAsIs(i) && !StaleMustAsk(i)
    ensures StaleAsIs(i) || StaleMustAsk(i) ==> AcceptsStale(i)
    ensures FreshMustAsk(i) ==> UsesFresh(i)
    ensures StaleForError(i) ==> OnlyStale(i)
  {
    Branches(i, next);
    FreshTable(i);
    if i.staleRes.Some? {
      StaleTable(i);
    }
    AttemptTable(i, next);
    hide UsesFresh, Aged, FreshAgeValid, StaleAgeValid, ControlValid, NotTooStale, StoredNotTooStale, DecideFresh,
      DecideMaxStale, RevalidateResult, AttemptFails, MinFreshHolds, StoredSeconds;
  }

  lemma FreshTable(i: Input)
    ensures UsesFresh(i) <==> Usable(i, i.freshRes)
    ensures i.freshRes.Some? && i.freshRes.value.cacheControl.Some? ==>
              (FreshAgeValid(Aged(i.freshRes.value, i.clock), i.rqCc) == Some(true) <==>
               YoungEnough(i.freshRes.value, i.freshRes.value.cacheControl.value, i.rqCc, i.clock))
  {
    hide Aged, AgeWithin;
    if i.freshRes.Some? && i.freshRes.value.cacheControl.Some? {
      var r, cc := i.freshRes.value, i.freshRes.value.cacheControl.value;
      AgedWithin(r, i.clock, cc.sMaxAge);
      AgedWithin(r, i.clock, cc.maxAge);
      AgedWithin(r, i.clock, i.rqCc.maxAge);
      AgedKeepsControl(r, i.clock);
    }
  }

  lemma AgedKeepsControl(r: Response, clock: Time)
    ensures Aged(r, clock).cacheControl == r.cacheControl && Aged(r, clock).code == r.code &&
            Aged(r, clock).body == r.body
  {
  }

  lemma StaleTable(i: Input)
    requires i.staleRes.Some?
    ensures var r := i.staleRes.value;
            && (ControlValid(r, i.rqCc, i.clock) <==> r.cacheControl.Some? && MinFreshHolds(r, i.rqCc, i.clock))
            && (StaleAgeValid(r, r.cacheControl, i.rqCc, StoredSeconds(r)) <==>
                StoredNotTooStale(r, r.cacheControl, i.rqCc))
            && (r.cacheControl.Some? ==>
                  (StaleAgeValid(Aged(r, i.clock), r.cacheControl, i.rqCc, StoredSeconds(r)) <==>
                   NotTooStale(r, r.cacheControl.value, i.rqCc, i.clock)))
  {
    hide Aged, AgeWithin;
    var r := i.staleRes.value;
    if r.cacheControl.Some? {
      AgedWithin(r, i.clock, r.cacheControl.value.staleIfError + StoredSeconds(r));
      AgedWithin(r, i.clock, i.rqCc.staleIfError + StoredSeconds(r));
      AgedWithin(r, i.clock, i.rqCc.maxStale + StoredSeconds(r));
    }
  }

  lemma AttemptTable(i: Input, next: NextResult)
    ensures RevalidateResult(i, next).failed <==> AttemptFails(i, next)
    ensures !AttemptFails(i, next) ==> RevalidateResult(i, next).direct.None? && next.Answers? &&
                                       RevalidateResult(i, next).status == next.response.code
  {
  }

  /** A stored response is sent without asking upstream. */
  predicate SendsUnasked(a: Action) {
    a.FreshETag? || a.FreshServed? || a.StaleServed? || a.StaleWhileRevalidating?
  }

  /** In strict mode, to a request without max-stale, a stored response is sent without asking upstream if and only if
      the request has no no-cache, min-fresh holds, and the response is fresh and either answered by its own matched
      entity tag or needs no revalidation and is young enough. */
  lemma UnaskedExactly(i: Input, next: NextResult)
    requires IsStrict(i) && !i.rqCc.maxStaleSet && i.rqCc.maxStale < 0
    ensures SendsUnasked(Decide(i, next).action) <==>
            && !i.rqCc.noCache && i.freshRes.Some? && i.freshRes.value.cacheControl.Some?
            && MinFreshHolds(i.freshRes.value, i.rqCc, i.clock)
            && ((i.validator.responseETag != "" && i.validator.matched) ||
                (!i.validator.needRevalidation && !i.freshRes.value.cacheControl.value.noCachePresent &&
                 YoungEnough(i.freshRes.value, i.freshRes.value.cacheControl.value, i.rqCc, i.clock)))
  {
    hide Decide, YoungEnough, MinFreshHolds;
    DecisionTable(i, next);
  }

  /** What the client gets of an upstream answer to a revalidation, or of its failure. */
  lemma RelayedAnswer(i: Input, next: NextResult)
    ensures var o := Decide(i, next);
            && (o.action.FreshRevalidated? ==>
                  if next.NextFails? then o.status == next.code && o.body == next.partial
                  else if i.validator.ifUnmodifiedSincePresent && next.response.code != 304 then o.status == 412 &&
                    o.body == ""
                  else if i.validator.ifModifiedSincePresent && next.lastModified.Some? &&
                    next.lastModified.value < i.ifModifiedSince
                  then o.status == 304 && o.body == ""
                  else o.status == next.response.code && o.body == next.response.body)
            && (o.action.StaleRevalidated? ==>
                  if next.response.code != 304 && i.validator.matched &&
                     (i.validator.ifNoneMatchPresent || i.validator.ifModifiedSincePresent)
                  then o.status == 304 && o.body == ""
                  else o.status == next.response.code && o.body == next.response.body)
            && (o.action.TimedOut? ==> o.body == "" && (next.NextFails? ==> o.status == 504))
  {
    AttemptTable(i, next);
    hide ControlValid, StaleAgeValid, FreshAgeValid, Aged, StoredSeconds, IsUpstreamFailure;
  }

  // ---- Stale serving is justified

  /** A stored response past its fresh time was sent. */
  predicate SendsStale(o: Outcome) {
    o.action.StaleWhileRevalidating? || o.action.StaleConfirmed? || o.action.StaleOnError? || o.action.StaleServed?
  }

  /** The upstream attempt itself failed: an error, or a 50x status. */
  predicate UpstreamFailed(i: Input, next: NextResult) {
    next.NextFails? || IsUpstreamFailure(next.response.code, i.allowedCodes)
  }

  /** stale-if-error on the response or on the request. */
  predicate HasStaleIfError(i: Input) {
    i.rqCc.staleIfError > 0 ||
    (i.staleRes.Some? && i.staleRes.value.cacheControl.Some? && i.staleRes.value.cacheControl.value.staleIfError > -1)
  }

  ghost predicate Justified(i: Input, next: NextResult) {
    CarriesMaxStale(i.rqCc) || (Decide(i, next).tried && UpstreamFailed(i, next) && HasStaleIfError(i))
  }

  /** The client's own condition made `Revalidate` report an error although upstream answered. */
  predicate ConditionRefused(i: Input, next: NextResult) {
    next.Answers? && RevalidateResult(i, next).direct.Some?
  }

  /** In strict mode, on every path: a stale response is sent only to a request that carried max-stale, or after an
      attempt that reported an error with stale-if-error present; and the attempt either failed upstream or was
      refused by the client's own If-Unmodified-Since or If-Modified-Since. */
  lemma StaleNeedsMaxStaleOrError(i: Input, next: NextResult)
    requires i.mode.Strict() && SendsStale(Decide(i, next))
    ensures CarriesMaxStale(i.rqCc) ||
            (Decide(i, next).tried && HasStaleIfError(i) && (UpstreamFailed(i, next) || ConditionRefused(i, next)))
    ensures !Justified(i, next) ==> i.validator.ifUnmodifiedSincePresent || i.validator.ifModifiedSincePresent
  {
    hide ControlValid, StaleAgeValid, FreshAgeValid, Aged, IsUpstreamFailure;
  }

  /** The request reaches the stale-if-error attempt without having asked for stale responses. */
  predicate ReachesStaleIfError(i: Input) {
    && !i.rqCc.noCache && !UsesFresh(i) && !CarriesMaxStale(i.rqCc)
    && i.staleRes.Some? && i.staleRes.value.cacheControl.Some?
    && StaleAgeValid(i.staleRes.value, i.staleRes.value.cacheControl, i.rqCc, StoredSeconds(i.staleRes.value))
    && StaleIfError(i.staleRes.value.cacheControl.value, i.rqCc)
  }

  /** Stale serving is justified whatever upstream does, if and only if the request does not reach that attempt or
      carries neither If-Unmodified-Since nor If-Modified-Since. */
  lemma StaleJustifiedExactly(i: Input)
    requires i.mode.Strict()
    ensures (forall next :: SendsStale(Decide(i, next)) ==> Justified(i, next)) <==>
            !ReachesStaleIfError(i) || (!i.validator.ifUnmodifiedSincePresent && !i.validator.ifModifiedSincePresent)
  {
    hide ControlValid, StaleAgeValid, FreshAgeValid, Aged;
    if ReachesStaleIfError(i) && (i.validator.ifUnmodifiedSincePresent || i.validator.ifModifiedSincePresent) {
      var answer := Response(200, map[], "", NoDate, None, 0, None, None);
      var next := Answers(answer, Some(i.ifModifiedSince - 1));
      assert Decide(i, next).action.StaleOnError? && !Justified(i, next);
    } else {
      forall next | SendsStale(Decide(i, next))
        ensures Justified(i, next)
      {
        StaleNeedsMaxStaleOrError(i, next);
        if !CarriesMaxStale(i.rqCc) {
          OnlyThroughStaleIfError(i, next);
        }
      }
    }
  }

  lemma OnlyThroughStaleIfError(i: Input, next: NextResult)
    requires i.mode.Strict() && SendsStale(Decide(i, next)) && !CarriesMaxStale(i.rqCc)
    ensures ReachesStaleIfError(i)
  {
    hide ControlValid, StaleAgeValid, FreshAgeValid, Aged, IsUpstreamFailure;
  }

  /** A request with If-Unmodified-Since is sent the stale response, after upstream answered 200. */
  lemma StaleDespiteAnswer()
    ensures var i := SampleInput(Parsed(map[]).(ifUnmodifiedSincePresent := true, needRevalidation := true));
            var next := Answers(SampleResponse("new"), None);
            SendsStale(Decide(i, next)) && !Justified(i, next)
  {
  }

  function SampleResponse(body: string): Response {
    var cc := Some(ResponseCc(false, false, false, {}, false, 10, -1, 60, -1));
    Response(200, map[], body, At(0), Some(10 * SECOND), 0, cc, cc)
  }

  /** A request in strict mode, ten seconds after its stored response, with stale-if-error=60, became stale. */
  function SampleInput(validator: View): Input {
    Input(Mode(false, false), RequestCc(false, false, false, false, -1, -1, -1, -1), validator, 0,
          None, Some(SampleResponse("old")), 20 * SECOND, {})
  }

  // ---- No unasked 304

  /** The request asked for a 304: it carries If-None-Match or If-Modified-Since. */
  predicate Conditional(rq: Header) {
    Values(rq, "If-None-Match") != [] || Get(rq, "If-Modified-Since") != ""
  }

  /** Whatever entries the election examined, an unconditional request gets a 304 only by relaying one that
      upstream itself sent for a fresh response; never from the entity-tag branch, nor from stale revalidation. */
  lemma NoUnaskedNotModified(rq: Header, visited: seq<string>, i: Input, next: NextResult)
    requires i.validator == ValidatedAll(Parsed(rq), visited) && !Conditional(rq)
    requires i.freshRes.Some? ==> i.freshRes.value.code != NOT_MODIFIED
    requires i.staleRes.Some? ==> i.staleRes.value.code != NOT_MODIFIED
    ensures var o := Decide(i, next);
            !o.action.Forwarded? && !o.action.Panics? && o.status == NOT_MODIFIED ==>
              o.action.FreshRevalidated? &&
              RevalidateResult(i, next).direct.None? && RevalidateResult(i, next).status == NOT_MODIFIED
  {
    hide Decide, RevalidateResult, Get, Values;
    ValidatedAllKeepsRequest(rq, visited);
    NoTagsWithoutHeader(rq);
    UnconditionalAnswer(i, next);
  }

  lemma UnconditionalAnswer(i: Input, next: NextResult)
    requires !i.validator.notModified && !i.validator.ifNoneMatchPresent && !i.validator.ifModifiedSincePresent
    requires i.freshRes.Some? ==> i.freshRes.value.code != NOT_MODIFIED
    requires i.staleRes.Some? ==> i.staleRes.value.code != NOT_MODIFIED
    ensures var o := Decide(i, next);
            !o.action.Forwarded? && !o.action.Panics? && o.status == NOT_MODIFIED ==>
              o.action.FreshRevalidated? &&
              RevalidateResult(i, next).direct.None? && RevalidateResult(i, next).status == NOT_MODIFIED
  {
    hide ControlValid, StaleAgeValid, FreshAgeValid, Aged, IsUpstreamFailure;
  }

  lemma NoTagsWithoutHeader(rq: Header)
    requires Values(rq, "If-None-Match") == []
    ensures Get(rq, "If-None-Match") == ""
  {
  }

  // ---- What the client and Upstream are given

  /** A served stored response reaches the client as exactly its stored body and, unless a condition was refused
      first, its stored status; a response confirmed by an upstream 304 is preceded by that answer's own body. */
  lemma StoredBodyIsServed(i: Input, next: NextResult)
    ensures ServesStored(i, next, Decide(i, next))
  {
    hide ControlValid, StaleAgeValid, FreshAgeValid, DecideFresh, DecideMaxStale, DecideStale, ServesStored;
    NothingServed(i, next);
    if i.freshRes.Some? {
      FreshBodyIsServed(i, next);
    }
    MaxStaleBodyIsServed(i, next);
    if i.staleRes.Some? {
      StaleBodyIsServed(i, next);
    }
  }

  ghost predicate ServesStored(i: Input, next: NextResult, o: Outcome) {
    match o.action
    case FreshServed(r) => i.freshRes.Some? && o.status == r.code == i.freshRes.value.code &&
                           o.body == i.freshRes.value.body
    case FreshETag(r) => i.freshRes.Some? && if i.validator.notModified then o.status == NOT_MODIFIED
                                             else o.status == r.code && o.body == i.freshRes.value.body
    case StaleConfirmed(r) =>
      i.staleRes.Some? && next.Answers? && next.response.code == NOT_MODIFIED && o.status == r.code &&
      (o.body == i.staleRes.value.body <==> next.response.body == "")
    case StaleServed(r) => i.staleRes.Some? && o.status == r.code && o.body == i.staleRes.value.body
    case StaleWhileRevalidating(r) => i.staleRes.Some? && o.status == r.code && o.body == i.staleRes.value.body
    case StaleOnError(r) =>
      i.staleRes.Some? && o.body == i.staleRes.value.body && (!ConditionRefused(i, next) ==> o.status == r.code)
    case _ => true
  }

  lemma NothingServed(i: Input, next: NextResult)
    ensures ServesStored(i, next, Forward())
  {
  }

  lemma FreshBodyIsServed(i: Input, next: NextResult)
    requires i.freshRes.Some?
    ensures ServesStored(i, next, DecideFresh(i, next))
  {
    hide FreshAgeValid, RevalidateResult;
  }

  lemma MaxStaleBodyIsServed(i: Input, next: NextResult)
    ensures ServesStored(i, next, DecideMaxStale(i, next))
  {
    hide ControlValid, StaleAgeValid, IsUpstreamFailure;
    if i.staleRes.Some? && next.Answers? {
      var a, b := next.response.body, i.staleRes.value.body;
      assert |a + b| == |a| + |b| && (a == "" ==> a + b == b);
    }
  }

  lemma StaleBodyIsServed(i: Input, next: NextResult)
    requires i.staleRes.Some?
    ensures ServesStored(i, next, DecideStale(i, next))
  {
    hide StaleAgeValid, IsUpstreamFailure;
  }

  /** The client's own If-Unmodified-Since or If-Modified-Since refuses this answer. */
  predicate RefusedByCondition(i: Input, answer: Response, lastModified: Option<Time>) {
    (i.validator.ifUnmodifiedSincePresent && answer.code != NOT_MODIFIED) ||
    (i.validator.ifModifiedSincePresent && lastModified.Some? && i.ifModifiedSince > lastModified.value)
  }

  /** The request takes the stale-if-error attempt, and upstream gives it an answer that is no failure. */
  predicate AttemptAnswered(i: Input, next: NextResult) {
    // what the request and the stored responses say
    && i.mode.Strict() && !i.rqCc.noCache && !UsesFresh(i) && (i.rqCc.onlyIfCached || !CarriesMaxStale(i.rqCc))
    && i.staleRes.Some? && i.staleRes.value.cacheControl.Some?
    && StaleAgeValid(i.staleRes.value, i.staleRes.value.cacheControl, i.rqCc, StoredSeconds(i.staleRes.value))
    && StaleIfError(i.staleRes.value.cacheControl.value, i.rqCc)
    // what upstream says
    && next.Answers? && !RefusedByCondition(i, next.response, next.lastModified)
    && (next.response.code == NOT_MODIFIED || !IsUpstreamFailure(next.response.code, i.allowedCodes))
  }

  /** `Upstream` starts with a fresh writer, unless a stale-if-error attempt was answered: then, and only then, the
      writer still holds that answer's body and status. */
  lemma UpstreamStartsEmptyExactly(i: Input, next: NextResult)
    ensures var o := Decide(i, next);
            && (o.action.Forwarded? && o.action.buffer != "" <==> AttemptAnswered(i, next) && next.response.body != "")
            && (o.action.Forwarded? && o.action.written != 200 <==>
                AttemptAnswered(i, next) && next.response.code != 200)
            && (AttemptAnswered(i, next) ==> o.action == Forwarded(next.response.body, next.response.code))
  {
    hide ControlValid, StaleAgeValid, FreshAgeValid, Aged, IsUpstreamFailure;
  }

  /** A stale response with stale-if-error=60 is stored and upstream answers 203: its body and status are in the writer
      when `Upstream` asks once more. */
  lemma LeftoverAnswer()
    ensures Decide(SampleInput(Parsed(map[])), Answers(SampleResponse("new").(code := 203), None)).action ==
            Forwarded("new", 203)
  {
  }

  /** A stale response that must be revalidated is confirmed by a 304 that comes with a body: the client gets that body
      before the stored one. */
  lemma ConfirmedAfterBody()
    ensures var i := SampleInput(Parsed(map[])).(rqCc := MAX_STALE,
              staleRes := Some(MustRevalidate(SampleResponse("old"))));
            var o := Decide(i, Answers(SampleResponse("new").(code := NOT_MODIFIED), None));
            o.action.StaleConfirmed? && o.status == 200 && o.body == "new" + "old"
  {
  }

  /** `Cache-Control: max-stale`. */
  const MAX_STALE := RequestCc(false, false, false, true, -1, -1, -1, -1)

  function MustRevalidate(r: Response): Response {
    if r.cacheControl.None? then r else r.(cacheControl := Some(r.cacheControl.value.(mustRevalidate := true)))
  }
}
