/** HTTP responses as the cache sees them: raw headers, and the fields it parses out of them. */
module Messages {
  import opened Wrappers
  import opened HttpHeader

  /** A point in time, and a length of time. */
  type Time = int

  /** Times are counted in nanoseconds. */
  const SECOND: Time := 1_000_000_000

  /** The Date header: absent, unparsable, or a time with a resolution of one second. */
  datatype DateField = NoDate | BadDate | At(t: Time)

  /** The response cache-control directives the cache reads; -1 stands for an absent delta-seconds value.
      `noCacheFields` are the canonical header names listed by no-cache. */
  datatype ResponseCc = ResponseCc(
    noStore: bool, isPrivate: bool, noCachePresent: bool, noCacheFields: set<string>, mustRevalidate: bool,
    maxAge: int, sMaxAge: int, staleIfError: int, staleWhileRevalidate: int)

  /** The request cache-control directives; -1 stands for an absent delta-seconds value. */
  datatype RequestCc = RequestCc(
    noStore: bool, noCache: bool, onlyIfCached: bool, maxStaleSet: bool,
    maxAge: int, maxStale: int, minFresh: int, staleIfError: int)

  /** `ModeContext`. */
  datatype Mode = Mode(bypassRequest: bool, bypassResponse: bool) {
    predicate Strict() {
      !bypassRequest && !bypassResponse
    }
  }

  /** `controlCc` is parsed from the first non-empty cache-control header, `cacheControl` from Cache-Control;
      `None` means the header does not parse. `storedTTL` is the parsed X-Souin-Stored-TTL header. */
  datatype Response = Response(
    code: int, headers: Header, body: string,
    date: DateField, storedTTL: Option<Time>, age: int,
    controlCc: Option<ResponseCc>, cacheControl: Option<ResponseCc>)
}
