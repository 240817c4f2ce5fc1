/** Small rules of the middleware that several parts share. */
module HttpRules {
  import opened HttpHeader

  /** `isCacheableCode`. */
  predicate IsCacheableCode(code: int) {
    code in {200, 203, 204, 206, 300, 301, 404, 405, 410, 414, 501}
  }

  /** `canStatusCodeEmptyContent`. */
  predicate MayHaveEmptyBody(code: int) {
    code in {204, 301, 405}
  }

  /** The status may be stored: cacheable by default or allowed by configuration. */
  predicate StatusAllowed(code: int, allowed: set<int>) {
    IsCacheableCode(code) || code in allowed
  }

  /** The status makes `Upstream` and `Store` return `Upstream50xError`. */
  predicate IsUpstreamFailure(code: int, allowed: set<int>) {
    !StatusAllowed(code, allowed) && code in {500, 502, 503, 504}
  }

  /** The cache-control headers in the order `getOrderedSurrogateControlHeadersCandidate` gives them. */
  const CONTROL_HEADERS := ["Souin-Cache-Control", "Surrogate-Control", "CDN-Cache-Control", "Cache-Control"]

  /** `getCandidateHeader`: the first candidate with a value, or the last candidate and an empty value. */
  function CandidateHeader(h: Header, candidates: seq<string>): (r: (string, string))
    requires candidates != []
    ensures r.0 in candidates
    ensures r.1 != "" ==> r.1 == Get(h, r.0)
    ensures r.1 == "" <==> forall c :: c in candidates ==> Get(h, c) == ""
  {
    if Get(h, candidates[0]) != "" then (candidates[0], Get(h, candidates[0]))
    else if |candidates| == 1 then (candidates[0], "")
    else CandidateHeader(h, candidates[1..])
  }

  /** The value of the first control header that has one. */
  function FirstControl(h: Header): string {
    if Get(h, "Souin-Cache-Control") != "" then Get(h, "Souin-Cache-Control")
    else if Get(h, "Surrogate-Control") != "" then Get(h, "Surrogate-Control")
    else if Get(h, "CDN-Cache-Control") != "" then Get(h, "CDN-Cache-Control")
    else Get(h, "Cache-Control")
  }

  lemma FirstControlIsCandidate(h: Header)
    ensures CandidateHeader(h, CONTROL_HEADERS).1 == FirstControl(h)
  {
    hide Get;
    var last := ["Cache-Control"];
    var lastTwo := ["CDN-Cache-Control", "Cache-Control"];
    var lastThree := ["Surrogate-Control", "CDN-Cache-Control", "Cache-Control"];
    assert lastTwo[1..] == last && lastThree[1..] == lastTwo && CONTROL_HEADERS[1..] == lastThree;
    assert CandidateHeader(h, last).1 == Get(h, "Cache-Control");
    assert CandidateHeader(h, lastTwo).1 ==
           if Get(h, "CDN-Cache-Control") != "" then Get(h, "CDN-Cache-Control") else CandidateHeader(h, last).1;
    assert CandidateHeader(h, lastThree).1 ==
           if Get(h, "Surrogate-Control") != "" then Get(h, "Surrogate-Control") else CandidateHeader(h, lastTwo).1;
  }
}
