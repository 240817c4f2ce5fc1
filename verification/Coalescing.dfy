/** `Upstream` with its `singleflight` pool, for any number of concurrent requests on one cache key, as an
    interleaving of the steps between which another request can run. */
module Coalescing {
  import opened Strings
  import opened Wrappers
  import opened HttpHeader
  import opened HttpRules
  import opened Messages

  datatype Config = Config(coalescingDisabled: bool, allowedCodes: set<int>)

  /** What the handler behind the cache does: it may write part of a body and fail. */
  datatype NextOutcome = NextError(partial: string) | Answer(response: Response)

  /** What a flight returns: an error of the handler behind, `Upstream50xError` with the status it stands for, or a
      `singleflightValue` with the leader, its upstream answer, what its buffer held `before`, and whether that was the
      `first` upstream call of this leader. */
  datatype FlightResult =
    | Failed(code: Option<int>)
    | Value(body: string, answer: Response, leader: nat, requestHeaders: Header, before: string, first: bool)

  datatype Phase =
    | Pending                                                     // about to call Do on the shared key
    | Flying                                                      // leads or waits for the current flight
    | Settling(result: FlightResult, shared: bool, solo: bool)    // Do has returned
    | PendingSolo                                                 // about to call Do on a key of its own
    | FlyingSolo
    | Finished(result: FlightResult)                              // Upstream has returned

  /** `start` and `startStatus` are what the writer held when Upstream was called; `status` is the last one that
      Upstream put into it, `None` as long as it has the one it had before. */
  datatype Request = Request(
    header: Header, start: string, startStatus: int, phase: Phase, buffer: string, status: Option<int>,
    ledShared: bool, ledSolo: bool, calls: nat)

  /** A request as it calls Upstream: an empty buffer and status 200, or what an earlier attempt left there. */
  datatype Caller = Caller(header: Header, buffer: string, status: int)

  /** The flight registered in the pool under the shared key; the leader is one of its members. */
  datatype Flight = Flight(leader: nat, members: set<nat>)

  datatype State = State(reqs: seq<Request>, flight: Option<Flight>)

  datatype Action =
    | Enter(r: nat)
    | EnterSolo(r: nat)
    | Land(outcome: NextOutcome)
    | LandSolo(r: nat, outcome: NextOutcome)
    | Settle(r: nat)

  /** `strings.Contains(cacheControl, "private")` on the first non-empty control header, or a Set-Cookie. */
  predicate DisablesCoalescing(answer: Response) {
    Contains(CandidateHeader(answer.headers, CONTROL_HEADERS).1, "private") || Get(answer.headers, "Set-Cookie") != ""
  }

  /** The Vary comparison after the flight: skipped when the first Vary line is empty or `*` is listed. */
  predicate VaryMismatch(header: Header, v: FlightResult)
    requires v.Value?
  {
    var (names, isStar) := VariedHeaders(v.answer.headers);
    Get(v.answer.headers, "Vary") != "" && !isStar &&
    exists i :: 0 <= i < |names| && Get(header, names[i]) != Get(v.requestHeaders, names[i])
  }

  /** The key the next `Upstream` call passes to Do. */
  function NextPhase(c: Config, disableCoalescing: bool): Phase {
    if c.coalescingDisabled || disableCoalescing then PendingSolo else Pending
  }

  /** What the flight function leaves in the leader's buffer and returns. */
  function LeaderResult(c: Config, s: State, r: nat, outcome: NextOutcome): FlightResult
    requires r < |s.reqs|
  {
    match outcome
    case NextError(_) => Failed(None)
    case Answer(a) =>
      if IsUpstreamFailure(a.code, c.allowedCodes) then Failed(Some(a.code))
      else Value(s.reqs[r].buffer + a.body, a, r, s.reqs[r].header, s.reqs[r].buffer, s.reqs[r].calls == 1)
  }

  function LeaderBuffer(c: Config, s: State, r: nat, outcome: NextOutcome): string
    requires r < |s.reqs|
  {
    match outcome
    case NextError(partial) => s.reqs[r].buffer + partial
    case Answer(a) => if IsUpstreamFailure(a.code, c.allowedCodes) then s.reqs[r].buffer + a.body else ""
  }

  function LeaderStatus(s: State, r: nat, outcome: NextOutcome): Option<int>
    requires r < |s.reqs|
  {
    match outcome
    case NextError(_) => s.reqs[r].status
    case Answer(a) => Some(a.code)
  }

  predicate Enabled(s: State, a: Action) {
    match a
    case Enter(r) => r < |s.reqs| && s.reqs[r].phase.Pending?
    case EnterSolo(r) => r < |s.reqs| && s.reqs[r].phase.PendingSolo?
    case Land(_) => s.flight.Some? && s.flight.value.leader < |s.reqs|
    case LandSolo(r, _) => r < |s.reqs| && s.reqs[r].phase.FlyingSolo?
    case Settle(r) => r < |s.reqs| && s.reqs[r].phase.Settling?
  }

  function SettledRequest(c: Config, rq: Request): Request
    requires rq.phase.Settling?
  {
    match rq.phase.result
    case Failed(_) => rq.(phase := Finished(rq.phase.result))
    case Value(body, answer, _, _, _, _) =>
      if rq.phase.shared && DisablesCoalescing(answer) then rq.(phase := NextPhase(c, true))
      else if VaryMismatch(rq.header, rq.phase.result) then rq.(phase := NextPhase(c, false))
      else rq.(phase := Finished(rq.phase.result), buffer := body, status := Some(answer.code))
  }

  /** A member of the flight when it lands; only the leader's writer was written to. */
  function LandedRequest(c: Config, s: State, i: nat, outcome: NextOutcome): Request
    requires i < |s.reqs| && s.flight.Some? && s.flight.value.leader < |s.reqs|
  {
    var f := s.flight.value;
    if i !in f.members then s.reqs[i]
    else
      var rq := s.reqs[i].(phase := Settling(LeaderResult(c, s, f.leader, outcome), |f.members| > 1, false));
      if i == f.leader then rq.(buffer := LeaderBuffer(c, s, i, outcome), status := LeaderStatus(s, i, outcome)) else rq
  }

  function Apply(c: Config, s: State, a: Action): (t: State)
    requires Enabled(s, a)
    ensures |t.reqs| == |s.reqs|
  {
    match a
    case Enter(r) =>
      if s.flight.None? then
        State(s.reqs[r := s.reqs[r].(phase := Flying, ledShared := true, calls := s.reqs[r].calls + 1)],
              Some(Flight(r, {r})))
      else
        State(s.reqs[r := s.reqs[r].(phase := Flying)], Some(s.flight.value.(members := s.flight.value.members + {r})))
    case EnterSolo(r) =>
      s.(reqs := s.reqs[r := s.reqs[r].(phase := FlyingSolo, ledSolo := true, calls := s.reqs[r].calls + 1)])
    case Land(outcome) =>
      State(seq(|s.reqs|, i requires 0 <= i < |s.reqs| => LandedRequest(c, s, i, outcome)), None)
    case LandSolo(r, outcome) =>
      s.(reqs := s.reqs[r := s.reqs[r].(phase := Settling(LeaderResult(c, s, r, outcome), false, true),
                                        buffer := LeaderBuffer(c, s, r, outcome),
                                        status := LeaderStatus(s, r, outcome))])
    case Settle(r) =>
      s.(reqs := s.reqs[r := SettledRequest(c, s.reqs[r])])
  }

  /** Nothing has been asked yet; the buffers may hold what an earlier attempt of the same request left. */
  function Start(c: Config, callers: seq<Caller>): (s: State)
    ensures |s.reqs| == |callers| && s.flight.None?
    ensures forall i :: 0 <= i < |callers| ==> s.reqs[i] == Entering(c, callers[i])
  {
    State(seq(|callers|, i requires 0 <= i < |callers| => Entering(c, callers[i])), None)
  }

  function Entering(c: Config, caller: Caller): Request {
    Request(caller.header, caller.buffer, caller.status, NextPhase(c, false), caller.buffer, None, false, false, 0)
  }

  predicate ValidRun(c: Config, s: State, run: seq<Action>)
    decreases |run|
  {
    run == [] || (Enabled(s, run[0]) && ValidRun(c, Apply(c, s, run[0]), run[1..]))
  }

  function After(c: Config, s: State, run: seq<Action>): State
    requires ValidRun(c, s, run)
    decreases |run|
  {
    if run == [] then s else After(c, Apply(c, s, run[0]), run[1..])
  }

  // ---- Invariant

  ghost predicate SoundValue(reqs: seq<Request>, v: FlightResult) {
    v.Value? ==>
      v.leader < |reqs| && v.requestHeaders == reqs[v.leader].header && v.body == v.before + v.answer.body &&
      v.before == if v.first then reqs[v.leader].start else ""
  }

  ghost predicate RequestInv(c: Config, s: State, i: nat)
    requires i < |s.reqs|
  {
    var rq := s.reqs[i];
    && rq.calls == (if rq.ledShared then 1 else 0) + (if rq.ledSolo then 1 else 0)
    && (c.coalescingDisabled ==> !rq.phase.Pending? && !rq.phase.Flying? && (rq.phase.Settling? ==> rq.phase.solo))
    && (rq.phase.Flying? <==> s.flight.Some? && i in s.flight.value.members)
    && match rq.phase
       case Pending => rq.buffer == rq.start && rq.status.None? && !rq.ledShared && !rq.ledSolo
       case Flying => rq.buffer == rq.start && rq.status.None? && !rq.ledSolo &&
                      (rq.ledShared <==> s.flight.Some? && s.flight.value.leader == i)
       case PendingSolo => rq.buffer == (if rq.ledShared then "" else rq.start) &&
                           (rq.status.Some? <==> rq.ledShared) && !rq.ledSolo
       case FlyingSolo => rq.buffer == (if rq.ledShared then "" else rq.start) && rq.ledSolo
       case Settling(result, shared, solo) =>
         && SoundValue(s.reqs, result)
         && (result.Value? || result.code.Some? ==> (rq.status.Some? <==> rq.calls > 0))
         && (result.Value? ==> rq.buffer == if rq.calls > 0 then "" else rq.start)
         && (result.Failed? ==> FailedFairly(rq, result))
         && (solo ==> !shared && rq.ledSolo && (result.Value? ==> result.leader == i))
         && (!solo ==> !rq.ledSolo)
         && (!solo && rq.ledShared && result.Value? ==> result.leader == i)
         && (!shared && result.Value? ==> result.leader == i)
       case Finished(result) => if result.Value? then Delivered(c, s.reqs, i, result) else FailedFairly(rq, result)
  }

  /** After a 50x the writer has that status if the request led the flight, and is untouched if it did not. */
  ghost predicate FailedFairly(rq: Request, result: FlightResult)
    requires result.Failed?
  {
    && (rq.calls == 0 ==> rq.status.None? && rq.buffer == rq.start)
    && (rq.calls > 0 && result.code.Some? ==> rq.status == result.code)
  }

  /** What holds of a response `v` that `Upstream` wrote for request `i`. */
  ghost predicate Delivered(c: Config, reqs: seq<Request>, i: nat, v: FlightResult)
    requires i < |reqs|
  {
    && v.Value? && SoundValue(reqs, v)
    && !VaryMismatch(reqs[i].header, v)
    && (c.coalescingDisabled || DisablesCoalescing(v.answer) ==> v.leader == i)
    && reqs[i].buffer == v.body && reqs[i].status == Some(v.answer.code)
  }

  ghost predicate Inv(c: Config, s: State) {
    && (s.flight.Some? ==> s.flight.value.leader in s.flight.value.members &&
                           forall m :: m in s.flight.value.members ==> m < |s.reqs|)
    && forall i :: 0 <= i < |s.reqs| ==> RequestInv(c, s, i)
  }

  lemma LeaderPassesOwnCheck(v: FlightResult)
    requires v.Value?
    ensures !VaryMismatch(v.requestHeaders, v)
  {
  }

  lemma LandKeepsInv(c: Config, s: State, outcome: NextOutcome)
    requires Inv(c, s) && Enabled(s, Land(outcome))
    ensures Inv(c, Apply(c, s, Land(outcome)))
  {
    hide VaryMismatch, DisablesCoalescing, IsUpstreamFailure;
    var t := Apply(c, s, Land(outcome));
    var f := s.flight.value;
    assert RequestInv(c, s, f.leader);
    forall i | 0 <= i < |t.reqs|
      ensures RequestInv(c, t, i)
    {
      assert RequestInv(c, s, i);
      if i in f.members && |f.members| <= 1 {
        assert f.members == {f.leader} by { SingletonSet(f.members, f.leader); }
      }
    }
  }

  lemma SingletonSet(s: set<nat>, x: nat)
    requires x in s && |s| <= 1
    ensures s == {x}
  {
    assert |s - {x}| == 0;
  }

  lemma SettleKeepsInv(c: Config, s: State, r: nat)
    requires Inv(c, s) && Enabled(s, Settle(r))
    ensures Inv(c, Apply(c, s, Settle(r)))
  {
    var t := Apply(c, s, Settle(r));
    forall i | 0 <= i < |t.reqs|
      ensures RequestInv(c, t, i)
    {
      if i == r {
        SettledKeepsInv(c, s, r);
      } else {
        OthersKeepInv(c, s, r, SettledRequest(c, s.reqs[r]), i);
      }
    }
  }

  /** What holds of another request does not depend on how request `r` moves on. */
  lemma OthersKeepInv(c: Config, s: State, r: nat, rq: Request, i: nat)
    requires r < |s.reqs| && i < |s.reqs| && i != r && RequestInv(c, s, i)
    requires rq.header == s.reqs[r].header && rq.start == s.reqs[r].start
    ensures RequestInv(c, s.(reqs := s.reqs[r := rq]), i)
  {
    hide VaryMismatch, DisablesCoalescing;
  }

  lemma SettledKeepsInv(c: Config, s: State, r: nat)
    requires Inv(c, s) && Enabled(s, Settle(r))
    ensures RequestInv(c, Apply(c, s, Settle(r)), r)
  {
    hide VaryMismatch, DisablesCoalescing;
    assert RequestInv(c, s, r);
    if s.reqs[r].phase.result.Value? {
      LeaderPassesOwnCheck(s.reqs[r].phase.result);
    }
  }

  lemma EnterKeepsInv(c: Config, s: State, r: nat)
    requires Inv(c, s) && Enabled(s, Enter(r))
    ensures Inv(c, Apply(c, s, Enter(r)))
  {
    hide VaryMismatch, DisablesCoalescing;
    var t := Apply(c, s, Enter(r));
    forall i | 0 <= i < |t.reqs|
      ensures RequestInv(c, t, i)
    {
      assert RequestInv(c, s, i);
    }
  }

  lemma SoloKeepsInv(c: Config, s: State, a: Action)
    requires Inv(c, s) && Enabled(s, a) && (a.EnterSolo? || a.LandSolo?)
    ensures Inv(c, Apply(c, s, a))
  {
    var t := Apply(c, s, a);
    forall i | 0 <= i < |t.reqs|
      ensures RequestInv(c, t, i)
    {
      if i == a.r {
        SoloKeepsOwnInv(c, s, a);
      } else {
        OthersKeepInv(c, s, a.r, t.reqs[a.r], i);
      }
    }
  }

  lemma SoloKeepsOwnInv(c: Config, s: State, a: Action)
    requires Inv(c, s) && Enabled(s, a) && (a.EnterSolo? || a.LandSolo?)
    ensures RequestInv(c, Apply(c, s, a), a.r)
  {
    hide VaryMismatch, DisablesCoalescing, IsUpstreamFailure;
    assert RequestInv(c, s, a.r);
  }

  lemma StepKeepsInv(c: Config, s: State, a: Action)
    requires Inv(c, s) && Enabled(s, a)
    ensures Inv(c, Apply(c, s, a))
  {
    match a {
      case Land(outcome) => LandKeepsInv(c, s, outcome);
      case Settle(r) => SettleKeepsInv(c, s, r);
      case Enter(r) => EnterKeepsInv(c, s, r);
      case _ => SoloKeepsInv(c, s, a);
    }
  }

  predicate SameCaller(a: Request, b: Request) {
    a.header == b.header && a.start == b.start && a.startStatus == b.startStatus
  }

  lemma {:induction false} RunKeepsInv(c: Config, s: State, run: seq<Action>)
    requires Inv(c, s) && ValidRun(c, s, run)
    ensures Inv(c, After(c, s, run)) && |After(c, s, run).reqs| == |s.reqs|
    ensures forall i :: 0 <= i < |s.reqs| ==>
              SameCaller(After(c, s, run).reqs[i], s.reqs[i])
    decreases |run|
  {
    if run != [] {
      StepKeepsInv(c, s, run[0]);
      var t := Apply(c, s, run[0]);
      assert forall i :: 0 <= i < |s.reqs| ==>
             SameCaller(t.reqs[i], s.reqs[i]);
      RunKeepsInv(c, t, run[1..]);
    }
  }

  lemma StartInv(c: Config, callers: seq<Caller>)
    ensures Inv(c, Start(c, callers))
  {
  }

  // ---- The right variant, exactly once

  /** The receiver agrees with the leader on every header the answer's Vary names, when it is not `*`. */
  ghost predicate AgreesOnVary(receiver: Header, leader: Header, answer: Response) {
    var fields := CommaSepFields(Values(answer.headers, "Vary"));
    "*" in fields || forall f :: f in fields && f != "" ==> Get(receiver, f) == Get(leader, f)
  }

  // ---- What an answer says, on its header lines and its status

  /** "private" stands somewhere in it, or the first Set-Cookie line has a value. */
  ghost predicate IsPersonal(answer: Response) {
    Reads(FirstControl(answer.headers), "private") || Get(answer.headers, "Set-Cookie") != ""
  }

  /** A 50x that the configuration does not allow. */
  predicate Is50x(c: Config, answer: Response) {
    (answer.code == 500 || answer.code == 502 || answer.code == 503 || answer.code == 504) &&
    answer.code !in c.allowedCodes
  }

  lemma FlagIsPersonal(answer: Response)
    ensures DisablesCoalescing(answer) <==> IsPersonal(answer)
  {
    hide Get;
    var first := FirstControl(answer.headers);
    FirstControlIsCandidate(answer.headers);
    ContainsReads(first, "private");
  }

  /** The comparison of the listed names is the agreement on the fields. */
  lemma NoMismatchAgrees(header: Header, v: FlightResult)
    requires v.Value? && Get(v.answer.headers, "Vary") != "" && !VaryMismatch(header, v)
    ensures AgreesOnVary(header, v.requestHeaders, v.answer)
  {
    hide Get;
    var names := VariedHeaders(v.answer.headers).0;
    forall f | f in names
      ensures !VariedHeaders(v.answer.headers).1 ==> Get(header, f) == Get(v.requestHeaders, f)
    {
      var i :| 0 <= i < |names| && names[i] == f;
    }
  }

  lemma FailureIs50x(c: Config, answer: Response)
    ensures IsUpstreamFailure(answer.code, c.allowedCodes) <==> Is50x(c, answer)
  {
  }

  /** In every interleaving, a response written by `Upstream` for request `i` came from a leader's own upstream
      answer; the body is that answer's after what the leader's buffer held, which is its start buffer on its first
      upstream call and nothing later, so the buffer has exactly one copy if and only if the leader's was empty; a
      private response, or one with a cookie, reached only its own leader; and the receiver passed the Vary
      comparison. No request leads more than two upstream calls. */
  lemma RightVariant(c: Config, callers: seq<Caller>, run: seq<Action>, i: nat)
    requires ValidRun(c, Start(c, callers), run) && i < |callers|
    ensures var t := After(c, Start(c, callers), run);
            && |t.reqs| == |callers| && t.reqs[i].header == callers[i].header && t.reqs[i].calls <= 2
            && (t.reqs[i].phase.Finished? && t.reqs[i].phase.result.Value? ==>
                  var v := t.reqs[i].phase.result;
                  && v.leader < |callers| && v.requestHeaders == callers[v.leader].header
                  && v.before == (if v.first then callers[v.leader].buffer else "")
                  && t.reqs[i].buffer == v.before + v.answer.body
                  && (t.reqs[i].buffer == v.answer.body <==> v.before == "")
                  && (c.coalescingDisabled || IsPersonal(v.answer) ==> v.leader == i)
                  && (Get(v.answer.headers, "Vary") != "" ==>
                      AgreesOnVary(callers[i].header, callers[v.leader].header, v.answer)))
  {
    hide DisablesCoalescing, IsPersonal;
    var s := Start(c, callers);
    StartInv(c, callers);
    RunKeepsInv(c, s, run);
    var t := After(c, s, run);
    assert RequestInv(c, t, i);
    if t.reqs[i].phase.Finished? && t.reqs[i].phase.result.Value? {
      var v := t.reqs[i].phase.result;
      FlagIsPersonal(v.answer);
      if Get(v.answer.headers, "Vary") != "" {
        NoMismatchAgrees(t.reqs[i].header, v);
      }
      assert |v.before + v.answer.body| == |v.before| + |v.answer.body|;
      assert v.before == "" ==> v.before + v.answer.body == v.answer.body;
    }
  }

  /** Every upstream answer in the run that is not an error is `answer`. */
  ghost predicate OnlyAnswers(run: seq<Action>, answer: Response) {
    forall i :: 0 <= i < |run| ==>
      (run[i].Land? && run[i].outcome.Answer? ==> run[i].outcome.response == answer) &&
      (run[i].LandSolo? && run[i].outcome.Answer? ==> run[i].outcome.response == answer)
  }

  ghost predicate WrittenAnswers(s: State, answer: Response) {
    forall i :: 0 <= i < |s.reqs| ==>
      (s.reqs[i].phase.Settling? && s.reqs[i].phase.result.Value? ==>
         s.reqs[i].phase.result.answer == answer) &&
      (s.reqs[i].phase.Finished? && s.reqs[i].phase.result.Value? ==>
         s.reqs[i].phase.result.answer == answer)
  }

  lemma {:induction false} RunWritesAnswers(c: Config, s: State, run: seq<Action>, answer: Response)
    requires ValidRun(c, s, run) && OnlyAnswers(run, answer) && WrittenAnswers(s, answer)
    ensures WrittenAnswers(After(c, s, run), answer)
    decreases |run|
  {
    if run != [] {
      StepWritesAnswers(c, s, run[0], answer);
      RunWritesAnswers(c, Apply(c, s, run[0]), run[1..], answer);
    }
  }

  lemma StepWritesAnswers(c: Config, s: State, a: Action, answer: Response)
    requires Enabled(s, a) && OnlyAnswers([a], answer) && WrittenAnswers(s, answer)
    ensures WrittenAnswers(Apply(c, s, a), answer)
  {
    hide VaryMismatch, DisablesCoalescing, IsUpstreamFailure;
    assert [a][0] == a;
  }

  /** If request `i` was served at the end of the run, it agrees with the leader it was served from. */
  ghost predicate ServedInAgreement(c: Config, callers: seq<Caller>, run: seq<Action>, i: nat, answer: Response)
    requires ValidRun(c, Start(c, callers), run) && i < |callers|
  {
    var t := After(c, Start(c, callers), run);
    i < |t.reqs| && t.reqs[i].phase.Finished? && t.reqs[i].phase.result.Value? ==>
      var v := t.reqs[i].phase.result;
      v.Value? && v.leader < |callers| && AgreesOnVary(callers[i].header, callers[v.leader].header, answer)
  }

  /** Whatever the requests and the interleaving, `answer` is only written for requests that agree with its leader. */
  ghost predicate VariantSafe(c: Config, answer: Response) {
    forall callers, run, i: nat ::
      ValidRun(c, Start(c, callers), run) && OnlyAnswers(run, answer) && i < |callers| ==>
        ServedInAgreement(c, callers, run, i, answer)
  }

  /** The comparison looks at the first Vary line only; an empty one hides the others. */
  ghost predicate VaryIsCompared(answer: Response) {
    var fields := CommaSepFields(Values(answer.headers, "Vary"));
    Get(answer.headers, "Vary") != "" || "*" in fields || forall f :: f in fields ==> f == ""
  }

  /** That holds if and only if coalescing is off, the answer is never shared, or its Vary is compared. */
  lemma VariantSafeExactly(c: Config, answer: Response)
    ensures VariantSafe(c, answer) <==>
            c.coalescingDisabled || Is50x(c, answer) || IsPersonal(answer) || VaryIsCompared(answer)
  {
    hide DisablesCoalescing, IsUpstreamFailure, VaryIsCompared, ServedInAgreement, IsPersonal, Is50x;
    FlagIsPersonal(answer);
    FailureIs50x(c, answer);
    if c.coalescingDisabled || IsUpstreamFailure(answer.code, c.allowedCodes)
       || DisablesCoalescing(answer) || VaryIsCompared(answer) {
      forall callers, run, i: nat |
        ValidRun(c, Start(c, callers), run) && OnlyAnswers(run, answer) && i < |callers|
        ensures ServedInAgreement(c, callers, run, i, answer)
      {
        if IsUpstreamFailure(answer.code, c.allowedCodes) {
          FailureNotServed(c, callers, run, i, answer);
        } else {
          WrittenAnswersAgree(c, callers, run, i, answer);
        }
      }
    } else {
      var callers, run := HiddenVaryRun(c, answer);
      assert !ServedInAgreement(c, callers, run, 1, answer);
    }
  }

  lemma HiddenVaryRun(c: Config, answer: Response) returns (callers: seq<Caller>, run: seq<Action>)
    requires !c.coalescingDisabled && !IsUpstreamFailure(answer.code, c.allowedCodes)
    requires !DisablesCoalescing(answer) && !VaryIsCompared(answer)
    ensures |callers| == 2 && ValidRun(c, Start(c, callers), run) && OnlyAnswers(run, answer)
    ensures !ServedInAgreement(c, callers, run, 1, answer)
  {
    hide DisablesCoalescing, IsUpstreamFailure, CanonicalHeaderKey;
    var (names, isStar) := VariedHeaders(answer.headers);
    var k :| 0 <= k < |names| && names[k] != "";
    var other: Header := map[CanonicalHeaderKey(names[k]) := ["x"]];
    callers := [Caller(map[], "", 200), Caller(other, "", 200)];
    run := TwoShare(c, map[], other, answer);
    assert Get(callers[1].header, names[k]) == "x" && Get(callers[0].header, names[k]) == "";
  }

  lemma FailureNotServed(c: Config, callers: seq<Caller>, run: seq<Action>, i: nat, answer: Response)
    requires ValidRun(c, Start(c, callers), run) && OnlyAnswers(run, answer) && i < |callers|
    requires IsUpstreamFailure(answer.code, c.allowedCodes)
    ensures ServedInAgreement(c, callers, run, i, answer) && ServedToOwner(c, callers, run, i)
  {
    hide IsUpstreamFailure, AgreesOnVary;
    FailureIsNeverWritten(c, Start(c, callers), run, answer);
  }

  lemma WrittenAnswersAgree(c: Config, callers: seq<Caller>, run: seq<Action>, i: nat, answer: Response)
    requires ValidRun(c, Start(c, callers), run) && OnlyAnswers(run, answer) && i < |callers|
    requires c.coalescingDisabled || DisablesCoalescing(answer) || VaryIsCompared(answer)
    ensures ServedInAgreement(c, callers, run, i, answer)
  {
    hide DisablesCoalescing, IsPersonal;
    FlagIsPersonal(answer);
    RightVariant(c, callers, run, i);
    RunWritesAnswers(c, Start(c, callers), run, answer);
  }

  lemma {:induction false} FailureIsNeverWritten(c: Config, s: State, run: seq<Action>, answer: Response)
    requires ValidRun(c, s, run) && OnlyAnswers(run, answer) && IsUpstreamFailure(answer.code, c.allowedCodes)
    requires forall i :: 0 <= i < |s.reqs| ==> NothingToWrite(s.reqs[i].phase)
    ensures forall i :: 0 <= i < |After(c, s, run).reqs| ==> NothingToWrite(After(c, s, run).reqs[i].phase)
    decreases |run|
  {
    hide VaryMismatch, DisablesCoalescing;
    if run != [] {
      assert OnlyAnswers(run[1..], answer);
      FailureIsNeverWritten(c, Apply(c, s, run[0]), run[1..], answer);
    }
  }

  predicate NothingToWrite(p: Phase) {
    (p.Settling? ==> p.result.Failed?) && (p.Finished? ==> p.result.Failed?)
  }

  /** Two requests enter with empty buffers, the flight lands, the second gets its result. */
  lemma TwoEnter(c: Config, first: Header, second: Header, answer: Response) returns (run: seq<Action>)
    requires !c.coalescingDisabled
    ensures ValidRun(c, Start(c, [Caller(first, "", 200), Caller(second, "", 200)]), run) && OnlyAnswers(run, answer)
    ensures var s := Start(c, [Caller(first, "", 200), Caller(second, "", 200)]);
            var result := if IsUpstreamFailure(answer.code, c.allowedCodes) then Failed(Some(answer.code))
                          else Value(answer.body, answer, 0, first, "", true);
            |After(c, s, run).reqs| == 2 &&
            After(c, s, run).reqs[1] == SettledRequest(c, s.reqs[1].(phase := Settling(result, true, false)))
  {
    hide VaryMismatch, DisablesCoalescing, IsUpstreamFailure;
    var s0 := Start(c, [Caller(first, "", 200), Caller(second, "", 200)]);
    run := [Enter(0), Enter(1), Land(Answer(answer)), Settle(1)];
    var s1 := Apply(c, s0, run[0]);
    var s2 := Apply(c, s1, run[1]);
    assert s2.flight.value.members == {0, 1};
    var s3 := Apply(c, s2, run[2]);
    assert "" + answer.body == answer.body;
    assert s3.reqs[1].phase.Settling? && s3.reqs[1].phase.shared;
    var s4 := Apply(c, s3, run[3]);
    assert run[3..] == [Settle(1)] && run[2..][1..] == run[3..] && run[1..][1..] == run[2..];
    assert ValidRun(c, s4, []) && [Settle(1)][1..] == [];
    assert ValidRun(c, s3, run[3..]) && After(c, s3, run[3..]) == s4;
    assert ValidRun(c, s2, run[2..]) && After(c, s2, run[2..]) == s4;
    assert ValidRun(c, s1, run[1..]) && After(c, s1, run[1..]) == s4;
  }

  /** ... and is served the first one's answer. */
  lemma TwoShare(c: Config, first: Header, second: Header, answer: Response) returns (run: seq<Action>)
    requires !c.coalescingDisabled && !IsUpstreamFailure(answer.code, c.allowedCodes) && !DisablesCoalescing(answer)
    requires !VaryMismatch(second, Value(answer.body, answer, 0, first, "", true))
    ensures ValidRun(c, Start(c, [Caller(first, "", 200), Caller(second, "", 200)]), run) && OnlyAnswers(run, answer)
    ensures var t := After(c, Start(c, [Caller(first, "", 200), Caller(second, "", 200)]), run);
            |t.reqs| == 2 && t.reqs[1].phase == Finished(Value(answer.body, answer, 0, first, "", true)) &&
            t.reqs[1].calls == 0 && t.reqs[1].buffer == answer.body && t.reqs[1].status == Some(answer.code)
  {
    hide VaryMismatch, DisablesCoalescing, IsUpstreamFailure;
    run := TwoEnter(c, first, second, answer);
  }

  ghost predicate ServedToOwner(c: Config, callers: seq<Caller>, run: seq<Action>, i: nat)
    requires ValidRun(c, Start(c, callers), run) && i < |callers|
  {
    var t := After(c, Start(c, callers), run);
    i < |t.reqs| && t.reqs[i].phase.Finished? && t.reqs[i].phase.result.Value? ==>
      t.reqs[i].phase.result.leader == i
  }

  /** Whatever the requests and the interleaving, `answer` reaches only the request whose own call produced it. */
  ghost predicate OwnOnly(c: Config, answer: Response) {
    forall callers, run, i: nat ::
      ValidRun(c, Start(c, callers), run) && OnlyAnswers(run, answer) && i < |callers| ==>
        ServedToOwner(c, callers, run, i)
  }

  /** That holds if and only if coalescing is off, the answer is an upstream failure, or its first non-empty
      control header says private or it sets a cookie. */
  lemma OwnOnlyExactly(c: Config, answer: Response)
    ensures OwnOnly(c, answer) <==>
            c.coalescingDisabled || Is50x(c, answer) || IsPersonal(answer)
  {
    hide DisablesCoalescing, IsUpstreamFailure, ServedToOwner, IsPersonal, Is50x;
    FlagIsPersonal(answer);
    FailureIs50x(c, answer);
    if c.coalescingDisabled || IsUpstreamFailure(answer.code, c.allowedCodes) || DisablesCoalescing(answer) {
      forall callers, run, i: nat |
        ValidRun(c, Start(c, callers), run) && OnlyAnswers(run, answer) && i < |callers|
        ensures ServedToOwner(c, callers, run, i)
      {
        if IsUpstreamFailure(answer.code, c.allowedCodes) {
          FailureNotServed(c, callers, run, i, answer);
        } else {
          FlaggedAnswerServedToOwner(c, callers, run, i, answer);
        }
      }
    } else {
      var run := SharedRun(c, answer);
      assert !ServedToOwner(c, [Caller(map[], "", 200), Caller(map[], "", 200)], run, 1);
    }
  }

  /** Any other answer is shared: a request that waits for another one's flight is served its answer, when both agree
      on every header that the answer's Vary names. */
  lemma AgreeingRequestsShare(c: Config, first: Header, second: Header, answer: Response) returns (run: seq<Action>)
    requires !c.coalescingDisabled && !Is50x(c, answer) && !IsPersonal(answer)
    requires forall f :: f in CommaSepFields(Values(answer.headers, "Vary")) ==> Get(second, f) == Get(first, f)
    ensures var callers := [Caller(first, "", 200), Caller(second, "", 200)];
            ValidRun(c, Start(c, callers), run) && OnlyAnswers(run, answer) &&
            var t := After(c, Start(c, callers), run);
            |t.reqs| == 2 && t.reqs[1].calls == 0 && t.reqs[1].buffer == answer.body && t.reqs[1].phase.Finished? &&
            t.reqs[1].phase.result.Value? && t.reqs[1].phase.result.leader == 0 && t.reqs[1].status == Some(answer.code)
  {
    hide DisablesCoalescing, IsUpstreamFailure, IsPersonal, Is50x;
    FlagIsPersonal(answer);
    FailureIs50x(c, answer);
    var v := Value(answer.body, answer, 0, first, "", true);
    var (names, isStar) := VariedHeaders(answer.headers);
    assert !VaryMismatch(second, v);
    run := TwoShare(c, first, second, answer);
  }

  lemma SharedRun(c: Config, answer: Response) returns (run: seq<Action>)
    requires !c.coalescingDisabled && !IsUpstreamFailure(answer.code, c.allowedCodes) && !DisablesCoalescing(answer)
    ensures ValidRun(c, Start(c, [Caller(map[], "", 200), Caller(map[], "", 200)]), run) && OnlyAnswers(run, answer)
    ensures !ServedToOwner(c, [Caller(map[], "", 200), Caller(map[], "", 200)], run, 1)
  {
    hide DisablesCoalescing, IsUpstreamFailure;
    LeaderPassesOwnCheck(Value(answer.body, answer, 0, map[], "", true));
    run := TwoShare(c, map[], map[], answer);
  }

  lemma FlaggedAnswerServedToOwner(c: Config, callers: seq<Caller>, run: seq<Action>, i: nat, answer: Response)
    requires ValidRun(c, Start(c, callers), run) && OnlyAnswers(run, answer) && i < |callers|
    requires c.coalescingDisabled || DisablesCoalescing(answer)
    ensures ServedToOwner(c, callers, run, i)
  {
    hide DisablesCoalescing, AgreesOnVary, IsPersonal;
    FlagIsPersonal(answer);
    RightVariant(c, callers, run, i);
    RunWritesAnswers(c, Start(c, callers), run, answer);
  }

  function Plain(headers: Header): Response {
    Response(200, headers, "", NoDate, None, 0, None, None)
  }

  /** `Cache-Control: private` behind a non-empty Surrogate-Control is not seen, so the answer is shared. */
  lemma MaskedPrivateIsShared()
    ensures var headers := Set(Set(map[], "Surrogate-Control", "max-age=60"), "Cache-Control", "private");
            Get(headers, "Cache-Control") == "private" && !OwnOnly(Config(false, {}), Plain(headers))
  {
    hide CanonicalHeaderKey, OwnOnly;
    var headers := Set(Set(map[], "Surrogate-Control", "max-age=60"), "Cache-Control", "private");
    assert forall name :: |CanonicalHeaderKey(name)| == |name|;
    assert Get(headers, "Souin-Cache-Control") == "" && Get(headers, "Surrogate-Control") == "max-age=60";
    assert Get(headers, "Set-Cookie") == "";
    assert FirstControl(headers) == "max-age=60";
    forall i: nat
      ensures !ReadsAt("max-age=60", "private", i)
    {
      assert forall j :: 0 <= j < 10 ==> "max-age=60"[j] != 'p';
      assert i + 7 <= 10 ==> "max-age=60"[i + 0] != "private"[0];
    }
    OwnOnlyExactly(Config(false, {}), Plain(headers));
  }

  /** `Cache-Control: private` on its own reaches only the request that fetched it. */
  lemma PrivateIsNotShared()
    ensures var headers := Set(map[], "Cache-Control", "private");
            OwnOnly(Config(false, {}), Plain(headers))
  {
    hide CanonicalHeaderKey, OwnOnly;
    var headers := Set(map[], "Cache-Control", "private");
    assert forall name :: |CanonicalHeaderKey(name)| == |name|;
    assert FirstControl(headers) == "private";
    assert ReadsAt("private", "private", 0);
    OwnOnlyExactly(Config(false, {}), Plain(headers));
  }

  /** An empty first Vary line hides the second: `Vary: Cookie` is not compared, and the answer is shared. */
  lemma EmptyVaryLineIsShared()
    ensures var answer := Plain(map["Vary" := ["", "Cookie"]]);
            !VariantSafe(Config(false, {}), answer)
  {
    hide VariantSafe, VaryIsCompared, DisablesCoalescing, IsPersonal;
    var answer := Plain(map["Vary" := ["", "Cookie"]]);
    CookieIsNotCompared(answer);
    NotFlagged(answer);
    FlagIsPersonal(answer);
    VariantSafeExactly(Config(false, {}), answer);
  }

  lemma CookieIsNotCompared(answer: Response)
    requires answer.headers == map["Vary" := ["", "Cookie"]]
    ensures !VaryIsCompared(answer)
  {
    hide CanonicalHeaderKey, CommaSepFields;
    VaryIsCanonical();
    assert Values(answer.headers, "Vary") == ["", "Cookie"] && Get(answer.headers, "Vary") == "";
    FieldsOfTwoLines("", "Cookie");
    assert ["", "Cookie"][1] == "Cookie";
    assert "Cookie" in CommaSepFields(Values(answer.headers, "Vary")) && "*" !in ["", "Cookie"];
  }

  lemma FieldsOfTwoLines(a: string, b: string)
    requires ',' !in a && ',' !in b && TrimSpace(a) == a && TrimSpace(b) == b
    ensures CommaSepFields([a, b]) == [a, b]
  {
    hide TrimSpace, Split;
    SplitWithoutSeparator(a, ',');
    SplitWithoutSeparator(b, ',');
    assert [a, b][..1] == [a] && [a][..0] == [];
    assert CommaSepFields([]) == [];
    assert TrimAll([a]) == [a] && TrimAll([b]) == [b];
    assert CommaSepFields([a]) == [] + [a];
  }

  lemma VaryIsCanonical()
    ensures CanonicalHeaderKey("Vary") == "Vary"
  {
  }

  lemma NotFlagged(answer: Response)
    requires answer.headers.Keys == {"Vary"}
    ensures !DisablesCoalescing(answer)
  {
    hide Get, CandidateHeader, Contains;
    ControlNamesAreLong();
    NoCandidate(answer.headers, CONTROL_HEADERS);
    OnlyVary(answer.headers, "Set-Cookie");
    OccursNowhere("private");
  }

  lemma NoCandidate(headers: Header, candidates: seq<string>)
    requires headers.Keys == {"Vary"} && candidates != [] && forall c :: c in candidates ==> |c| > 4
    ensures CandidateHeader(headers, candidates).1 == ""
  {
    hide Get, CandidateHeader;
    forall c | c in candidates
      ensures Get(headers, c) == ""
    {
      OnlyVary(headers, c);
    }
  }

  lemma OnlyVary(headers: Header, name: string)
    requires headers.Keys == {"Vary"} && |name| != 4
    ensures Get(headers, name) == ""
  {
    assert |CanonicalHeaderKey(name)| == |name|;
  }

  lemma ControlNamesAreLong()
    ensures forall name :: name in CONTROL_HEADERS ==> |name| > 4
  {
  }

  lemma OccursNowhere(sub: string)
    requires sub != ""
    ensures !Contains("", sub)
  {
  }

  /** A request without company: it leads one call and keeps its answer. */
  ghost predicate Alone(s: State) {
    |s.reqs| == 1 &&
    var rq := s.reqs[0];
    && s.flight == (if rq.phase.Flying? then Some(Flight(0, {0})) else None)
    && rq.calls == (if rq.phase.Pending? || rq.phase.PendingSolo? then 0 else 1)
    && (rq.phase.Settling? ==> !rq.phase.shared &&
                               (rq.phase.result.Value? ==> rq.phase.result.requestHeaders == rq.header))
  }

  lemma StepStaysAlone(c: Config, s: State, a: Action)
    requires Alone(s) && Enabled(s, a)
    ensures Alone(Apply(c, s, a))
  {
    hide VaryMismatch, DisablesCoalescing, IsUpstreamFailure;
    var lone: set<nat> := {0};
    assert |lone| == 1;
    if a.Settle? && s.reqs[0].phase.result.Value? {
      LeaderPassesOwnCheck(s.reqs[0].phase.result);
    }
  }

  lemma {:induction false} RunStaysAlone(c: Config, s: State, run: seq<Action>)
    requires Alone(s) && ValidRun(c, s, run)
    ensures Alone(After(c, s, run))
    decreases |run|
  {
    if run != [] {
      StepStaysAlone(c, s, run[0]);
      RunStaysAlone(c, Apply(c, s, run[0]), run[1..]);
    }
  }

  /** A request that no other one shares its key with makes one upstream call, whatever upstream answers. */
  lemma LoneRequestCallsOnce(c: Config, caller: Caller, run: seq<Action>)
    requires ValidRun(c, Start(c, [caller]), run)
    ensures var t := After(c, Start(c, [caller]), run);
            |t.reqs| == 1 && t.reqs[0].calls <= 1 && (t.reqs[0].phase.Finished? ==> t.reqs[0].calls == 1)
  {
    RunStaysAlone(c, Start(c, [caller]), run);
  }

  // ---- What is sent after a failed flight

  /** The handler sends the writer's content: Upstream returned no error, or `Upstream50xError`. */
  predicate IsSent(rq: Request) {
    rq.phase.Finished? && (rq.phase.result.Value? || rq.phase.result.code.Some?)
  }

  /** An upstream answer in the run has this status. */
  ghost predicate Carried(run: seq<Action>, code: int) {
    exists j :: 0 <= j < |run| && AnswersWith(run[j], code)
  }

  predicate AnswersWith(a: Action, code: int) {
    (a.Land? && a.outcome.Answer? && a.outcome.response.code == code) ||
    (a.LandSolo? && a.outcome.Answer? && a.outcome.response.code == code)
  }

  ghost predicate ResultCarried(run: seq<Action>, result: FlightResult) {
    if result.Value? then Carried(run, result.answer.code) else result.code.Some? ==> Carried(run, result.code.value)
  }

  ghost predicate AllCarried(run: seq<Action>, s: State) {
    forall i :: 0 <= i < |s.reqs| ==> RequestCarried(run, s.reqs[i])
  }

  ghost predicate RequestCarried(run: seq<Action>, rq: Request) {
    && (rq.status.Some? ==> Carried(run, rq.status.value))
    && (rq.phase.Settling? ==> ResultCarried(run, rq.phase.result))
    && (rq.phase.Finished? ==> ResultCarried(run, rq.phase.result))
  }

  lemma CarriedLater(run: seq<Action>, a: Action, code: int)
    ensures Carried(run, code) || AnswersWith(a, code) ==> Carried(run + [a], code)
  {
    var longer := run + [a];
    if Carried(run, code) {
      var j :| 0 <= j < |run| && AnswersWith(run[j], code);
      assert longer[j] == run[j];
    } else if AnswersWith(a, code) {
      assert longer[|run|] == a;
    }
  }

  lemma RequestCarriedLater(past: seq<Action>, a: Action, rq: Request)
    requires RequestCarried(past, rq)
    ensures RequestCarried(past + [a], rq)
  {
    hide Carried;
    if rq.status.Some? {
      CarriedLater(past, a, rq.status.value);
    }
    if rq.phase.Settling? || rq.phase.Finished? {
      var result := rq.phase.result;
      if result.Value? {
        CarriedLater(past, a, result.answer.code);
      } else if result.code.Some? {
        CarriedLater(past, a, result.code.value);
      }
    }
  }

  lemma OutcomeCarried(c: Config, past: seq<Action>, s: State, a: Action, r: nat)
    requires (a.Land? || a.LandSolo?) && r < |s.reqs|
    ensures ResultCarried(past + [a], LeaderResult(c, s, r, a.outcome))
    ensures a.outcome.Answer? ==> Carried(past + [a], a.outcome.response.code)
  {
    hide Carried, IsUpstreamFailure;
    if a.outcome.Answer? {
      CarriedLater(past, a, a.outcome.response.code);
    }
  }

  lemma StepCarries(c: Config, past: seq<Action>, s: State, a: Action)
    requires Enabled(s, a) && AllCarried(past, s)
    ensures AllCarried(past + [a], Apply(c, s, a))
  {
    hide VaryMismatch, DisablesCoalescing, LeaderResult, Carried;
    var t := Apply(c, s, a);
    if a.Land? {
      OutcomeCarried(c, past, s, a, s.flight.value.leader);
    } else if a.LandSolo? {
      OutcomeCarried(c, past, s, a, a.r);
    }
    forall i | 0 <= i < |t.reqs|
      ensures RequestCarried(past + [a], t.reqs[i])
    {
      RequestCarriedLater(past, a, s.reqs[i]);
    }
  }

  lemma {:induction false} RunCarries(c: Config, past: seq<Action>, s: State, run: seq<Action>)
    requires ValidRun(c, s, run) && AllCarried(past, s)
    ensures AllCarried(past + run, After(c, s, run))
    decreases |run|
  {
    if run == [] {
      assert past + run == past;
    } else {
      StepCarries(c, past, s, run[0]);
      RunCarries(c, past + [run[0]], Apply(c, s, run[0]), run[1..]);
      assert past + [run[0]] + run[1..] == past + run;
    }
  }

  /** The status of the upstream answer behind a result. */
  function StatusOf(result: FlightResult): Option<int> {
    if result.Value? then Some(result.answer.code) else result.code
  }

  /** What the handler sends. */
  function SentStatus(rq: Request): int {
    if rq.status.Some? then rq.status.value else rq.startStatus
  }

  /** A request whose writer is sent gets the status of an upstream answer, unless it led no flight and the one it
      waited for failed with a 50x: such a request, and no other, is sent its writer as it was on entry. */
  lemma SentWriterIs(c: Config, callers: seq<Caller>, run: seq<Action>, i: nat)
    requires ValidRun(c, Start(c, callers), run) && i < |callers|
    ensures |After(c, Start(c, callers), run).reqs| == |callers|
    ensures var rq := After(c, Start(c, callers), run).reqs[i];
            IsSent(rq) ==>
              && (rq.status.None? <==> rq.phase.result.Failed? && rq.calls == 0)
              && (rq.status.None? ==> rq.buffer == callers[i].buffer && SentStatus(rq) == callers[i].status)
              && (rq.status.Some? ==> Carried(run, rq.status.value) && rq.status == StatusOf(rq.phase.result))
  {
    hide VaryMismatch, DisablesCoalescing, Carried;
    var s := Start(c, callers);
    StartInv(c, callers);
    RunKeepsInv(c, s, run);
    RunCarries(c, [], s, run);
    assert [] + run == run;
    var t := After(c, s, run);
    assert RequestInv(c, t, i) && RequestCarried(run, t.reqs[i]);
  }

  /** If request `i` is sent its writer at the end of the run, Upstream has put a status into it. */
  ghost predicate SentAnswered(c: Config, callers: seq<Caller>, run: seq<Action>, i: nat)
    requires ValidRun(c, Start(c, callers), run) && i < |callers|
  {
    var t := After(c, Start(c, callers), run);
    i < |t.reqs| && IsSent(t.reqs[i]) ==> t.reqs[i].status.Some?
  }

  /** Whatever the requests and the interleaving, every request that is sent its writer is sent an upstream status. */
  ghost predicate AllAnswered(c: Config, answer: Response) {
    forall callers, run, i: nat ::
      ValidRun(c, Start(c, callers), run) && OnlyAnswers(run, answer) && i < |callers| ==>
        SentAnswered(c, callers, run, i)
  }

  /** That holds if and only if coalescing is off, or the answer is no upstream failure. */
  lemma UnansweredExactly(c: Config, answer: Response)
    ensures AllAnswered(c, answer) <==> c.coalescingDisabled || !Is50x(c, answer)
  {
    hide DisablesCoalescing, IsUpstreamFailure, SentAnswered, Is50x;
    FailureIs50x(c, answer);
    if c.coalescingDisabled || !IsUpstreamFailure(answer.code, c.allowedCodes) {
      forall callers, run, i: nat |
        ValidRun(c, Start(c, callers), run) && OnlyAnswers(run, answer) && i < |callers|
        ensures SentAnswered(c, callers, run, i)
      {
        EveryoneIsAnswered(c, callers, run, i, answer);
      }
    } else {
      var run := UnansweredRun(c, answer);
      assert !SentAnswered(c, [Caller(map[], "", 200), Caller(map[], "", 200)], run, 1);
    }
  }

  lemma EveryoneIsAnswered(c: Config, callers: seq<Caller>, run: seq<Action>, i: nat, answer: Response)
    requires ValidRun(c, Start(c, callers), run) && OnlyAnswers(run, answer) && i < |callers|
    requires c.coalescingDisabled || !IsUpstreamFailure(answer.code, c.allowedCodes)
    ensures SentAnswered(c, callers, run, i)
  {
    hide IsUpstreamFailure, DisablesCoalescing, VaryMismatch, Carried;
    SentWriterIs(c, callers, run, i);
    if c.coalescingDisabled {
      RunLeadsAlone(c, Start(c, callers), run);
    } else {
      RunFailsNever(c, Start(c, callers), run, answer);
    }
  }

  /** A request that got beyond its solo call has led one. */
  predicate LedBefore(rq: Request) {
    !rq.phase.Pending? && !rq.phase.Flying? && (rq.phase.PendingSolo? || rq.calls > 0)
  }

  /** With coalescing off every request leads its own calls. */
  lemma {:induction false} RunLeadsAlone(c: Config, s: State, run: seq<Action>)
    requires c.coalescingDisabled && ValidRun(c, s, run) && s.flight.None?
    requires forall i :: 0 <= i < |s.reqs| ==> LedBefore(s.reqs[i])
    ensures forall i :: 0 <= i < |After(c, s, run).reqs| ==> LedBefore(After(c, s, run).reqs[i])
    decreases |run|
  {
    hide VaryMismatch, DisablesCoalescing, IsUpstreamFailure;
    if run != [] {
      var t := Apply(c, s, run[0]);
      forall i | 0 <= i < |t.reqs|
        ensures LedBefore(t.reqs[i])
      {
        assert LedBefore(s.reqs[i]);
      }
      RunLeadsAlone(c, t, run[1..]);
    }
  }

  /** The request has not been given a 50x. */
  predicate NotFailing(rq: Request) {
    rq.phase.Settling? || rq.phase.Finished? ==> rq.phase.result.Value? || rq.phase.result.code.None?
  }

  /** Answers that are no upstream failures do not end a flight with a 50x. */
  lemma {:induction false} RunFailsNever(c: Config, s: State, run: seq<Action>, answer: Response)
    requires ValidRun(c, s, run) && OnlyAnswers(run, answer) && !IsUpstreamFailure(answer.code, c.allowedCodes)
    requires forall i :: 0 <= i < |s.reqs| ==> NotFailing(s.reqs[i])
    ensures forall i :: 0 <= i < |After(c, s, run).reqs| ==> NotFailing(After(c, s, run).reqs[i])
    decreases |run|
  {
    hide VaryMismatch, DisablesCoalescing, IsUpstreamFailure;
    if run != [] {
      var t := Apply(c, s, run[0]);
      forall i | 0 <= i < |t.reqs|
        ensures NotFailing(t.reqs[i])
      {
        assert NotFailing(s.reqs[i]);
      }
      RunFailsNever(c, t, run[1..], answer);
    }
  }

  /** Two requests share a flight with a failing answer: the second one's writer is sent as it was. */
  lemma UnansweredRun(c: Config, answer: Response) returns (run: seq<Action>)
    requires !c.coalescingDisabled && IsUpstreamFailure(answer.code, c.allowedCodes)
    ensures var callers := [Caller(map[], "", 200), Caller(map[], "", 200)];
            ValidRun(c, Start(c, callers), run) && OnlyAnswers(run, answer) &&
            !SentAnswered(c, callers, run, 1) &&
            var t := After(c, Start(c, callers), run);
            |t.reqs| == 2 && IsSent(t.reqs[1]) && SentStatus(t.reqs[1]) == 200 && t.reqs[1].buffer == ""
  {
    hide VaryMismatch, DisablesCoalescing, IsUpstreamFailure;
    run := TwoEnter(c, map[], map[], answer);
  }

  /** So the second one of two requests that share a 503 is sent status 200 and no body. */
  lemma FollowerOfFailure() returns (run: seq<Action>)
    ensures var c, callers := Config(false, {}), [Caller(map[], "", 200), Caller(map[], "", 200)];
            ValidRun(c, Start(c, callers), run) && OnlyAnswers(run, Plain(map[]).(code := 503)) &&
            var t := After(c, Start(c, callers), run);
            |t.reqs| == 2 && IsSent(t.reqs[1]) && SentStatus(t.reqs[1]) == 200 && t.reqs[1].buffer == ""
  {
    run := UnansweredRun(Config(false, {}), Plain(map[]).(code := 503));
  }

  // ---- Every call returns

  function Weight(p: Phase): nat {
    match p
    case Finished(_) => 0
    case Settling(_, _, solo) => if solo then 1 else 5
    case FlyingSolo => 2
    case PendingSolo => 3
    case Pending => 4
    case Flying => 6
  }

  /** How many requests have not led a flight on the shared key. */
  function Unled(reqs: seq<Request>): nat {
    if reqs == [] then 0
    else Unled(reqs[..|reqs| - 1]) + if reqs[|reqs| - 1].ledShared then 0 else 1
  }

  /** A bound on the flights request `i` can still join. */
  function Joinable(s: State, i: nat): nat {
    Unled(s.reqs) + if s.flight.Some? && i !in s.flight.value.members then 1 else 0
  }

  function Cost(s: State, i: nat): nat
    requires i < |s.reqs|
  {
    3 * Joinable(s, i) + Weight(s.reqs[i].phase)
  }

  function TotalCost(s: State, n: nat): nat
    requires n <= |s.reqs|
  {
    if n == 0 then 0 else TotalCost(s, n - 1) + Cost(s, n - 1)
  }

  lemma {:induction false} UnledUpdate(reqs: seq<Request>, r: nat, rq: Request)
    requires r < |reqs|
    ensures Unled(reqs[r := rq]) + (if rq.ledShared then 1 else 0) == Unled(reqs) + (if reqs[r].ledShared then 1 else 0)
  {
    var n := |reqs| - 1;
    if r < n {
      UnledUpdate(reqs[..n], r, rq);
      assert reqs[r := rq][..n] == reqs[..n][r := rq];
    } else {
      assert reqs[r := rq][..n] == reqs[..n];
    }
  }

  lemma {:induction false} UnledSame(a: seq<Request>, b: seq<Request>)
    requires |a| == |b| && forall i :: 0 <= i < |a| ==> a[i].ledShared == b[i].ledShared
    ensures Unled(a) == Unled(b)
  {
    if a != [] {
      UnledSame(a[..|a| - 1], b[..|b| - 1]);
    }
  }

  lemma {:induction false} TotalLess(s: State, t: State, n: nat, k: nat)
    requires |t.reqs| == |s.reqs| && n <= |s.reqs|
    requires forall i :: 0 <= i < n ==> Cost(t, i) <= Cost(s, i)
    ensures TotalCost(t, n) <= TotalCost(s, n)
    ensures k < n && Cost(t, k) < Cost(s, k) ==> TotalCost(t, n) < TotalCost(s, n)
  {
    if n > 0 {
      TotalLess(s, t, n - 1, k);
    }
  }

  /** The request whose cost drops in a step. */
  function Mover(s: State, a: Action): nat
    requires Enabled(s, a)
  {
    match a
    case Land(_) => s.flight.value.leader
    case _ => a.r
  }

  lemma StepCosts(c: Config, s: State, a: Action)
    requires Inv(c, s) && Enabled(s, a)
    ensures var t := Apply(c, s, a);
            TotalCost(t, |t.reqs|) < TotalCost(s, |s.reqs|)
  {
    hide VaryMismatch, DisablesCoalescing, IsUpstreamFailure, TotalCost, Unled, Delivered, FailedFairly,
      LeaderBuffer, LeaderStatus;
    var t := Apply(c, s, a);
    var k := Mover(s, a);
    assert RequestInv(c, s, k);
    match a {
      case Land(_) => UnledSame(t.reqs, s.reqs);
      case _ => UnledUpdate(s.reqs, a.r, t.reqs[a.r]);
    }
    if a.Settle? && s.reqs[a.r].phase.result.Value? {
      LeaderPassesOwnCheck(s.reqs[a.r].phase.result);
    }
    forall i | 0 <= i < |s.reqs|
      ensures Cost(t, i) <= Cost(s, i) && (i == k ==> Cost(t, i) < Cost(s, i))
    {
      assert RequestInv(c, s, i);
    }
    TotalLess(s, t, |s.reqs|, k);
  }

  lemma {:induction false} RunCosts(c: Config, s: State, run: seq<Action>)
    requires Inv(c, s) && ValidRun(c, s, run)
    ensures |run| <= TotalCost(s, |s.reqs|)
    decreases |run|
  {
    if run != [] {
      StepKeepsInv(c, s, run[0]);
      StepCosts(c, s, run[0]);
      RunCosts(c, Apply(c, s, run[0]), run[1..]);
    }
  }

  lemma {:induction false} StartCost(c: Config, callers: seq<Caller>, n: nat)
    requires n <= |callers|
    ensures TotalCost(Start(c, callers), n) <= n * (3 * |callers| + 4)
  {
    if n > 0 {
      var s := Start(c, callers);
      StartCost(c, callers, n - 1);
      UnledAtMost(s.reqs);
      assert Cost(s, n - 1) <= 3 * |callers| + 4;
      assert n * (3 * |callers| + 4) == (n - 1) * (3 * |callers| + 4) + (3 * |callers| + 4);
    }
  }

  lemma {:induction false} UnledAtMost(reqs: seq<Request>)
    ensures Unled(reqs) <= |reqs|
  {
    if reqs != [] {
      UnledAtMost(reqs[..|reqs| - 1]);
    }
  }

  /** Someone can always take a step until every call has returned. */
  lemma NoDeadlock(c: Config, s: State)
    requires Inv(c, s) && forall a :: !Enabled(s, a)
    ensures forall i :: 0 <= i < |s.reqs| ==> s.reqs[i].phase.Finished?
  {
    forall i | 0 <= i < |s.reqs|
      ensures s.reqs[i].phase.Finished?
    {
      assert RequestInv(c, s, i);
      assert !Enabled(s, Enter(i)) && !Enabled(s, EnterSolo(i)) && !Enabled(s, Settle(i));
      assert !Enabled(s, LandSolo(i, NextError(""))) && !Enabled(s, Land(NextError("")));
    }
  }

  /** For any n concurrent requests, every interleaving has at most n(3n + 4) steps, and one that cannot be
      continued has every `Upstream` call returned. */
  lemma CoalescingTerminates(c: Config, callers: seq<Caller>, run: seq<Action>)
    requires ValidRun(c, Start(c, callers), run)
    ensures |run| <= |callers| * (3 * |callers| + 4)
    ensures (forall a :: !Enabled(After(c, Start(c, callers), run), a)) ==>
              forall i :: 0 <= i < |After(c, Start(c, callers), run).reqs| ==>
                After(c, Start(c, callers), run).reqs[i].phase.Finished?
  {
    var s := Start(c, callers);
    StartInv(c, callers);
    RunCosts(c, s, run);
    StartCost(c, callers, |callers|);
    RunKeepsInv(c, s, run);
    if forall a :: !Enabled(After(c, s, run), a) {
      NoDeadlock(c, After(c, s, run));
    }
  }
}
