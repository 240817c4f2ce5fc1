/** Who owns the pooled buffer of a request: the handler `ServeHTTP`, then possibly the goroutine that runs
    `Upstream`. Any number of requests share one pool; every atomic access is one step. */
module BufferPool {
  type Buffer = nat

  /** The handler: it holds a buffer, may answer from the cache, or waits for the context or the goroutine. */
  datatype Handler = Outside | Serving | Waiting | Leaving | Returned

  /** The goroutine: `Loaded` after it read `bufPoolOwned`, `Sent` after it sent on the channel. */
  datatype Worker = NoWorker | Running | Upstreamed | Loaded(mustPut: bool) | Sent

  datatype Request = Request(handler: Handler, worker: Worker, owned: bool, buffer: Buffer, puts: nat)

  /** `made` is every buffer the pool's New has made. */
  datatype State = State(reqs: seq<Request>, pool: multiset<Buffer>, made: set<Buffer>)

  datatype Action =
    | Take(r: nat, b: Buffer)     // bufPool.Get: a pooled buffer or a new one
    | ServeFromCache(r: nat)      // an answer without a goroutine
    | Launch(r: nat)
    | FinishUpstream(r: nat)
    | LoadOwned(r: nat)           // the goroutine reads the flag after Upstream
    | PutOrSkip(r: nat)           // ... and acts on what it read
    | ContextDone(r: nat)         // the handler stores false: cancelled or past the deadline
    | Receive(r: nat)             // the handler receives the goroutine's result
    | RunDefer(r: nat)            // the handler's deferred function reads the flag
    | Collect(b: Buffer)          // the runtime drops a pooled buffer

  predicate Enabled(s: State, a: Action) {
    match a
    case Take(r, b) => r < |s.reqs| && s.reqs[r].handler.Outside? && (b in s.pool || b !in s.made)
    case ServeFromCache(r) => r < |s.reqs| && s.reqs[r].handler.Serving?
    case Launch(r) => r < |s.reqs| && s.reqs[r].handler.Serving?
    case FinishUpstream(r) => r < |s.reqs| && s.reqs[r].worker.Running?
    case LoadOwned(r) => r < |s.reqs| && s.reqs[r].worker.Upstreamed?
    case PutOrSkip(r) => r < |s.reqs| && s.reqs[r].worker.Loaded?
    case ContextDone(r) => r < |s.reqs| && s.reqs[r].handler.Waiting?
    case Receive(r) => r < |s.reqs| && s.reqs[r].handler.Waiting? && s.reqs[r].worker.Sent?
    case RunDefer(r) => r < |s.reqs| && s.reqs[r].handler.Leaving?
    case Collect(b) => b in s.pool
  }

  function Put(s: State, r: nat, rq: Request): State
    requires r < |s.reqs|
  {
    State(s.reqs[r := rq.(puts := rq.puts + 1)], s.pool + multiset{rq.buffer}, s.made)
  }

  function Apply(s: State, a: Action): (t: State)
    requires Enabled(s, a)
    ensures |t.reqs| == |s.reqs|
  {
    match a
    case Take(r, b) =>
      State(s.reqs[r := s.reqs[r].(handler := Serving, buffer := b, owned := true)], s.pool - multiset{b}, s.made + {b})
    case ServeFromCache(r) => s.(reqs := s.reqs[r := s.reqs[r].(handler := Leaving)])
    case Launch(r) => s.(reqs := s.reqs[r := s.reqs[r].(handler := Waiting, worker := Running)])
    case FinishUpstream(r) => s.(reqs := s.reqs[r := s.reqs[r].(worker := Upstreamed)])
    case LoadOwned(r) => s.(reqs := s.reqs[r := s.reqs[r].(worker := Loaded(!s.reqs[r].owned))])
    case PutOrSkip(r) =>
      var rq := s.reqs[r].(worker := Sent);
      if s.reqs[r].worker.mustPut then Put(s, r, rq) else s.(reqs := s.reqs[r := rq])
    case ContextDone(r) => s.(reqs := s.reqs[r := s.reqs[r].(owned := false, handler := Leaving)])
    case Receive(r) => s.(reqs := s.reqs[r := s.reqs[r].(handler := Leaving)])
    case RunDefer(r) =>
      var rq := s.reqs[r].(handler := Returned);
      if rq.owned then Put(s, r, rq) else s.(reqs := s.reqs[r := rq])
    case Collect(b) => s.(pool := s.pool - multiset{b})
  }

  function Start(n: nat): State {
    State(seq(n, _ => Request(Outside, NoWorker, true, 0, 0)), multiset{}, {})
  }

  predicate ValidRun(s: State, run: seq<Action>)
    decreases |run|
  {
    run == [] || (Enabled(s, run[0]) && ValidRun(Apply(s, run[0]), run[1..]))
  }

  function After(s: State, run: seq<Action>): State
    requires ValidRun(s, run)
    decreases |run|
  {
    if run == [] then s else After(Apply(s, run[0]), run[1..])
  }

  // ---- Invariant

  /** The request took a buffer and nobody has put it back. */
  predicate HasBuffer(rq: Request) {
    !rq.handler.Outside? && rq.puts == 0
  }

  /** Upstream, or the handler up to its deferred function, may still touch the buffer. */
  predicate InUse(rq: Request) {
    rq.worker in {Running, Upstreamed} || rq.handler in {Serving, Waiting} || (rq.handler.Leaving? && rq.owned)
  }

  ghost predicate RequestInv(rq: Request) {
    && (rq.worker == Loaded(true) ==> !rq.owned)
    && match rq.handler
       case Outside => rq.worker.NoWorker? && rq.puts == 0
       case Serving => rq.worker.NoWorker? && rq.puts == 0 && rq.owned
       case Waiting => !rq.worker.NoWorker? && rq.puts == 0 && rq.owned
       case Leaving =>
         if rq.owned then rq.worker in {NoWorker, Sent} && rq.puts == 0
         else !rq.worker.NoWorker? && rq.puts <= (if rq.worker.Sent? then 1 else 0)
       case Returned =>
         if rq.owned then rq.worker in {NoWorker, Sent} && rq.puts == 1
         else !rq.worker.NoWorker? && rq.puts <= (if rq.worker.Sent? then 1 else 0)
  }

  ghost predicate Inv(s: State) {
    && (forall i :: 0 <= i < |s.reqs| ==> RequestInv(s.reqs[i]))
    && (forall i :: 0 <= i < |s.reqs| && HasBuffer(s.reqs[i]) ==>
          s.reqs[i].buffer in s.made && s.reqs[i].buffer !in s.pool)
    && (forall i, j :: 0 <= i < j < |s.reqs| && HasBuffer(s.reqs[i]) && HasBuffer(s.reqs[j]) ==>
          s.reqs[i].buffer != s.reqs[j].buffer)
    && (forall b :: b in s.pool ==> b in s.made)
    && (forall b :: s.pool[b] <= 1)
  }

  lemma PutKeepsInv(s: State, r: nat, rq: Request)
    requires Inv(s) && r < |s.reqs| && HasBuffer(s.reqs[r]) && rq.buffer == s.reqs[r].buffer
    requires RequestInv(rq.(puts := rq.puts + 1))
    ensures Inv(Put(s, r, rq))
  {
  }

  /** A step that only moves one request on, without taking or putting a buffer. */
  lemma MoveKeepsInv(s: State, r: nat, rq: Request)
    requires Inv(s) && r < |s.reqs| && RequestInv(rq)
    requires rq.buffer == s.reqs[r].buffer && HasBuffer(rq) == HasBuffer(s.reqs[r])
    ensures Inv(s.(reqs := s.reqs[r := rq]))
  {
  }

  lemma TakeKeepsInv(s: State, r: nat, b: Buffer)
    requires Inv(s) && Enabled(s, Take(r, b))
    ensures Inv(Apply(s, Take(r, b)))
  {
    var t := Apply(s, Take(r, b));
    forall i, j | 0 <= i < j < |t.reqs| && HasBuffer(t.reqs[i]) && HasBuffer(t.reqs[j])
      ensures t.reqs[i].buffer != t.reqs[j].buffer
    {
      assert i != r ==> HasBuffer(s.reqs[i]) && s.reqs[i].buffer != b;
      assert j != r ==> HasBuffer(s.reqs[j]) && s.reqs[j].buffer != b;
    }
  }

  predicate PutsBack(s: State, a: Action)
    requires Enabled(s, a)
  {
    if a.PutOrSkip? then s.reqs[a.r].worker.mustPut else a.RunDefer? && s.reqs[a.r].owned
  }

  /** A step leaves its own request in order, and puts the buffer back only if it was not put back before. */
  lemma StepKeepsOwnInv(s: State, a: Action)
    requires Inv(s) && Enabled(s, a) && !a.Take? && !a.Collect?
    ensures var rq, next := s.reqs[a.r], Apply(s, a).reqs[a.r];
            RequestInv(next) && next.buffer == rq.buffer &&
            if PutsBack(s, a) then HasBuffer(rq) && next.puts == rq.puts + 1 else HasBuffer(next) == HasBuffer(rq)
  {
    assert RequestInv(s.reqs[a.r]);
  }

  lemma StepKeepsInv(s: State, a: Action)
    requires Inv(s) && Enabled(s, a)
    ensures Inv(Apply(s, a))
  {
    if a.Take? {
      TakeKeepsInv(s, a.r, a.b);
    } else if !a.Collect? {
      hide Inv, RequestInv;
      var r, t := a.r, Apply(s, a);
      StepKeepsOwnInv(s, a);
      if PutsBack(s, a) {
        PutKeepsInv(s, r, t.reqs[r].(puts := s.reqs[r].puts));
      } else {
        MoveKeepsInv(s, r, t.reqs[r]);
      }
    }
  }

  lemma {:induction false} RunKeepsInv(s: State, run: seq<Action>)
    requires Inv(s) && ValidRun(s, run)
    ensures Inv(After(s, run)) && |After(s, run).reqs| == |s.reqs|
    decreases |run|
  {
    if run != [] {
      StepKeepsInv(s, run[0]);
      RunKeepsInv(Apply(s, run[0]), run[1..]);
    }
  }

  /** In every interleaving of any number of requests: a buffer is put back at most once per request and never
      while that request's Upstream may touch it, or its handler, up to sending the body and the deferred reset;
      no two requests ever share a buffer; no buffer in use is in the pool, and none is there twice. */
  lemma BuffersAreNeverShared(n: nat, run: seq<Action>, i: nat, j: nat)
    requires ValidRun(Start(n), run) && i < n && j < n
    ensures var t := After(Start(n), run);
            && |t.reqs| == n
            && t.reqs[i].puts <= 1
            && (InUse(t.reqs[i]) ==> t.reqs[i].puts == 0 && t.reqs[i].buffer !in t.pool)
            && (InUse(t.reqs[i]) && InUse(t.reqs[j]) && i != j ==> t.reqs[i].buffer != t.reqs[j].buffer)
            && forall b :: t.pool[b] <= 1
  {
    hide Inv, InUse;
    StartInv(n);
    RunKeepsInv(Start(n), run);
    InUseMeans(After(Start(n), run), i);
    InUseMeans(After(Start(n), run), j);
    if i != j && InUse(After(Start(n), run).reqs[i]) && InUse(After(Start(n), run).reqs[j]) {
      BuffersDiffer(After(Start(n), run), i, j);
    }
  }

  lemma StartInv(n: nat)
    ensures Inv(Start(n)) && |Start(n).reqs| == n
  {
  }

  lemma InUseMeans(t: State, i: nat)
    requires Inv(t) && i < |t.reqs|
    ensures t.reqs[i].puts <= 1 && (InUse(t.reqs[i]) ==> HasBuffer(t.reqs[i]) && t.reqs[i].buffer !in t.pool)
    ensures forall b :: t.pool[b] <= 1
  {
    assert RequestInv(t.reqs[i]);
  }

  lemma BuffersDiffer(t: State, i: nat, j: nat)
    requires Inv(t) && i < |t.reqs| && j < |t.reqs| && i != j && HasBuffer(t.reqs[i]) && HasBuffer(t.reqs[j])
    ensures t.reqs[i].buffer != t.reqs[j].buffer
  {
  }

  // ---- When a buffer is lost to the pool

  /** The goroutine reads the flag as still owned before the handler gives the buffer up. */
  predicate LoadsBeforeHandOver(s: State, a: Action, i: nat) {
    a == ContextDone(i) && Enabled(s, a) && s.reqs[i].worker in {Loaded(false), Sent}
  }

  predicate HandsOverLate(s: State, run: seq<Action>, i: nat)
    requires ValidRun(s, run)
    decreases |run|
  {
    run != [] && (LoadsBeforeHandOver(s, run[0], i) || HandsOverLate(Apply(s, run[0]), run[1..], i))
  }

  /** What decides, at any moment, whether request `i` can still get its buffer back. */
  ghost predicate Lost(rq: Request) {
    rq.handler in {Leaving, Returned} && !rq.owned && rq.puts == 0 && rq.worker in {Loaded(false), Sent}
  }

  lemma StepLoses(s: State, a: Action, i: nat)
    requires Inv(s) && Enabled(s, a) && i < |s.reqs|
    ensures Lost(Apply(s, a).reqs[i]) <==> Lost(s.reqs[i]) || LoadsBeforeHandOver(s, a, i)
  {
    assert RequestInv(s.reqs[i]);
  }

  lemma {:induction false} RunLoses(s: State, run: seq<Action>, i: nat)
    requires Inv(s) && ValidRun(s, run) && i < |s.reqs| && |After(s, run).reqs| == |s.reqs|
    ensures Lost(After(s, run).reqs[i]) <==> Lost(s.reqs[i]) || HandsOverLate(s, run, i)
    decreases |run|
  {
    if run != [] {
      StepKeepsInv(s, run[0]);
      StepLoses(s, run[0], i);
      RunLoses(Apply(s, run[0]), run[1..], i);
    }
  }

  /** Once handler and goroutine are done, the buffer was put back exactly once, unless the handler gave it up
      after the goroutine had read the flag; then, and only then, nobody puts it back. */
  lemma PutBackExactlyOnceUnlessLate(n: nat, run: seq<Action>, i: nat)
    requires ValidRun(Start(n), run) && i < n && |After(Start(n), run).reqs| == n
    requires var rq := After(Start(n), run).reqs[i]; rq.handler.Returned? && rq.worker in {NoWorker, Sent}
    ensures After(Start(n), run).reqs[i].puts == if HandsOverLate(Start(n), run, i) then 0 else 1
  {
    RunKeepsInv(Start(n), run);
    RunLoses(Start(n), run, i);
    assert RequestInv(After(Start(n), run).reqs[i]);
  }

  lemma Prepend(s: State, a: Action, t: State, run: seq<Action>)
    requires Enabled(s, a) && Apply(s, a) == t && ValidRun(t, run)
    ensures ValidRun(s, [a] + run) && After(s, [a] + run) == After(t, run)
    ensures HandsOverLate(s, [a] + run, 0) <==> LoadsBeforeHandOver(s, a, 0) || HandsOverLate(t, run, 0)
  {
    assert ([a] + run)[1..] == run;
  }

  function Single(handler: Handler, worker: Worker, owned: bool): State {
    State([Request(handler, worker, owned, 7, 0)], multiset{}, {7})
  }

  /** Such a run exists: the goroutine loads the flag, the context ends, and neither side puts the buffer back. */
  lemma LateHandOver() returns (run: seq<Action>)
    ensures ValidRun(Start(1), run) && HandsOverLate(Start(1), run, 0)
    ensures After(Start(1), run) == Single(Returned, Sent, false)
  {
    assert Start(1).reqs == [Request(Outside, NoWorker, true, 0, 0)];
    run := [];
    Prepend(Single(Leaving, Sent, false), RunDefer(0), Single(Returned, Sent, false), run);
    run := [RunDefer(0)] + run;
    Prepend(Single(Leaving, Loaded(false), false), PutOrSkip(0), Single(Leaving, Sent, false), run);
    run := [PutOrSkip(0)] + run;
    Prepend(Single(Waiting, Loaded(false), true), ContextDone(0), Single(Leaving, Loaded(false), false), run);
    run := [ContextDone(0)] + run;
    Prepend(Single(Waiting, Upstreamed, true), LoadOwned(0), Single(Waiting, Loaded(false), true), run);
    run := [LoadOwned(0)] + run;
    Prepend(Single(Waiting, Running, true), FinishUpstream(0), Single(Waiting, Upstreamed, true), run);
    run := [FinishUpstream(0)] + run;
    Prepend(Single(Serving, NoWorker, true), Launch(0), Single(Waiting, Running, true), run);
    run := [Launch(0)] + run;
    Prepend(Start(1), Take(0, 7), Single(Serving, NoWorker, true), run);
    run := [Take(0, 7)] + run;
  }
}
