/** The lock around mapping eviction: `tryAcquireEvictionLock` called by any number of instances that share one
    storer, as timed steps. Times are milliseconds of the shared clock. Each access to the storer is one step. */
module EvictionLock {
  type Holder = nat

  /** `evictionLockTTL`: two minutes. */
  const LOCK_TTL := 120_000
  /** The sleep between writing the lock and reading it back. */
  const VERIFY_DELAY := 10

  /** The value under the lock key: who wrote it, until when it is locked, and when the storer drops it. */
  datatype Lock = NoLock | Lock(holder: Holder, lockedUntil: int, invalidAt: int)

  /** Where a call of `tryAcquireEvictionLock` stands. */
  datatype Phase =
    | Idle
    | Started(now: int)                       // the clock was read
    | Checked(start: int, getAt: int)         // Get found no lock that was valid at `start`
    | Written(expiry: int, setAt: int)        // Set done, sleeping

  /** `lease` is the end of the lock that the last successful call of this instance relied on. */
  datatype Caller = Caller(phase: Phase, lease: int)

  datatype State = State(now: int, lock: Lock, callers: map<Holder, Caller>)

  datatype Action =
    | Tick(elapsed: nat)
    | ReadClock(h: Holder)
    | Look(h: Holder)
    | Write(h: Holder)
    | WriteFails(h: Holder)
    | Verify(h: Holder)

  /** The lock's expiry is printed with a resolution of one second. */
  function LeaseEnd(start: int): (end: int)
    ensures start + 119_000 < end <= start + 120_000 && end % 1000 == 0
  {
    (start + LOCK_TTL) / 1000 * 1000
  }

  /** What `storer.Get` returns for the lock key. */
  function Visible(s: State): Lock {
    if s.lock.Lock? && s.now < s.lock.invalidAt then s.lock else NoLock
  }

  /** `gap` bounds the time from a caller's Get to its Set. */
  predicate Enabled(gap: nat, s: State, a: Action) {
    match a
    case Tick(_) => true
    case ReadClock(h) => h in s.callers && s.callers[h].phase.Idle?
    case Look(h) => h in s.callers && s.callers[h].phase.Started?
    case Write(h) => h in s.callers && s.callers[h].phase.Checked? && s.now - s.callers[h].phase.getAt <= gap
    case WriteFails(h) => h in s.callers && s.callers[h].phase.Checked?
    case Verify(h) =>
      h in s.callers && s.callers[h].phase.Written? && s.callers[h].phase.setAt + VERIFY_DELAY <= s.now
  }

  function With(s: State, h: Holder, c: Caller): State {
    s.(callers := s.callers[h := c])
  }

  function Apply(gap: nat, s: State, a: Action): State
    requires Enabled(gap, s, a)
  {
    match a
    case Tick(elapsed) => s.(now := s.now + elapsed)
    case ReadClock(h) => With(s, h, s.callers[h].(phase := Started(s.now)))
    case Look(h) =>
      var c, seen := s.callers[h], Visible(s);
      if seen.Lock? && c.phase.now < seen.lockedUntil then
        With(s, h, Caller(Idle, if seen.holder == h then seen.lockedUntil else c.lease))
      else
        With(s, h, c.(phase := Checked(c.phase.now, s.now)))
    case Write(h) =>
      var end := LeaseEnd(s.callers[h].phase.start);
      With(s, h, s.callers[h].(phase := Written(end, s.now))).(lock := Lock(h, end, s.now + LOCK_TTL))
    case WriteFails(h) => With(s, h, s.callers[h].(phase := Idle))
    case Verify(h) =>
      var c, seen := s.callers[h], Visible(s);
      var won := seen.Lock? && seen.holder == h && seen.lockedUntil == c.phase.expiry;
      With(s, h, Caller(Idle, if won then c.phase.expiry else c.lease))
  }

  predicate ValidRun(gap: nat, s: State, run: seq<Action>)
    decreases |run|
  {
    run == [] || (Enabled(gap, s, run[0]) && ValidRun(gap, Apply(gap, s, run[0]), run[1..]))
  }

  function After(gap: nat, s: State, run: seq<Action>): State
    requires ValidRun(gap, s, run)
    decreases |run|
  {
    if run == [] then s else After(gap, Apply(gap, s, run[0]), run[1..])
  }

  ghost predicate Initial(s: State) {
    s.lock == NoLock && forall h :: h in s.callers ==> s.callers[h].phase.Idle? && s.callers[h].lease <= s.now
  }

  /** `h` got the lock and it has not expired. */
  predicate Holds(s: State, h: Holder) {
    h in s.callers && s.now < s.callers[h].lease
  }

  ghost predicate Exclusive(s: State) {
    forall g, h :: Holds(s, g) && Holds(s, h) ==> g == h
  }

  // ---- The invariant

  function WrittenAt(lock: Lock): int
    requires lock.Lock?
  {
    lock.invalidAt - LOCK_TTL
  }

  ghost predicate CallerInv(s: State, h: Holder)
    requires h in s.callers
  {
    var c, lock := s.callers[h], s.lock;
    // an unexpired lease is the stored lock, verified after the delay
    && (s.now < c.lease ==>
          lock.Lock? && lock.holder == h && lock.lockedUntil == c.lease && WrittenAt(lock) + VERIFY_DELAY <= s.now)
    && match c.phase
       case Idle => OwnLockVerified(s, h)
       case Started(start) => start <= s.now && OwnLockVerified(s, h)
       case Checked(start, getAt) =>
         // whatever is stored was expired when this caller looked, or was written since
         start <= getAt <= s.now && OwnLockVerified(s, h) &&
         (lock.Lock? ==> lock.lockedUntil <= getAt || getAt <= WrittenAt(lock))
       case Written(expiry, setAt) =>
         setAt <= s.now && (lock.Lock? && lock.holder == h ==> lock == Lock(h, expiry, setAt + LOCK_TTL))
  }

  /** Outside the window between Set and the read back, a stored lock of `h` that is still valid was verified. */
  ghost predicate OwnLockVerified(s: State, h: Holder)
    requires h in s.callers
  {
    s.lock.Lock? && s.lock.holder == h && s.now < s.lock.lockedUntil ==>
      s.callers[h].lease == s.lock.lockedUntil && WrittenAt(s.lock) + VERIFY_DELAY <= s.now
  }

  ghost predicate Inv(s: State) {
    && (s.lock.Lock? ==> s.lock.lockedUntil <= s.lock.invalidAt && WrittenAt(s.lock) <= s.now)
    && forall h :: h in s.callers ==> CallerInv(s, h)
  }

  lemma InvIsExclusive(s: State)
    requires Inv(s)
    ensures Exclusive(s)
  {
    forall g, h | Holds(s, g) && Holds(s, h)
      ensures g == h
    {
      assert CallerInv(s, g) && CallerInv(s, h);
    }
  }

  /** A caller that may still write never meets an unexpired lease. */
  lemma NobodyHoldsAtWrite(gap: nat, s: State, h: Holder, g: Holder)
    requires gap < VERIFY_DELAY && Inv(s) && Enabled(gap, s, Write(h)) && g in s.callers
    ensures !Holds(s, g)
  {
    assert CallerInv(s, h) && CallerInv(s, g);
  }

  lemma StepKeepsInv(gap: nat, s: State, a: Action)
    requires gap < VERIFY_DELAY && Inv(s) && Enabled(gap, s, a)
    ensures Inv(Apply(gap, s, a))
  {
    hide CallerInv;
    var t := Apply(gap, s, a);
    forall g | g in t.callers
      ensures CallerInv(t, g)
    {
      match a {
        case Write(h) => WriteKeepsCaller(gap, s, h, g);
        case Look(h) => LookKeepsCaller(gap, s, h, g);
        case Verify(h) => VerifyKeepsCaller(gap, s, h, g);
        case _ => OtherKeepsCaller(gap, s, a, g);
      }
    }
    if a.Write? {
      CheckedIsPast(s, a.h);
    }
  }

  lemma CheckedIsPast(s: State, h: Holder)
    requires h in s.callers && s.callers[h].phase.Checked? && CallerInv(s, h)
    ensures s.callers[h].phase.start <= s.callers[h].phase.getAt <= s.now
  {
  }

  lemma WriteKeepsCaller(gap: nat, s: State, h: Holder, g: Holder)
    requires gap < VERIFY_DELAY && Inv(s) && Enabled(gap, s, Write(h)) && g in s.callers
    ensures CallerInv(Apply(gap, s, Write(h)), g)
  {
    NobodyHoldsAtWrite(gap, s, h, g);
    assert CallerInv(s, h) && CallerInv(s, g);
  }

  lemma LookKeepsCaller(gap: nat, s: State, h: Holder, g: Holder)
    requires Inv(s) && Enabled(gap, s, Look(h)) && g in s.callers
    ensures CallerInv(Apply(gap, s, Look(h)), g)
  {
    assert CallerInv(s, h) && CallerInv(s, g);
  }

  lemma VerifyKeepsCaller(gap: nat, s: State, h: Holder, g: Holder)
    requires Inv(s) && Enabled(gap, s, Verify(h)) && g in s.callers
    ensures CallerInv(Apply(gap, s, Verify(h)), g)
  {
    assert CallerInv(s, h) && CallerInv(s, g);
  }

  lemma OtherKeepsCaller(gap: nat, s: State, a: Action, g: Holder)
    requires Inv(s) && Enabled(gap, s, a) && g in s.callers
    requires a.Tick? || a.ReadClock? || a.WriteFails?
    ensures CallerInv(Apply(gap, s, a), g)
  {
    assert CallerInv(s, g);
  }

  lemma {:induction false} RunKeepsInv(gap: nat, s: State, run: seq<Action>)
    requires gap < VERIFY_DELAY && Inv(s) && ValidRun(gap, s, run)
    ensures Inv(After(gap, s, run))
    decreases |run|
  {
    if run != [] {
      StepKeepsInv(gap, s, run[0]);
      RunKeepsInv(gap, Apply(gap, s, run[0]), run[1..]);
    }
  }

  // ---- Mutual exclusion, and exactly when

  /** No run of any number of instances, each within `gap` from Get to Set, has two holders at one instant. */
  ghost predicate SafeWithin(gap: nat) {
    forall s, run :: Initial(s) && ValidRun(gap, s, run) ==> Exclusive(After(gap, s, run))
  }

  lemma LockIsExclusive(gap: nat)
    requires gap < VERIFY_DELAY
    ensures SafeWithin(gap)
  {
    forall s, run | Initial(s) && ValidRun(gap, s, run)
      ensures Exclusive(After(gap, s, run))
    {
      assert Inv(s);
      RunKeepsInv(gap, s, run);
      InvIsExclusive(After(gap, s, run));
    }
  }

  function Two(now: int, lock: Lock, first: Caller, second: Caller): State {
    State(now, lock, map[1 := first, 2 := second])
  }

  lemma WithTwo(now: int, lock: Lock, first: Caller, second: Caller, c: Caller)
    ensures With(Two(now, lock, first, second), 1, c) == Two(now, lock, c, second)
    ensures With(Two(now, lock, first, second), 2, c) == Two(now, lock, first, c)
  {
  }

  /** Both look before either writes; the second writes just after the first has verified. */
  lemma LateWriteBreaksExclusion(gap: nat) returns (start: State, run: seq<Action>)
    requires gap >= VERIFY_DELAY
    ensures Initial(start) && ValidRun(gap, start, run)
    ensures Holds(After(gap, start, run), 1) && Holds(After(gap, start, run), 2)
  {
    var idle := Caller(Idle, 0);
    start := Two(0, NoLock, idle, idle);
    var look := [ReadClock(1), Look(1), ReadClock(2), Look(2)];
    var write1 := [Write(1), Tick(10), Verify(1)];
    var write2 := [Write(2), Tick(10), Verify(2)];
    BothLook(gap);
    FirstWrites(gap);
    SecondWrites(gap);
    Compose(gap, start, look, write1);
    Compose(gap, start, look + write1, write2);
    run := look + write1 + write2;
  }

  lemma BothLook(gap: nat)
    ensures var idle, checked := Caller(Idle, 0), Caller(Checked(0, 0), 0);
            var run := [ReadClock(1), Look(1), ReadClock(2), Look(2)];
            ValidRun(gap, Two(0, NoLock, idle, idle), run) &&
            After(gap, Two(0, NoLock, idle, idle), run) == Two(0, NoLock, checked, checked)
  {
    var idle, started, checked := Caller(Idle, 0), Caller(Started(0), 0), Caller(Checked(0, 0), 0);
    WithTwo(0, NoLock, idle, idle, started);
    WithTwo(0, NoLock, started, idle, checked);
    WithTwo(0, NoLock, checked, idle, started);
    WithTwo(0, NoLock, checked, started, checked);
    Single(gap, Two(0, NoLock, idle, idle), ReadClock(1));
    Single(gap, Two(0, NoLock, started, idle), Look(1));
    Compose(gap, Two(0, NoLock, idle, idle), [ReadClock(1)], [Look(1)]);
    Single(gap, Two(0, NoLock, checked, idle), ReadClock(2));
    Single(gap, Two(0, NoLock, checked, started), Look(2));
    Compose(gap, Two(0, NoLock, checked, idle), [ReadClock(2)], [Look(2)]);
    Compose(gap, Two(0, NoLock, idle, idle), [ReadClock(1)] + [Look(1)], [ReadClock(2)] + [Look(2)]);
    assert [ReadClock(1)] + [Look(1)] + ([ReadClock(2)] + [Look(2)]) == [ReadClock(1), Look(1), ReadClock(2), Look(2)];
  }

  lemma FirstWrites(gap: nat)
    ensures var checked, owner := Caller(Checked(0, 0), 0), Caller(Idle, LOCK_TTL);
            var run := [Write(1), Tick(10), Verify(1)];
            ValidRun(gap, Two(0, NoLock, checked, checked), run) &&
            After(gap, Two(0, NoLock, checked, checked), run) == Two(10, Lock(1, LOCK_TTL, LOCK_TTL), owner, checked)
  {
    var checked, owner := Caller(Checked(0, 0), 0), Caller(Idle, LOCK_TTL);
    var written, lock := Caller(Written(LOCK_TTL, 0), 0), Lock(1, LOCK_TTL, LOCK_TTL);
    WithTwo(0, NoLock, checked, checked, written);
    WithTwo(10, lock, written, checked, owner);
    Single(gap, Two(0, NoLock, checked, checked), Write(1));
    Single(gap, Two(0, lock, written, checked), Tick(10));
    Single(gap, Two(10, lock, written, checked), Verify(1));
    Compose(gap, Two(0, NoLock, checked, checked), [Write(1)], [Tick(10)]);
    Compose(gap, Two(0, NoLock, checked, checked), [Write(1)] + [Tick(10)], [Verify(1)]);
    assert [Write(1)] + [Tick(10)] + [Verify(1)] == [Write(1), Tick(10), Verify(1)];
  }

  lemma SecondWrites(gap: nat)
    requires gap >= VERIFY_DELAY
    ensures var checked, owner := Caller(Checked(0, 0), 0), Caller(Idle, LOCK_TTL);
            var from := Two(10, Lock(1, LOCK_TTL, LOCK_TTL), owner, checked);
            var run := [Write(2), Tick(10), Verify(2)];
            ValidRun(gap, from, run) &&
            After(gap, from, run) == Two(20, Lock(2, LOCK_TTL, LOCK_TTL + 10), owner, owner)
  {
    var checked, owner := Caller(Checked(0, 0), 0), Caller(Idle, LOCK_TTL);
    var from := Two(10, Lock(1, LOCK_TTL, LOCK_TTL), owner, checked);
    var written, lock := Caller(Written(LOCK_TTL, 10), 0), Lock(2, LOCK_TTL, LOCK_TTL + 10);
    WithTwo(10, Lock(1, LOCK_TTL, LOCK_TTL), owner, checked, written);
    WithTwo(20, lock, owner, written, owner);
    Single(gap, from, Write(2));
    Single(gap, Two(10, lock, owner, written), Tick(10));
    Single(gap, Two(20, lock, owner, written), Verify(2));
    Compose(gap, from, [Write(2)], [Tick(10)]);
    Compose(gap, from, [Write(2)] + [Tick(10)], [Verify(2)]);
    assert [Write(2)] + [Tick(10)] + [Verify(2)] == [Write(2), Tick(10), Verify(2)];
  }

  lemma Single(gap: nat, s: State, a: Action)
    requires Enabled(gap, s, a)
    ensures ValidRun(gap, s, [a]) && After(gap, s, [a]) == Apply(gap, s, a)
  {
  }

  lemma {:induction false} Compose(gap: nat, s: State, first: seq<Action>, second: seq<Action>)
    requires ValidRun(gap, s, first) && ValidRun(gap, After(gap, s, first), second)
    ensures ValidRun(gap, s, first + second)
    ensures After(gap, s, first + second) == After(gap, After(gap, s, first), second)
    decreases |first|
  {
    if first == [] {
      assert first + second == second;
    } else {
      assert (first + second)[1..] == first[1..] + second;
      Compose(gap, Apply(gap, s, first[0]), first[1..], second);
    }
  }

  /** The lock is safe if and only if every instance writes less than the verify delay after it looked. */
  lemma SafeExactlyWhenWriteIsPrompt(gap: nat)
    ensures SafeWithin(gap) <==> gap < VERIFY_DELAY
  {
    if gap < VERIFY_DELAY {
      LockIsExclusive(gap);
    } else {
      var start, run := LateWriteBreaksExclusion(gap);
      assert !Exclusive(After(gap, start, run));
    }
  }

  /** An instance that calls alone gets the lock, unless a lock that another one wrote is still valid. */
  lemma LoneCallGetsTheLock(s: State, h: Holder)
    requires h in s.callers && s.callers[h].phase.Idle?
    requires var seen := Visible(s); seen.Lock? ==> seen.holder == h || seen.lockedUntil <= s.now
    ensures var looked := Apply(0, Apply(0, s, ReadClock(h)), Look(h));
            if looked.callers[h].phase.Checked?
            then var t := Apply(0, Apply(0, looked, Write(h)), Tick(VERIFY_DELAY));
                 Enabled(0, t, Verify(h)) && Holds(Apply(0, t, Verify(h)), h)
            else Holds(looked, h)
  {
  }
}
