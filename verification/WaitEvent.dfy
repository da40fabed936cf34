/** WAIT_EVENT against producers that make the condition true and then wake the queue: every
    interleaving of their steps. The condition is set without the scheduler lock; the check
    and the park are two steps of a waiter that holds it. */
module WaitEvent {
  /** A waiter is elsewhere, holds the lock before the check, has found the condition false,
      or is on the wait queue. */
  datatype Waiter = Outside | Checking | Blocking | Parked

  /** Who holds the scheduler lock: -1 for nobody. `pending[p]` says producer p has set the
      condition and not yet woken the queue. `guarded` says waiters take the lock before
      they check, as WAIT_EVENT does. */
  datatype State = State(guarded: bool, lock: int, cond: bool, waiters: seq<Waiter>, pending: seq<bool>)

  datatype Step =
    | Acquire(w: nat)   // take the lock
    | Check(w: nat)     // condition true: release and leave; false: go on to block
    | Park(w: nat)      // join the wait queue and release the lock by switching away
    | Bounce(w: nat)    // the idle thread releases the lock instead of parking
    | Set(p: nat)       // a producer makes the condition true
    | Clear             // a consumer makes it false
    | WakeAll(p: nat)   // a producer, after a set or for nothing, empties the wait queue under the lock

  predicate Enabled(s: State, e: Step) {
    match e
    case Acquire(w) => w < |s.waiters| && s.waiters[w] == Outside && (s.guarded ==> s.lock < 0)
    case Check(w) => w < |s.waiters| && s.waiters[w] == Checking
    case Park(w) => w < |s.waiters| && s.waiters[w] == Blocking && (!s.guarded ==> s.lock < 0)
    case Bounce(w) => w < |s.waiters| && s.waiters[w] == Blocking
    case Set(p) => p < |s.pending|
    case Clear => true
    case WakeAll(p) => p < |s.pending| && s.lock < 0
  }

  function Apply(s: State, e: Step): State
    requires Enabled(s, e)
  {
    match e
    case Acquire(w) => s.(lock := if s.guarded then w else s.lock, waiters := s.waiters[w := Checking])
    case Check(w) =>
      if s.cond then s.(lock := if s.guarded then -1 else s.lock, waiters := s.waiters[w := Outside])
      else s.(waiters := s.waiters[w := Blocking])
    case Park(w) => s.(lock := -1, waiters := s.waiters[w := Parked])
    case Bounce(w) => s.(lock := if s.guarded then -1 else s.lock, waiters := s.waiters[w := Outside])
    case Set(p) => s.(cond := true, pending := s.pending[p := true])
    case Clear => s.(cond := false)
    case WakeAll(p) => s.(waiters := seq(|s.waiters|, i requires 0 <= i < |s.waiters| =>
                                           if s.waiters[i] == Parked then Outside else s.waiters[i]),
                          pending := s.pending[p := false])
  }

  function Start(guarded: bool, waiters: nat, producers: nat): State {
    State(guarded, -1, false, seq(waiters, i => Outside), seq(producers, i => false))
  }

  ghost predicate Runs(s: State, steps: seq<Step>)
    decreases |steps|
  { steps == [] || (Enabled(s, steps[0]) && Runs(Apply(s, steps[0]), steps[1..])) }

  function End(s: State, steps: seq<Step>): State
    requires Runs(s, steps)
    decreases |steps|
  { if steps == [] then s else End(Apply(s, steps[0]), steps[1..]) }

  /** Somebody is parked although the condition holds. */
  ghost predicate Overlooked(s: State) {
    s.cond && exists w: nat :: w < |s.waiters| && s.waiters[w] == Parked
  }

  ghost predicate SomePending(s: State) { exists p: nat :: p < |s.pending| && s.pending[p] }

  /** Nobody is parked while the condition holds unless a producer is about to wake them. */
  ghost predicate Attended(s: State) { Overlooked(s) ==> SomePending(s) }

  /** What every step keeps: the waiter inside WAIT_EVENT's critical section is the lock's holder, and one that
      has found the condition false is as good as parked. */
  ghost predicate Kept(s: State) {
    && s.guarded
    && (forall w: nat :: w < |s.waiters| && (s.waiters[w] == Checking || s.waiters[w] == Blocking) ==> s.lock == w)
    && (s.cond ==> (exists w: nat :: w < |s.waiters| && (s.waiters[w] == Parked || s.waiters[w] == Blocking)) ==>
        SomePending(s))
  }

  lemma StepKept(s: State, e: Step)
    requires Kept(s) && Enabled(s, e)
    ensures Kept(Apply(s, e))
  {
    var s' := Apply(s, e);
    forall w: nat | s'.cond && w < |s'.waiters| && (s'.waiters[w] == Parked || s'.waiters[w] == Blocking)
      ensures SomePending(s')
    {
      if e.Set? {
        assert s'.pending[e.p];
      } else {
        assert s.cond && !e.WakeAll? && (s.waiters[w] == Parked || s.waiters[w] == Blocking);
      }
    }
  }

  lemma {:induction false} RunKept(s: State, steps: seq<Step>)
    requires Kept(s) && Runs(s, steps)
    ensures Kept(End(s, steps))
    decreases |steps|
  {
    if steps != [] {
      StepKept(s, steps[0]);
      RunKept(Apply(s, steps[0]), steps[1..]);
    }
  }

  /** No lost wakeup, in any interleaving of any number of waiters and producers. */
  lemma NoLostWakeup(waiters: nat, producers: nat, steps: seq<Step>)
    requires Runs(Start(true, waiters, producers), steps)
    ensures Attended(End(Start(true, waiters, producers), steps))
  {
    RunKept(Start(true, waiters, producers), steps);
  }

  /** Once no producer is pending, a true condition means nobody is parked. */
  lemma QuietMeansNobodyParked(waiters: nat, producers: nat, steps: seq<Step>, w: nat)
    requires Runs(Start(true, waiters, producers), steps)
    requires var s := End(Start(true, waiters, producers), steps);
             s.cond && !SomePending(s) && w < |s.waiters|
    ensures End(Start(true, waiters, producers), steps).waiters[w] != Parked
  {
    NoLostWakeup(waiters, producers, steps);
  }

  /** Without the lock around the check a set and its wake fit between check and park. */
  lemma LostWithoutLock()
    ensures Runs(Start(false, 1, 1), LosingRun()) && !Attended(End(Start(false, 1, 1), LosingRun()))
  {
    var s0 := Start(false, 1, 1);
    var r := LosingRun();
    var s1 := Apply(s0, r[0]);
    var s2 := Apply(s1, r[1]);
    var s3 := Apply(s2, r[2]);
    var s4 := Apply(s3, r[3]);
    var s5 := Apply(s4, r[4]);
    assert s5.waiters[0] == Parked && s5.cond && !s5.pending[0] && |s5.pending| == 1;
    assert r[1..][1..][1..][1..][1..] == [];
    assert Runs(s5, []) && End(s5, []) == s5;
    assert Runs(s4, r[4..]) && Runs(s3, r[3..]) && Runs(s2, r[2..]);
  }

  function LosingRun(): seq<Step> { [Acquire(0), Check(0), Set(0), WakeAll(0), Park(0)] }

  /** The lock around the check is exactly what it takes. */
  lemma LockIsNeeded(guarded: bool)
    ensures guarded <==>
              forall waiters: nat, producers: nat, steps: seq<Step> ::
                  Runs(Start(guarded, waiters, producers), steps) ==>
                           Attended(End(Start(guarded, waiters, producers), steps))
  {
    if guarded {
      forall waiters: nat, producers: nat, steps: seq<Step> | Runs(Start(guarded, waiters, producers), steps)
        ensures Attended(End(Start(guarded, waiters, producers), steps)) {
        NoLostWakeup(waiters, producers, steps);
      }
    } else {
      LostWithoutLock();
    }
  }
}
