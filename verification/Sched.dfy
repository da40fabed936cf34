/** The scheduler: thread states, links and queues updated in place, one step at a time
    under the scheduler lock. */
module Sched {
  import opened SchedQueue
  import opened SchedLists
  import opened SchedSpec

  datatype ThreadState = Ready | Running | Blocked

  /** What a thread's state says about its place. */
  predicate StateFits(s: ThreadState, p: Place) {
    match p
    case OnCpu(_) => s == Running
    case Idle => s == Running
    case Queued(q) => s == if q == READY then Ready else Blocked
    case Asleep => s == Blocked
    case _ => true
  }

  ghost predicate Agrees(state: seq<ThreadState>, waitOn: seq<nat>, place: seq<Place>) {
    && |state| == |waitOn| == |place|
    && (forall t: nat :: t < |place| ==> StateFits(state[t], place[t]))
    && (forall t: nat :: t < |place| ==> waitOn[t] == if place[t].Queued? then place[t].q else 0)
  }

  /** Every processor but `but` runs nothing yet, its idle thread (thread c of processor c)
      or a thread placed on it; none is placed on `but`. */
  ghost predicate CpusBut(current: seq<int>, place: seq<Place>, but: nat) {
    && |current| <= |place|
    && (forall t: nat :: t < |place| ==> (place[t] == Idle <==> t < |current|))
    && (forall c: nat :: c < |current| && c != but ==>
        -1 <= current[c] < |place| && (current[c] < 0 || current[c] == c || place[current[c]] == OnCpu(c)))
    && (forall t: nat :: t < |place| && place[t].OnCpu? ==>
        place[t].cpu < |current| && place[t].cpu != but && current[place[t].cpu] == t)
    && (forall t: nat :: t < |place| ==> place[t] != Transit)
  }

  ghost predicate CpusFit(current: seq<int>, place: seq<Place>) { CpusBut(current, place, |current|) }

  /** A processor's thread goes to a list. */
  lemma Parks(current: seq<int>, place: seq<Place>, c: nat, p: Place)
    requires CpusFit(current, place) && c < |current| && 0 <= current[c] != c && (p.Queued? || p.Asleep?)
    ensures place[current[c]] == OnCpu(c) && CpusBut(current, place[current[c] := p], c)
  { }

  /** A processor that idles has no thread to lose. */
  lemma Idles(current: seq<int>, place: seq<Place>, c: nat)
    requires CpusFit(current, place) && c < |current| && current[c] == c
    ensures CpusBut(current, place, c)
  { }

  lemma Takes(current: seq<int>, place: seq<Place>, c: nat, t: nat)
    requires CpusBut(current, place, c) && c < |current| && t < |place| && place[t].Queued?
    ensures CpusFit(current[c := t], place[t := OnCpu(c)])
  { }

  lemma Rests(current: seq<int>, place: seq<Place>, c: nat)
    requires CpusBut(current, place, c) && c < |current|
    ensures CpusFit(current[c := c], place)
  { }

  /** A loose thread may be anywhere off the lists. */
  lemma Relocates(next: Links, queues: seq<Queue>, lists: seq<seq<nat>>, head: int, sleep: seq<nat>, place: seq<Place>,
                  t: nat, p: Place)
    requires QueuesKept(next, queues, lists, place) && SleepKept(next, head, sleep, place) && |next| == |place|
    requires t < |place| && Loose(place[t]) && Loose(p)
    ensures QueuesKept(next, queues, lists, place[t := p]) && SleepKept(next, head, sleep, place[t := p])
  {
    QueuesFrame(next, next, queues, lists, place, t, p);
    SleepFrame(next, next, head, sleep, place, t, p);
  }

  /** One thread's state, queue and place change together. */
  lemma AgreesAt(state: seq<ThreadState>, waitOn: seq<nat>, place: seq<Place>, t: nat, s: ThreadState, w: nat, p: Place)
    requires Agrees(state, waitOn, place) && t < |place|
    requires StateFits(s, p) && w == if p.Queued? then p.q else 0
    ensures Agrees(state[t := s], waitOn[t := w], place[t := p])
  { }

  /** A thread moves between lists, or joins one for the first time. */
  lemma Moves(current: seq<int>, place: seq<Place>, t: nat, p: Place, but: nat)
    requires CpusBut(current, place, but) && t < |place| && (place[t].Queued? || place[t].Asleep? || place[t].Unborn?)
    requires p.Queued? || p.Asleep?
    ensures CpusBut(current, place[t := p], but)
  { }

  /** The same threads have never been enqueued. */
  ghost predicate SameBorn(a: seq<Place>, b: seq<Place>) {
    |a| == |b| && forall t: nat :: t < |a| ==> (a[t] == Unborn <==> b[t] == Unborn)
  }

  /** The scan of the sleep list past `kept`, which has readied `due` and has `rest` to go. */
  ghost predicate Waking(v: View, sleep: seq<nat>, lists: seq<seq<nat>>, kept: seq<nat>, due: seq<nat>, rest: seq<nat>,
                         prev: int) {
    && sleep == kept + rest && prev == (if kept == [] then -1 else kept[|kept| - 1])
    && |v.queues| > 0 && lists == v.queues[READY := v.queues[READY] + due]
  }

  lemma Regroup(kept: seq<nat>, rest: seq<nat>, t: nat)
    requires rest != [] && rest[0] == t
    ensures kept + rest == kept + [t] + rest[1..]
  {
    assert rest == [t] + rest[1..];
  }

  lemma PassOver(v: View, sleep: seq<nat>, lists: seq<seq<nat>>, kept: seq<nat>, due: seq<nat>, rest: seq<nat>,
                 prev: int, t: nat)
    requires Waking(v, sleep, lists, kept, due, rest, prev) && rest != [] && t == rest[0]
    ensures Waking(v, sleep, lists, kept + [t], due, rest[1..], t)
  {
    Regroup(kept, rest, t);
  }

  /** No thread is current on two processors. */
  lemma NoTwoCpus(current: seq<int>, place: seq<Place>, c: nat, d: nat)
    requires CpusFit(current, place) && c < |current| && d < |current| && c != d && current[c] >= 0
    ensures current[c] != current[d]
  {
    assert current[c] != c ==> place[current[c]] == OnCpu(c);
  }

  class Scheduler {
    const boot: nat
    var next: Links
    var state: seq<ThreadState>
    var waitOn: seq<nat>
    var wakeup: seq<nat>
    var current: seq<int>
    var queues: seq<Queue>
    var sleepHead: int
    ghost var lists: seq<seq<nat>>
    ghost var sleep: seq<nat>
    ghost var place: seq<Place>

    ghost predicate Linked() reads this {
      && |next| == |place| == |wakeup| == |state| == |waitOn| && |lists| > 0
      && QueuesKept(next, queues, lists, place) && SleepKept(next, sleepHead, sleep, place)
    }

    ghost predicate Valid() reads this {
      Linked() && Agrees(state, waitOn, place) && CpusFit(current, place)
    }

    ghost function Abs(): View reads this { View(lists, sleep, wakeup, current) }

    /** `threads` thread structures, of which the first `cpus` are the idle threads, and `waits` wait queues. */
    constructor (cpus: nat, threads: nat, waits: nat, boot: nat)
      requires cpus <= threads
      ensures Valid() && this.boot == boot
      ensures Abs() == View(seq(1 + waits, i => []), [], seq(threads, i => 0), seq(cpus, i => -1))
      ensures place == seq(threads, i => if i < cpus then Idle else Unborn)
    {
      this.boot := boot;
      next := seq(threads, i => -1);
      state := seq(threads, i => Running);
      waitOn := seq(threads, i => 0);
      wakeup := seq(threads, i => 0);
      current := seq(cpus, i => -1);
      queues := seq(1 + waits, i => EMPTY_QUEUE);
      sleepHead := -1;
      lists := seq(1 + waits, i => []);
      sleep := [];
      place := seq(threads, i => if i < cpus then Idle else Unborn);
    }

    // ----- queue_push and queue_pop --------------------------------------------------------------------------

    method Push(q: nat, t: nat)
      requires Linked() && q < |lists| && t < |place| && Loose(place[t])
      modifies `next, `queues, `lists, `place
      ensures Linked() && lists == old(lists)[q := old(lists)[q] + [t]] && place == old(place)[t := Queued(q)]
      ensures forall x: nat :: x < |place| && old(place)[x] == Asleep ==> next[x] == old(next)[x]
    {
      ghost var next0, place0 := next, place;
      PushIs(next, queues[q], lists[q], t);
      next := next[t := -1];
      if queues[q].tail >= 0 {
        next := next[queues[q].tail := t];
      }
      PushKept(next0, queues, lists, place, q, t, next);
      queues := queues[q := Queue(if queues[q].tail >= 0 then queues[q].head else t, t)];
      lists := lists[q := lists[q] + [t]];
      place := place[t := Queued(q)];
      SleepFrame(next0, next, sleepHead, sleep, place0, t, Queued(q));
    }

    method Pop(q: nat) returns (t: int)
      requires Linked() && q < |lists|
      modifies `next, `queues, `lists, `place
      ensures Linked() && t == (if old(lists)[q] == [] then -1 else old(lists)[q][0])
      ensures t < 0 ==> lists == old(lists) && place == old(place)
      ensures t >= 0 ==> t < |place| && old(place)[t] == Queued(q)
      ensures t >= 0 ==> lists == old(lists)[q := old(lists)[q][1..]] && place == old(place)[t := Transit]
      ensures t >= 0 ==> place[t := Queued(q)] == old(place)
    {
      t := queues[q].head;
      assert IsQueue(next, queues[q], lists[q]);
      if t < 0 {
        return;
      }
      PopKept(next, queues, lists, place, q);
      SleepFrame(next, next[t := -1], sleepHead, sleep, place, t, Transit);
      queues := queues[q := Queue(next[t], if next[t] == -1 then -1 else queues[q].tail)];
      next := next[t := -1];
      lists := lists[q := lists[q][1..]];
      place := place[t := Transit];
    }

    // ----- dispatching ---------------------------------------------------------------------------------------

    /** Processor `c`, whose thread has gone elsewhere, runs `t`, just off the ready queue. */
    method Switch(c: nat, t: nat)
      requires Linked() && c < |current| && t < |place| && place[t] == Transit
      requires Agrees(state, waitOn, place[t := Queued(READY)]) && CpusBut(current, place[t := Queued(READY)], c)
      modifies `state, `current, `place
      ensures Valid() && current == old(current)[c := t] && place == old(place)[t := OnCpu(c)]
    {
      ghost var place0 := place[t := Queued(READY)];
      Takes(current, place0, c, t);
      AgreesAt(state, waitOn, place0, t, Running, 0, OnCpu(c));
      Relocates(next, queues, lists, sleepHead, sleep, place, t, OnCpu(c));
      assert waitOn[t := 0] == waitOn && place[t := OnCpu(c)] == place0[t := OnCpu(c)];
      state := state[t := Running];
      current := current[c := t];
      place := place[t := OnCpu(c)];
    }

    method GoIdle(c: nat)
      requires Linked() && Agrees(state, waitOn, place) && CpusBut(current, place, c) && c < |current|
      modifies `state, `current
      ensures Valid() && current == old(current)[c := c]
    {
      Rests(current, place, c);
      AgreesAt(state, waitOn, place, c, Running, 0, Idle);
      assert place == place[c := Idle] && waitOn[c := 0] == waitOn;
      state := state[c := Running];
      current := current[c := c];
    }

    /** Processor `c`, whose thread has gone elsewhere, runs the next ready thread or idles. */
    method Dispatch(c: nat)
      requires Linked() && Agrees(state, waitOn, place) && CpusBut(current, place, c) && c < |current|
      modifies `next, `queues, `lists, `place, `state, `waitOn, `current
      ensures Valid() && Abs() == Dispatched(old(Abs()), c) && SameBorn(old(place), place)
    {
      var t := Pop(READY);
      if t < 0 {
        GoIdle(c);
      } else {
        Switch(c, t);
      }
    }

    /** The processor's own idle thread takes it into scheduling. */
    method Start(c: nat)
      requires Valid() && c < |current| && current[c] == -1
      modifies `state, `current
      ensures Valid() && Abs() == old(Abs()).(current := old(current)[c := c]) && place == old(place)
    {
      AgreesAt(state, waitOn, place, c, Running, 0, Idle);
      assert place[c := Idle] == place && waitOn[c := 0] == waitOn;
      state := state[c := Running];
      current := current[c := c];
    }

    /** A new thread becomes ready. */
    method Enqueue(t: nat)
      requires Valid() && t < |place| && place[t] == Unborn
      modifies `next, `queues, `lists, `place, `state
      ensures Valid() && Abs() == Append(old(Abs()), READY, [t]) && place == old(place)[t := Queued(READY)]
    {
      Moves(current, place, t, Queued(READY), |current|);
      AgreesAt(state, waitOn, place, t, Ready, 0, Queued(READY));
      assert waitOn[t := 0] == waitOn;
      state := state[t := Ready];
      Push(READY, t);
    }

    // ----- waiting and waking --------------------------------------------------------------------------------

    method Park(c: nat, q: nat)
      requires Valid() && c < |current| && 0 <= current[c] != c && 0 < q < |lists|
      modifies `next, `queues, `lists, `place, `state, `waitOn
      ensures Linked() && Agrees(state, waitOn, place) && CpusBut(current, place, c)
      ensures Abs() == Append(old(Abs()), q, [current[c]]) && SameBorn(old(place), place)
    {
      var t := current[c];
      Parks(current, place, c, Queued(q));
      AgreesAt(state, waitOn, place, t, Blocked, q, Queued(q));
      state := state[t := Blocked];
      waitOn := waitOn[t := q];
      Push(q, t);
    }

    /** The current thread joins wait queue `q` and the processor goes on with another. */
    method Wait(c: nat, q: nat)
      requires Valid() && c < |current| && 0 < q < |lists|
      modifies `next, `queues, `lists, `place, `state, `waitOn, `current
      ensures Valid()
      ensures Abs() == if old(current)[c] == -1 || old(current)[c] == c then old(Abs())
                       else Dispatched(Append(old(Abs()), q, [old(current)[c]]), c)
      ensures SameBorn(old(place), place)
    {
      var t := current[c];
      if t < 0 || t == c {
        return;
      }
      Park(c, q);
      Dispatch(c);
    }

    /** The first waiter on `q`, if any, becomes ready. */
    method Rouse(q: nat) returns (t: int)
      requires Valid() && 0 < q < |lists|
      modifies `next, `queues, `lists, `place, `state, `waitOn
      ensures Valid() && t == (if old(lists)[q] == [] then -1 else old(lists)[q][0])
      ensures Abs() == Roused(old(Abs()), q, if t < 0 then 0 else 1)
      ensures SameBorn(old(place), place)
    {
      ghost var place0 := place;
      RousedOne(lists, q);
      t := Pop(q);
      if t < 0 {
        RousedNone(Abs(), q);
        return;
      }
      Moves(current, place0, t, Queued(READY), |current|);
      AgreesAt(state, waitOn, place0, t, Ready, 0, Queued(READY));
      waitOn := waitOn[t := 0];
      state := state[t := Ready];
      Push(READY, t);
      assert place == place0[t := Queued(READY)];
    }

    method WakeOne(q: nat)
      requires Valid() && 0 < q < |lists|
      modifies `next, `queues, `lists, `place, `state, `waitOn
      ensures Valid() && Abs() == Roused(old(Abs()), q, Woke(old(Abs()), q, 1)) && SameBorn(old(place), place)
    {
      var t := Rouse(q);
    }

    method WakeN(q: nat, n: int) returns (woke: nat)
      requires Valid() && 0 < q < |lists|
      modifies `next, `queues, `lists, `place, `state, `waitOn
      ensures woke == Woke(old(Abs()), q, n)
      ensures Valid() && Abs() == Roused(old(Abs()), q, woke) && SameBorn(old(place), place)
    {
      ghost var v := Abs();
      woke := 0;
      RousedNone(v, q);
      while woke < n
        invariant woke <= Woke(v, q, n) && 0 < q < |lists|
        invariant Valid() && Abs() == Roused(v, q, woke) && SameBorn(old(place), place)
      {
        var more := RouseNext(v, q, woke);
        if !more {
          break;
        }
        woke := woke + 1;
      }
    }

    /** One more of those that wait on `q`, if there is one. */
    method RouseNext(ghost v: View, q: nat, ghost woke: nat) returns (more: bool)
      requires Valid() && 0 < q < |lists| == |v.queues| && woke <= |v.queues[q]| && Abs() == Roused(v, q, woke)
      modifies `next, `queues, `lists, `place, `state, `waitOn
      ensures more <==> woke < |v.queues[q]|
      ensures Valid() && |lists| == |v.queues| && SameBorn(old(place), place)
      ensures Abs() == Roused(v, q, if more then woke + 1 else woke)
    {
      if woke < |v.queues[q]| {
        RousedAgain(v, q, woke);
      } else {
        RousedNone(Roused(v, q, woke), q);
      }
      var t := Rouse(q);
      more := t >= 0;
    }

    method WakeAll(q: nat)
      requires Valid() && 0 < q < |lists|
      modifies `next, `queues, `lists, `place, `state, `waitOn
      ensures Valid() && Abs() == Roused(old(Abs()), q, |old(lists)[q]|) && SameBorn(old(place), place)
      ensures lists[q] == []
    {
      ghost var v, k := Abs(), 0;
      RousedNone(v, q);
      var t := 0;
      while t >= 0
        invariant k <= |v.queues[q]| && 0 < q < |lists|
        invariant Valid() && Abs() == Roused(v, q, k) && SameBorn(old(place), place)
        invariant t < 0 ==> k == |v.queues[q]|
        decreases |v.queues[q]| - k, t
      {
        if k < |v.queues[q]| { RousedAgain(v, q, k); }
        t := Rouse(q);
        if t >= 0 {
          k := k + 1;
        } else {
          RousedNone(Roused(v, q, k), q);
        }
      }
    }

    // ----- sleeping ------------------------------------------------------------------------------------------

    /** The current thread sleeps until the given tick; an idle thread only gives way. */
    method Sleep(c: nat, now: nat, ticks: nat)
      requires Valid() && c < |current| && current[c] != -1
      modifies `next, `queues, `lists, `place, `state, `waitOn, `current, `wakeup, `sleepHead, `sleep
      ensures Valid() && SameBorn(old(place), place)
      ensures Abs() == if old(current)[c] == c then Dispatched(old(Abs()), c)
                       else Dispatched(Slept(old(Abs()), c, (now + ticks) % TICK_LIMIT), c)
    {
      var t := current[c];
      if t == c {
        Idles(current, place, c);
      } else {
        Parks(current, place, c, Asleep);
        AgreesAt(state, waitOn, place, t, Blocked, 0, Asleep);
        assert waitOn[t := 0] == waitOn;
        QueuesFrame(next, next[t := sleepHead], queues, lists, place, t, Asleep);
        SleepPush(next, sleepHead, sleep, place, t);
        state := state[t := Blocked];
        wakeup := wakeup[t := (now + ticks) % TICK_LIMIT];
        next := next[t := sleepHead];
        sleepHead := t;
        sleep := [t as nat] + sleep;
        place := place[t := Asleep];
      }
      Dispatch(c);
    }

    /** Sleeper `t`, which the link of `prev` (or the list head) leads to, comes off the list. */
    method Unlink(prev: int, t: nat, ghost a: seq<nat>, ghost b: seq<nat>)
      requires Linked() && sleep == a + [t] + b && prev == (if a == [] then -1 else a[|a| - 1])
      modifies `next, `place, `sleepHead, `sleep
      ensures Linked() && sleep == a + b
      ensures t < |place| && old(place)[t] == Asleep && place == old(place)[t := Transit]
    {
      ghost var next0 := next;
      SleepUnlink(next, sleepHead, a, t, b, place);
      if prev < 0 {
        sleepHead := next[t];
      } else {
        next := next[prev := next[t]];
      }
      next := next[t := -1];
      QueuesFrame(next0, next, queues, lists, place, t, Transit);
      place := place[t := Transit];
      sleep := a + b;
    }

    method Awaken(prev: int, t: nat, ghost a: seq<nat>, ghost b: seq<nat>)
      requires Valid() && sleep == a + [t] + b && prev == (if a == [] then -1 else a[|a| - 1])
      modifies `next, `queues, `lists, `place, `state, `sleepHead, `sleep
      ensures Valid() && SameBorn(old(place), place) && sleep == a + b
      ensures lists == old(lists)[READY := old(lists)[READY] + [t]]
    {
      ghost var place0 := place;
      Unlink(prev, t, a, b);
      Moves(current, place0, t, Queued(READY), |current|);
      AgreesAt(state, waitOn, place0, t, Ready, 0, Queued(READY));
      assert waitOn[t := 0] == waitOn;
      state := state[t := Ready];
      Push(READY, t);
      assert place == place0[t := Queued(READY)];
    }

    method WakeDue(ghost v: View, now: nat, t: nat, ghost kept: seq<nat>, ghost due: seq<nat>, ghost rest: seq<nat>,
                   prev: int)
      requires Valid() && Waking(v, sleep, lists, kept, due, rest, prev) && rest != [] && t == rest[0]
      modifies `next, `queues, `lists, `place, `state, `sleepHead, `sleep
      ensures Valid() && Waking(v, sleep, lists, kept, due + [t], rest[1..], prev) && SameBorn(old(place), place)
    {
      Regroup(kept, rest, t);
      Awaken(prev, t, kept, rest[1..]);
      assert v.queues[READY] + (due + [t]) == v.queues[READY] + due + [t];
    }

    lemma WakingLink(v: View, kept: seq<nat>, due: seq<nat>, rest: seq<nat>, prev: int)
      requires Linked() && Waking(v, sleep, lists, kept, due, rest, prev)
      ensures prev < |next| && Chain(next, if prev < 0 then sleepHead else next[prev], rest)
    {
      ChainSplit(next, sleepHead, kept, rest);
    }

    /** Every sleeper whose time has come becomes ready, in list order. */
    method WakeSleepers(now: nat)
      requires Valid()
      modifies `next, `queues, `lists, `place, `state, `sleepHead, `sleep
      ensures Valid() && SameBorn(old(place), place)
      ensures Within(old(sleep), |wakeup|) && Abs() == Woken(old(Abs()), now)
    {
      SleepersExist();
      ghost var v := Abs();
      ghost var kept: seq<nat>, due: seq<nat>, rest := [], [], sleep;
      SplitStart(sleep, wakeup, now);
      assert kept + rest == sleep && lists[READY] + due == lists[READY];
      var prev, t := -1, sleepHead;
      WakingLink(v, kept, due, rest, prev);
      while t >= 0
        invariant Valid() && Waking(v, sleep, lists, kept, due, rest, prev) && SameBorn(old(place), place)
        invariant Split(v.sleep, wakeup, now, kept, due, rest)
        invariant Chain(next, t, rest)
        decreases |rest|
      {
        SplitStep(v.sleep, wakeup, now, kept, due, rest);
        if wakeup[t] <= now {
          WakeDue(v, now, t, kept, due, rest, prev);
          due := due + [t as nat];
        } else {
          PassOver(v, sleep, lists, kept, due, rest, prev, t);
          prev, kept := t, kept + [t as nat];
        }
        rest := rest[1..];
        WakingLink(v, kept, due, rest, prev);
        t := if prev < 0 then sleepHead else next[prev];
      }
      SplitEnd(v.sleep, wakeup, now, kept, due, rest);
    }

    lemma SleepersExist()
      requires Valid()
      ensures Within(sleep, |wakeup|)
    {
      forall i: nat | i < |sleep| ensures sleep[i] < |wakeup| {
        assert sleep[i] in sleep;
      }
    }

    // ----- the timer tick ------------------------------------------------------------------------------------

    /** If a thread is ready, it replaces the current one, which goes to the back of the ready queue. */
    method Preempt(c: nat)
      requires Valid() && c < |current| && current[c] >= 0
      modifies `next, `queues, `lists, `place, `state, `current
      ensures Valid() && Abs() == Ticked(old(Abs()), c) && SameBorn(old(place), place)
    {
      var t := Pop(READY);
      if t < 0 {
        return;
      }
      Replace(c, t, old(place));
    }

    method Replace(c: nat, t: nat, ghost place0: seq<Place>)
      requires Linked() && Agrees(state, waitOn, place0) && CpusFit(current, place0) && |lists| > 0
      requires c < |current| && current[c] >= 0 && t < |place0| && place0[t] == Queued(READY)
      requires place == place0[t := Transit] && place[t := Queued(READY)] == place0
      modifies `next, `queues, `lists, `place, `state, `current
      ensures Valid() && SameBorn(place0, place) && current == old(current)[c := t]
      ensures lists == if old(current)[c] == c then old(lists)
                       else old(lists)[READY := old(lists)[READY] + [old(current)[c]]]
    {
      var cur := current[c];
      if state[cur] == Running && cur != c {
        PutBack(c, t, place0);
      } else {
        Idles(current, place0, c);
      }
      Switch(c, t);
    }

    method PutBack(c: nat, ghost t: nat, ghost place0: seq<Place>)
      requires Linked() && Agrees(state, waitOn, place0) && CpusFit(current, place0)
      requires c < |current| && 0 <= current[c] != c && t < |place0| && place0[t] == Queued(READY)
               && place == place0[t := Transit]
      modifies `next, `queues, `lists, `place, `state
      ensures Linked() && lists == old(lists)[READY := old(lists)[READY] + [current[c]]]
      ensures place == old(place)[current[c] := Queued(READY)] && t < |place| && place[t] == Transit
      ensures Agrees(state, waitOn, place[t := Queued(READY)]) && CpusBut(current, place[t := Queued(READY)], c)
    {
      var cur := current[c];
      Parks(current, place0, c, Queued(READY));
      AgreesAt(state, waitOn, place0, cur, Ready, 0, Queued(READY));
      assert waitOn[cur := 0] == waitOn;
      state := state[cur := Ready];
      Push(READY, cur);
      assert place[t := Queued(READY)] == place0[cur := Queued(READY)];
    }

    method Tick(c: nat, now: nat)
      requires Valid() && c < |current|
      modifies `next, `queues, `lists, `place, `state, `current, `sleepHead, `sleep
      ensures Valid() && SameBorn(old(place), place) && Shaped(old(Abs()))
      ensures Abs() == After(old(Abs()), boot, SchedSpec.Tick(c, now))
    {
      IsShaped();
      if current[c] < 0 {
        return;
      }
      TickRunning(c, now);
    }

    method TickRunning(c: nat, now: nat)
      requires Valid() && c < |current| && current[c] >= 0
      modifies `next, `queues, `lists, `place, `state, `current, `sleepHead, `sleep
      ensures Valid() && SameBorn(old(place), place) && Within(old(sleep), |wakeup|)
      ensures |old(lists)| > 0 && Abs() == Ticked(if c == boot then Woken(old(Abs()), now) else old(Abs()), c)
    {
      IsShaped();
      if c == boot {
        WakeSleepers(now);
      }
      Preempt(c);
    }

    lemma IsShaped()
      requires Valid()
      ensures Shaped(Abs())
    {
      SleepersExist();
    }

    // ----- every run -----------------------------------------------------------------------------------------

    method Perform(s: Step)
      requires Valid() && Sensible(Abs(), s) && (s.Enqueue? ==> place[s.t] == Unborn)
      modifies this
      ensures Valid() && Shaped(old(Abs())) && Abs() == After(old(Abs()), boot, s) && Births(old(place), place, s)
    {
      if OfCpu(s) {
        PerformOnCpu(s);
      } else {
        PerformOnQueue(s);
      }
    }

    method PerformOnCpu(s: Step)
      requires Valid() && Sensible(Abs(), s) && OfCpu(s)
      modifies this
      ensures Valid() && Shaped(old(Abs())) && Abs() == After(old(Abs()), boot, s) && SameBorn(old(place), place)
    {
      IsShaped();
      match s
      case Start(c) => Start(c);
      case Tick(c, now) => Tick(c, now);
      case Wait(c, q) => Wait(c, q);
      case Sleep(c, now, ticks) => Sleep(c, now, ticks);
    }

    method PerformOnQueue(s: Step)
      requires Valid() && Sensible(Abs(), s) && !OfCpu(s) && (s.Enqueue? ==> place[s.t] == Unborn)
      modifies this
      ensures Valid() && Shaped(old(Abs())) && Abs() == After(old(Abs()), boot, s) && Births(old(place), place, s)
    {
      IsShaped();
      match s
      case Enqueue(t) => Enqueue(t);
      case Wake(q, n) => var woke := WakeN(q, n);
      case WakeAll(q) => WakeAll(q);
    }

    /** Any run of steps that enqueues only new threads, each once, keeps every thread in
        exactly the place its state says and follows the specification. */
    method PerformAll(steps: seq<Step>)
      requires Valid() && Runs(Abs(), boot, steps) && AllNew(place, steps)
      modifies this
      ensures Valid() && Abs() == Finally(old(Abs()), boot, steps)
      ensures forall c: nat, d: nat :: c < d < |current| && current[c] >= 0 ==> current[c] != current[d]
    {
      var i := 0;
      while i < |steps|
        invariant i <= |steps| && Valid() && Runs(Abs(), boot, steps[i..]) && AllNew(place, steps[i..])
        invariant Finally(Abs(), boot, steps[i..]) == Finally(old(Abs()), boot, steps)
      {
        ghost var place0, rest := place, steps[i..];
        assert rest[0] == steps[i] && rest[1..] == steps[i + 1..];
        NewFirst(place, rest);
        Perform(steps[i]);
        StillNew(place0, place, rest);
        i := i + 1;
      }
      forall c: nat, d: nat | c < d < |current| && current[c] >= 0 ensures current[c] != current[d] {
        NoTwoCpus(current, place, c, d);
      }
    }
  }

  /** A step a processor takes for itself. */
  predicate OfCpu(s: Step) { s.Start? || s.Tick? || s.Wait? || s.Sleep? }

  /** After a step the threads never enqueued are those of before but the one it enqueued. */
  ghost predicate Births(a: seq<Place>, b: seq<Place>, s: Step) {
    |a| == |b| && forall t: nat :: t < |a| ==> (b[t] == Unborn <==> a[t] == Unborn && s != Step.Enqueue(t))
  }

  /** The steps enqueue threads that were never enqueued, each once. */
  ghost predicate AllNew(place: seq<Place>, steps: seq<Step>) {
    && (forall i: nat :: i < |steps| && steps[i].Enqueue? ==> steps[i].t < |place| && place[steps[i].t] == Unborn)
    && (forall i: nat, j: nat :: i < j < |steps| && steps[i].Enqueue? ==> steps[j] != steps[i])
  }

  lemma NewFirst(place: seq<Place>, steps: seq<Step>)
    requires AllNew(place, steps) && steps != []
    ensures steps[0].Enqueue? ==> steps[0].t < |place| && place[steps[0].t] == Unborn
  { }

  lemma StillNew(a: seq<Place>, b: seq<Place>, steps: seq<Step>)
    requires steps != [] && AllNew(a, steps) && Births(a, b, steps[0])
    ensures AllNew(b, steps[1..])
  {
    forall i: nat | i < |steps[1..]| && steps[1..][i].Enqueue?
      ensures steps[1..][i].t < |b| && b[steps[1..][i].t] == Unborn {
      assert steps[1..][i] == steps[i + 1] && steps[0] != steps[i + 1];
    }
  }

  /** In a valid state a thread is on a processor, on one queue, asleep, idle or unborn, in one of
      these exactly, and its state and wait queue say which. */
  lemma OnePlace(s: Scheduler, t: nat)
    requires s.Valid() && |s.current| <= t < |s.place|
    ensures forall c: nat :: c < |s.current| ==> (s.current[c] == t <==> s.place[t] == OnCpu(c))
    ensures forall q: nat :: q < |s.lists| ==> (t in s.lists[q] <==> s.place[t] == Queued(q))
    ensures t in s.sleep <==> s.place[t] == Asleep
    ensures s.place[t] != Idle && s.place[t] != Transit && StateFits(s.state[t], s.place[t])
    ensures forall q: nat, c: nat :: q < |s.lists| && c < |s.current| ==> c !in s.lists[q] && c !in s.sleep
  {
    forall q: nat | q < |s.lists| ensures t in s.lists[q] <==> s.place[t] == Queued(q) {
      assert Holds(s.place, Queued(q), s.lists[q]);
    }
  }
}
