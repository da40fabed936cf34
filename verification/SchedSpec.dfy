/** What the scheduler's steps do to the queues, as values; and what every run of them keeps. */
module SchedSpec {
  const READY := 0

  /** Queue 0 is the ready queue, the others the wait queues. A processor whose current
      thread is -1 has not started scheduling; processor c idles in thread c. */
  datatype View = View(queues: seq<seq<nat>>, sleep: seq<nat>, wakeup: seq<nat>, current: seq<int>)

  datatype Step = Start(c: nat) | Enqueue(t: nat) | Tick(c: nat, now: nat) | Wait(c: nat, q: nat)
                | Wake(q: nat, n: int) | WakeAll(q: nat) | Sleep(c: nat, now: nat, ticks: nat)

  ghost predicate Within(l: seq<nat>, n: nat) {
    forall i: nat :: i < |l| ==> l[i] < n
  }

  /** The sleepers whose time has come, in list order, and the others. */
  ghost function Due(sleep: seq<nat>, wakeup: seq<nat>, now: nat): seq<nat>
    requires Within(sleep, |wakeup|)
  {
    if sleep == [] then [] else
      (if wakeup[sleep[0]] <= now then [sleep[0]] else []) + Due(sleep[1..], wakeup, now)
  }

  ghost function NotDue(sleep: seq<nat>, wakeup: seq<nat>, now: nat): seq<nat>
    requires Within(sleep, |wakeup|)
  {
    if sleep == [] then [] else
      (if wakeup[sleep[0]] <= now then [] else [sleep[0]]) + NotDue(sleep[1..], wakeup, now)
  }

  /** A scan of the sleepers `all` that has kept some, found some due and has the rest to go. */
  ghost predicate Split(all: seq<nat>, wakeup: seq<nat>, now: nat, kept: seq<nat>, due: seq<nat>, rest: seq<nat>) {
    && Within(all, |wakeup|) && Within(rest, |wakeup|)
    && kept + NotDue(rest, wakeup, now) == NotDue(all, wakeup, now)
    && due + Due(rest, wakeup, now) == Due(all, wakeup, now)
  }

  lemma SplitStep(all: seq<nat>, wakeup: seq<nat>, now: nat, kept: seq<nat>, due: seq<nat>, rest: seq<nat>)
    requires Split(all, wakeup, now, kept, due, rest) && rest != []
    ensures rest[0] < |wakeup| && Split(all, wakeup, now, if wakeup[rest[0]] <= now then kept else kept + [rest[0]],
                                        if wakeup[rest[0]] <= now then due + [rest[0]] else due, rest[1..])
  {
    var d, n := Due(rest[1..], wakeup, now), NotDue(rest[1..], wakeup, now);
    assert due + ([rest[0]] + d) == due + [rest[0]] + d && due + ([] + d) == due + d;
    assert kept + ([rest[0]] + n) == kept + [rest[0]] + n && kept + ([] + n) == kept + n;
  }

  lemma SplitStart(all: seq<nat>, wakeup: seq<nat>, now: nat)
    requires Within(all, |wakeup|)
    ensures Split(all, wakeup, now, [], [], all)
  {
    assert [] + NotDue(all, wakeup, now) == NotDue(all, wakeup, now)
           && [] + Due(all, wakeup, now) == Due(all, wakeup, now);
  }

  lemma SplitEnd(all: seq<nat>, wakeup: seq<nat>, now: nat, kept: seq<nat>, due: seq<nat>, rest: seq<nat>)
    requires Split(all, wakeup, now, kept, due, rest) && rest == []
    ensures kept == NotDue(all, wakeup, now) && due == Due(all, wakeup, now) && kept + rest == kept
  {
    assert kept + [] == kept && due + [] == due;
  }

  /** The shape every view has. */
  ghost predicate Shaped(v: View) {
    && |v.queues| > 0 && |v.current| <= |v.wakeup|
    && Within(v.sleep, |v.wakeup|)
    && (forall c: nat :: c < |v.current| ==> -1 <= v.current[c] < |v.wakeup|)
  }

  /** What a caller owes: processors, queues and threads that exist. */
  predicate Sensible(v: View, s: Step) {
    match s
    case Start(c) => c < |v.current| && v.current[c] == -1
    case Enqueue(t) => |v.current| <= t < |v.wakeup|
    case Tick(c, now) => c < |v.current|
    case Wait(c, q) => c < |v.current| && 0 < q < |v.queues|
    case Wake(q, n) => 0 < q < |v.queues|
    case WakeAll(q) => 0 < q < |v.queues|
    case Sleep(c, now, ticks) => c < |v.current| && v.current[c] != -1
  }

  function Append(v: View, q: nat, l: seq<nat>): View
    requires q < |v.queues|
  { v.(queues := v.queues[q := v.queues[q] + l]) }

  /** Processor `c` takes the head of the ready queue, or idles. */
  function Dispatched(v: View, c: nat): View
    requires |v.queues| > 0 && c < |v.current|
  {
    if v.queues[READY] == [] then v.(current := v.current[c := c])
    else v.(queues := v.queues[READY := v.queues[READY][1..]], current := v.current[c := v.queues[READY][0]])
  }

  function Ticked(v: View, c: nat): View
    requires |v.queues| > 0 && c < |v.current|
  {
    if v.queues[READY] == [] then v
    else if v.current[c] == c || v.current[c] < 0 then Dispatched(v, c)
    else Append(Dispatched(v, c), READY, [v.current[c]])
  }

  ghost function Woken(v: View, now: nat): View
    requires |v.queues| > 0 && Within(v.sleep, |v.wakeup|)
  { Append(v, READY, Due(v.sleep, v.wakeup, now)).(sleep := NotDue(v.sleep, v.wakeup, now)) }

  /** The tick counter is a 64-bit word. */
  const TICK_LIMIT := 0x1_0000_0000_0000_0000

  function Slept(v: View, c: nat, until: nat): View
    requires c < |v.current| && 0 <= v.current[c] < |v.wakeup|
  { v.(sleep := [v.current[c] as nat] + v.sleep, wakeup := v.wakeup[v.current[c] := until]) }

  function Roused(v: View, q: nat, k: nat): View
    requires 0 < q < |v.queues| && k <= |v.queues[q]|
  { Append(v.(queues := v.queues[q := v.queues[q][k..]]), READY, v.queues[q][..k]) }

  /** How many a wake-up of at most `n` wakes. */
  function Woke(v: View, q: nat, n: int): nat
    requires q < |v.queues|
  { if n < 0 then 0 else if n < |v.queues[q]| then n else |v.queues[q]| }

  /** The queues after a step; the boot processor is the one that wakes sleepers. */
  ghost function After(v: View, boot: nat, s: Step): View
    requires Shaped(v) && Sensible(v, s)
  {
    match s
    case Start(c) => v.(current := v.current[c := c])
    case Enqueue(t) => Append(v, READY, [t])
    case Tick(c, now) => if v.current[c] == -1 then v else Ticked(if c == boot then Woken(v, now) else v, c)
    case Wait(c, q) =>
      if v.current[c] == -1 || v.current[c] == c then v else Dispatched(Append(v, q, [v.current[c]]), c)
    case Wake(q, n) => Roused(v, q, Woke(v, q, n))
    case WakeAll(q) => Roused(v, q, |v.queues[q]|)
    case Sleep(c, now, ticks) =>
      if v.current[c] == c then Dispatched(v, c)
      else Dispatched(Slept(v, c, (now + ticks) % TICK_LIMIT), c)
  }

  lemma RousedNone(v: View, q: nat)
    requires 0 < q < |v.queues|
    ensures Roused(v, q, 0) == v
  {
    assert v.queues[q][0..] == v.queues[q] && v.queues[q := v.queues[q]] == v.queues;
    assert v.queues[READY] + v.queues[q][..0] == v.queues[READY] && v.queues[READY := v.queues[READY]] == v.queues;
  }

  lemma RousedOne(queues: seq<seq<nat>>, q: nat)
    requires 0 < q < |queues|
    ensures queues[q] != [] ==> queues[q][..1] == [queues[q][0]]
  { }

  lemma RousedAgain(v: View, q: nat, k: nat)
    requires 0 < q < |v.queues| && k < |v.queues[q]|
    ensures Roused(v, q, k).queues[q] == v.queues[q][k..]
    ensures Roused(Roused(v, q, k), q, 1) == Roused(v, q, k + 1)
  {
    var l, r := v.queues[q], v.queues[READY];
    assert l[k..][..1] == [l[k]] && l[..k + 1] == l[..k] + [l[k]];
    assert l[k..][1..] == l[k + 1..];
    assert (r + l[..k]) + [l[k]] == r + (l[..k] + [l[k]]);
    assert Roused(Roused(v, q, k), q, 1).queues == Roused(v, q, k + 1).queues;
  }

  // ----- first in, first out ------------------------------------------------------------------------------------

  function Head(l: seq<nat>): seq<nat> { if l == [] then [] else [l[0]] }

  /** The threads a step puts on the ready queue, in order. */
  ghost function Pushed(v: View, boot: nat, s: Step): seq<nat>
    requires Shaped(v) && Sensible(v, s)
  {
    match s
    case Enqueue(t) => [t]
    case Tick(c, now) =>
      if v.current[c] == -1 then [] else
        var due := if c == boot then Due(v.sleep, v.wakeup, now) else [];
        due + if v.queues[READY] + due != [] && v.current[c] != c then [v.current[c] as nat] else []
    case Wake(q, n) => v.queues[q][..Woke(v, q, n)]
    case WakeAll(q) => v.queues[q]
    case _ => []
  }

  /** The thread a step takes off it, if any. */
  ghost function Popped(v: View, boot: nat, s: Step): seq<nat>
    requires Shaped(v) && Sensible(v, s)
  {
    match s
    case Tick(c, now) =>
      if v.current[c] == -1 then [] else Head(v.queues[READY] + if c == boot then Due(v.sleep, v.wakeup, now) else [])
    case Wait(c, q) => if v.current[c] == -1 || v.current[c] == c then [] else Head(v.queues[READY])
    case Sleep(c, now, ticks) => Head(v.queues[READY])
    case _ => []
  }

  /** A step takes from the front and adds behind; what it takes is what the processor runs next. */
  lemma StepFifo(v: View, boot: nat, s: Step)
    requires Shaped(v) && Sensible(v, s)
    ensures |After(v, boot, s).queues| == |v.queues|
    ensures v.queues[READY] + Pushed(v, boot, s) == Popped(v, boot, s) + After(v, boot, s).queues[READY]
    ensures Popped(v, boot, s) != [] ==>
      s.c < |After(v, boot, s).current| == |v.current| && After(v, boot, s).current[s.c] == Popped(v, boot, s)[0]
  {
    match s
    case Tick(c, now) => TickStepFifo(v, boot, c, now);
    case Wait(c, q) =>
      if v.current[c] != -1 && v.current[c] != c {
        DispatchFifo(Append(v, q, [v.current[c]]), c);
      }
    case Sleep(c, now, ticks) =>
      DispatchFifo(if v.current[c] == c then v else Slept(v, c, (now + ticks) % TICK_LIMIT), c);
    case _ =>
  }

  lemma TickStepFifo(v: View, boot: nat, c: nat, now: nat)
    requires Shaped(v) && c < |v.current|
    ensures var s := Tick(c, now); var w := After(v, boot, s);
            && |w.queues| == |v.queues| && v.queues[READY] + Pushed(v, boot, s) == Popped(v, boot, s) + w.queues[READY]
            && (Popped(v, boot, s) != [] ==> |w.current| == |v.current| && w.current[c] == Popped(v, boot, s)[0])
  {
    if v.current[c] != -1 {
      TickFifo(if c == boot then Woken(v, now) else v, c);
    }
  }

  lemma DispatchFifo(v: View, c: nat)
    requires |v.queues| > 0 && c < |v.current|
    ensures v.queues[READY] + [] == Head(v.queues[READY]) + Dispatched(v, c).queues[READY]
    ensures v.queues[READY] != [] ==> Dispatched(v, c).current[c] == v.queues[READY][0]
  { }

  lemma TickFifo(v: View, c: nat)
    requires |v.queues| > 0 && c < |v.current| && v.current[c] >= 0
    ensures v.queues[READY] + (if v.queues[READY] != [] && v.current[c] != c then [v.current[c] as nat] else [])
            == Head(v.queues[READY]) + Ticked(v, c).queues[READY]
  { }

  /** Every step of a run is one its caller may take. */
  ghost predicate Runs(v: View, boot: nat, steps: seq<Step>)
    decreases |steps|
  { steps == [] || (Shaped(v) && Sensible(v, steps[0]) && Runs(After(v, boot, steps[0]), boot, steps[1..])) }

  ghost function Finally(v: View, boot: nat, steps: seq<Step>): View
    requires Runs(v, boot, steps)
    decreases |steps|
  { if steps == [] then v else Finally(After(v, boot, steps[0]), boot, steps[1..]) }

  ghost function AllPushed(v: View, boot: nat, steps: seq<Step>): seq<nat>
    requires Runs(v, boot, steps)
    decreases |steps|
  {
    if steps == [] then []
    else Pushed(v, boot, steps[0]) + AllPushed(After(v, boot, steps[0]), boot, steps[1..])
  }

  ghost function AllPopped(v: View, boot: nat, steps: seq<Step>): seq<nat>
    requires Runs(v, boot, steps)
    decreases |steps|
  {
    if steps == [] then []
    else Popped(v, boot, steps[0]) + AllPopped(After(v, boot, steps[0]), boot, steps[1..])
  }

  lemma FifoStep(r: seq<nat>, p: seq<nat>, o: seq<nat>, r1: seq<nat>, ps: seq<nat>, os: seq<nat>, rn: seq<nat>)
    requires r + p == o + r1 && r1 + ps == os + rn
    ensures r + (p + ps) == (o + os) + rn
  {
    assert r + (p + ps) == (r + p) + ps;
    assert (o + r1) + ps == o + (r1 + ps);
    assert o + (os + rn) == (o + os) + rn;
  }

  lemma FifoAt(r: seq<nat>, p: seq<nat>, o: seq<nat>, rn: seq<nat>, k: nat)
    requires r + p == o + rn && k < |r|
    ensures k < |o| ==> o[k] == r[k]
    ensures k >= |o| ==> k - |o| < |rn| && rn[k - |o|] == r[k]
  {
    assert (r + p)[k] == r[k];
    assert |r + p| == |o + rn|;
    if k < |o| { assert (o + rn)[k] == o[k]; } else { assert (o + rn)[k] == rn[k - |o|]; }
  }

  /** Over every run, what was ready and what was made ready is what was dispatched, in
      that order, followed by what is still ready. */
  lemma {:induction false} RunFifo(v: View, boot: nat, steps: seq<Step>)
    requires |v.queues| > 0 && Runs(v, boot, steps)
    ensures |Finally(v, boot, steps).queues| == |v.queues|
    ensures v.queues[READY] + AllPushed(v, boot, steps)
            == AllPopped(v, boot, steps) + Finally(v, boot, steps).queues[READY]
    decreases |steps|
  {
    if steps != [] {
      var w := After(v, boot, steps[0]);
      StepFifo(v, boot, steps[0]);
      RunFifo(w, boot, steps[1..]);
      FifoStep(v.queues[READY], Pushed(v, boot, steps[0]), Popped(v, boot, steps[0]), w.queues[READY],
               AllPushed(w, boot, steps[1..]), AllPopped(w, boot, steps[1..]),
                 Finally(w, boot, steps[1..]).queues[READY]);
    }
  }

  /** The thread at position k of the ready queue is the one the (k+1)th pop takes. */
  lemma DispatchOrder(v: View, boot: nat, steps: seq<Step>, k: nat)
    requires |v.queues| > 0 && Runs(v, boot, steps) && k < |v.queues[READY]|
    ensures k < |AllPopped(v, boot, steps)| ==> AllPopped(v, boot, steps)[k] == v.queues[READY][k]
    ensures k >= |AllPopped(v, boot, steps)| ==>
      |Finally(v, boot, steps).queues| > 0 && k - |AllPopped(v, boot, steps)| < |Finally(v, boot, steps).queues[READY]|
      && Finally(v, boot, steps).queues[READY][k - |AllPopped(v, boot, steps)|] == v.queues[READY][k]
  {
    RunFifo(v, boot, steps);
    FifoAt(v.queues[READY], AllPushed(v, boot, steps), AllPopped(v, boot, steps), Finally(v, boot, steps).queues[READY],
           k);
  }
}
