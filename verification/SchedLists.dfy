/** Where every thread is, and the linked lists that say so. Queue 0 is the ready queue,
    the others are the wait queues; the sleep list is headed by a bare pointer. */
module SchedLists {
  import opened SchedQueue

  datatype Place = Unborn | Idle | OnCpu(cpu: nat) | Queued(q: nat) | Asleep | Transit

  /** On no list. */
  predicate Loose(p: Place) { !p.Queued? && !p.Asleep? }

  /** The list holds exactly the threads placed at `p`, each once. */
  ghost predicate Holds(place: seq<Place>, p: Place, l: seq<nat>) {
    Distinct(l) && forall t: nat :: t in l <==> t < |place| && place[t] == p
  }

  ghost predicate QueuesKept(next: Links, queues: seq<Queue>, lists: seq<seq<nat>>, place: seq<Place>) {
    && |queues| == |lists|
    && (forall q: nat :: q < |lists| ==> IsQueue(next, queues[q], lists[q]) && Holds(place, Queued(q), lists[q]))
    && (forall t: nat :: t < |place| && place[t].Queued? ==> place[t].q < |lists|)
  }

  ghost predicate SleepKept(next: Links, head: int, sleep: seq<nat>, place: seq<Place>) {
    Chain(next, head, sleep) && Holds(place, Asleep, sleep)
  }

  // ----- queues ----------------------------------------------------------------------------------------------

  /** A thread that was on no list joins the list at `p`. */
  lemma JoinHolds(place: seq<Place>, p: Place, l: seq<nat>, t: nat)
    requires Holds(place, p, l) && t < |place| && place[t] != p
    ensures Holds(place[t := p], p, l + [t]) && Holds(place[t := p], p, [t] + l)
  {
    assert forall x :: x in l + [t] <==> x == t || x in l;
    assert forall x :: x in [t] + l <==> x == t || x in l;
  }

  /** A list does not notice a thread that moves between other places. */
  lemma OtherHolds(place: seq<Place>, p: Place, l: seq<nat>, t: nat, p': Place)
    requires Holds(place, p, l) && t < |place| && place[t] != p && p' != p
    ensures Holds(place[t := p'], p, l)
  { }

  /** A thread leaves its list. */
  lemma LeaveHolds(place: seq<Place>, p: Place, a: seq<nat>, t: nat, b: seq<nat>, p': Place)
    requires Holds(place, p, a + [t] + b) && p' != p
    ensures t < |place| && Holds(place[t := p'], p, a + b)
  {
    var l := a + [t] + b;
    assert l[|a|] == t;
    assert t in l;
    forall x: nat ensures x in l <==> x == t || x in a + b {
      if x in l {
        var i :| 0 <= i < |l| && l[i] == x;
        if i < |a| { assert (a + b)[i] == x; } else if i > |a| { assert (a + b)[i - 1] == x; }
      }
      if x in a + b {
        var i :| 0 <= i < |a + b| && (a + b)[i] == x;
        if i < |a| { assert l[i] == x; } else { assert l[i + 1] == x; }
      }
    }
    forall i: nat | i < |a + b| ensures (a + b)[i] != t {
      assert (a + b)[i] == l[if i < |a| then i else i + 1];
    }
    assert Distinct(a + b) by {
      forall i: nat, j: nat | i < j < |a + b| ensures (a + b)[i] != (a + b)[j] {
        var i', j' := if i < |a| then i else i + 1, if j < |a| then j else j + 1;
        assert l[i'] == (a + b)[i] && l[j'] == (a + b)[j] && i' < j';
      }
    }
  }

  /** Only links of threads on list `l`, or on none, were changed. */
  ghost predicate OnlyLinks(a: Links, b: Links, l: seq<nat>, t: nat) {
    |a| == |b| && forall x: nat :: x < |a| && x != t && x !in l ==> b[x] == a[x]
  }

  lemma PushKept(next: Links, queues: seq<Queue>, lists: seq<seq<nat>>, place: seq<Place>, q: nat, t: nat, next': Links)
    requires QueuesKept(next, queues, lists, place) && |place| == |next|
    requires t < |place| && Loose(place[t]) && q < |lists|
    requires queues[q].tail < |next| && next' == PushLinks(next, queues[q], t)
    ensures QueuesKept(next', queues[q := PushQueue(queues[q], t)], lists[q := lists[q] + [t]], place[t := Queued(q)])
    ensures OnlyLinks(next, next', lists[q], t)
  {
    PushIs(next, queues[q], lists[q], t);
    JoinHolds(place, Queued(q), lists[q], t);
    var queues', lists', place' := queues[q := PushQueue(queues[q], t)], lists[q := lists[q] + [t]],
                                   place[t := Queued(q)];
    forall r: nat | r < |lists| ensures IsQueue(next', queues'[r], lists'[r]) && Holds(place', Queued(r), lists'[r]) {
      if r != q {
        OtherQueue(next, queues, lists, place, q, r, t, next');
        OtherHolds(place, Queued(r), lists[r], t, Queued(q));
      }
    }
  }

  lemma OtherQueue(next: Links, queues: seq<Queue>, lists: seq<seq<nat>>, place: seq<Place>, q: nat, r: nat, t: nat,
                   next': Links)
    requires QueuesKept(next, queues, lists, place) && q < |lists| && r < |lists| && r != q
    requires t < |place| && place[t] != Queued(r) && OnlyLinks(next, next', lists[q], t)
    ensures IsQueue(next', queues[r], lists[r])
  {
    assert Holds(place, Queued(r), lists[r]) && Holds(place, Queued(q), lists[q]);
    QueueFrame(next, next', queues[r], lists[r]);
  }

  lemma PopKept(next: Links, queues: seq<Queue>, lists: seq<seq<nat>>, place: seq<Place>, q: nat)
    requires QueuesKept(next, queues, lists, place) && |place| == |next| && q < |lists| && queues[q].head >= 0
    ensures lists[q] != [] && queues[q].head == lists[q][0] < |place|
    ensures QueuesKept(PopLinks(next, lists[q][0]), queues[q := PopQueue(next, queues[q])],
                       lists[q := lists[q][1..]], place[lists[q][0] := Transit])
    ensures place[lists[q][0]] == Queued(q)
  {
    PopIs(next, queues[q], lists[q]);
    var t := lists[q][0];
    assert t in lists[q] && lists[q] == [] + [t] + lists[q][1..] && lists[q][1..] == [] + lists[q][1..];
    LeaveHolds(place, Queued(q), [], t, lists[q][1..], Transit);
    var next', queues', lists', place' := PopLinks(next, t), queues[q := PopQueue(next, queues[q])],
                                          lists[q := lists[q][1..]], place[t := Transit];
    forall r: nat | r < |lists| ensures IsQueue(next', queues'[r], lists'[r]) && Holds(place', Queued(r), lists'[r]) {
      if r != q {
        OtherQueue(next, queues, lists, place, q, r, t, next');
        OtherHolds(place, Queued(r), lists[r], t, Transit);
      }
    }
  }

  /** The queues after links of no queue of theirs changed. */
  lemma QueuesFrame(next: Links, next': Links, queues: seq<Queue>, lists: seq<seq<nat>>, place: seq<Place>, t: nat,
                    p: Place)
    requires QueuesKept(next, queues, lists, place) && |next'| == |next| == |place| && t < |place| && !place[t].Queued?
             && !p.Queued?
    requires forall x: nat :: x < |next| && place[x].Queued? ==> next'[x] == next[x]
    ensures QueuesKept(next', queues, lists, place[t := p])
  {
    forall r: nat | r < |lists|
      ensures IsQueue(next', queues[r], lists[r]) && Holds(place[t := p], Queued(r), lists[r]) {
      QueueFrame(next, next', queues[r], lists[r]);
      OtherHolds(place, Queued(r), lists[r], t, p);
    }
  }

  // ----- the sleep list -------------------------------------------------------------------------------------------

  /** The sleep list after a change of links and places elsewhere. */
  lemma SleepFrame(next: Links, next': Links, head: int, sleep: seq<nat>, place: seq<Place>, t: nat, p: Place)
    requires SleepKept(next, head, sleep, place) && |next'| == |next| == |place| && t < |place| && place[t] != Asleep
             && p != Asleep
    requires forall x: nat :: x < |next| && place[x] == Asleep ==> next'[x] == next[x]
    ensures SleepKept(next', head, sleep, place[t := p])
  {
    ChainFrame(next, next', head, sleep);
    OtherHolds(place, Asleep, sleep, t, p);
  }

  lemma SleepPush(next: Links, head: int, sleep: seq<nat>, place: seq<Place>, t: nat)
    requires SleepKept(next, head, sleep, place) && |next| == |place| && t < |place| && place[t] != Asleep
    ensures SleepKept(next[t := head], t, [t] + sleep, place[t := Asleep])
  {
    assert t !in sleep;
    ChainFrame(next, next[t := head], head, sleep);
    JoinHolds(place, Asleep, sleep, t);
    assert ([t] + sleep)[1..] == sleep;
  }

  /** The link that leads to the element behind `a`. */
  function LinkTo(next: Links, head: int, a: seq<nat>): int
    requires a == [] || a[|a| - 1] < |next|
  { if a == [] then head else next[a[|a| - 1]] }

  lemma {:induction false} ChainSplit(next: Links, head: int, a: seq<nat>, b: seq<nat>)
    requires Chain(next, head, a + b)
    ensures (a == [] || a[|a| - 1] < |next|) && Chain(next, LinkTo(next, head, a), b)
    decreases |a|
  {
    if a == [] {
      assert a + b == b;
    } else {
      assert (a + b)[1..] == a[1..] + b;
      ChainSplit(next, next[a[0]], a[1..], b);
    }
  }

  lemma {:induction false} ChainJoin(next: Links, head: int, a: seq<nat>, mid: int, b: seq<nat>, was: seq<nat>)
    requires Chain(next, head, a + was) && a != [] && Distinct(a) && Chain(next, mid, b) && a[|a| - 1] !in b
    ensures a[|a| - 1] < |next| && Chain(next[a[|a| - 1] := mid], head, a + b)
    decreases |a|
  {
    ChainSplit(next, head, a, was);
    var z := a[|a| - 1];
    var next' := next[z := mid];
    ChainFrame(next, next', mid, b);
    assert (a + b)[1..] == a[1..] + b && (a + was)[1..] == a[1..] + was;
    if |a| == 1 {
      assert a[1..] + b == b;
    } else {
      assert a[1..][|a| - 2] == z && a[0] != z;
      ChainJoin(next, next[a[0]], a[1..], mid, b, was);
    }
  }

  /** A sleeper is unlinked by storing its link over the one that leads to it. */
  lemma SleepUnlink(next: Links, head: int, a: seq<nat>, t: nat, b: seq<nat>, place: seq<Place>)
    requires SleepKept(next, head, a + [t] + b, place) && |next| == |place|
    ensures t < |place| && place[t] == Asleep && (a == [] || a[|a| - 1] < |next|) && LinkTo(next, head, a) == t
    ensures a == [] ==> SleepKept(next[t := -1], next[t], a + b, place[t := Transit])
    ensures a != [] ==> a[|a| - 1] < |next| && a[|a| - 1] != t && place[a[|a| - 1]] == Asleep
                        && SleepKept(next[a[|a| - 1] := next[t]][t := -1], head, a + b, place[t := Transit])
    ensures Chain(next, next[t], b)
  {
    var l := a + [t] + b;
    assert l[|a|] == t && t in l && l == a + ([t] + b);
    ChainSplit(next, head, a, [t] + b);
    assert ([t] + b)[1..] == b;
    LeaveHolds(place, Asleep, a, t, b, Transit);
    assert t !in a + b;
    if a == [] {
      assert a + b == b;
      ChainFrame(next, next[t := -1], next[t], b);
    } else {
      var z := a[|a| - 1];
      assert l[|a| - 1] == z && z in l;
      UnlinkApart(a, t, b);
      ChainJoin(next, head, a, next[t], b, [t] + b);
      ChainFrame(next[z := next[t]], next[z := next[t]][t := -1], head, a + b);
    }
  }

  lemma UnlinkApart(a: seq<nat>, t: nat, b: seq<nat>)
    requires Distinct(a + [t] + b) && a != []
    ensures Distinct(a) && a[|a| - 1] !in b && a[|a| - 1] != t
  {
    var l := a + [t] + b;
    assert forall i: nat :: i < |a| ==> l[i] == a[i];
    assert l[|a|] == t;
    assert forall j: nat :: j < |b| ==> l[|a| + 1 + j] == b[j];
  }
}
