/** Singly linked queues of threads: every thread has one link, so a thread is on at
    most one list at a time. */
module SchedQueue {
  /** Threads are numbered; -1 is the null link. */
  type Links = seq<int>

  /** Following the links from `head` visits exactly `l`. */
  ghost predicate Chain(next: Links, head: int, l: seq<nat>)
    decreases |l|
  {
    if l == [] then head == -1 else head == l[0] < |next| && Chain(next, next[l[0]], l[1..])
  }

  datatype Queue = Queue(head: int, tail: int)

  const EMPTY_QUEUE: Queue := Queue(-1, -1)

  ghost predicate IsQueue(next: Links, q: Queue, l: seq<nat>) {
    Chain(next, q.head, l) && q.tail == if l == [] then -1 else l[|l| - 1]
  }

  /** No thread twice. */
  ghost predicate Distinct(l: seq<nat>) {
    forall i: nat, j: nat :: i < j < |l| ==> l[i] != l[j]
  }

  /** Links of threads that are not on the list do not matter. */
  lemma {:induction false} ChainFrame(a: Links, b: Links, head: int, l: seq<nat>)
    requires Chain(a, head, l) && |a| == |b| && forall t: nat :: t in l && t < |a| ==> b[t] == a[t]
    ensures Chain(b, head, l)
    decreases |l|
  {
    if l != [] {
      ChainFrame(a, b, a[l[0]], l[1..]);
    }
  }

  lemma {:induction false} ChainMembers(next: Links, head: int, l: seq<nat>)
    requires Chain(next, head, l)
    ensures forall t :: t in l ==> t < |next|
    decreases |l|
  {
    if l != [] {
      ChainMembers(next, next[l[0]], l[1..]);
      assert forall t :: t in l ==> t == l[0] || t in l[1..];
    }
  }

  /** Linking `t` behind the last element. */
  lemma {:induction false} ChainSnoc(next: Links, head: int, l: seq<nat>, t: nat)
    requires Chain(next, head, l) && l != [] && t !in l && t < |next| && Distinct(l)
    ensures l[|l| - 1] < |next|
    ensures Chain(next[t := -1][l[|l| - 1] := t], head, l + [t])
    decreases |l|
  {
    ChainMembers(next, head, l);
    assert l[|l| - 1] in l;
    var b := next[t := -1][l[|l| - 1] := t];
    if |l| == 1 {
      assert (l + [t])[1..] == [t] && [t][1..] == [];
    } else {
      ChainSnoc(next, next[l[0]], l[1..], t);
      assert l[1..][|l| - 2] == l[|l| - 1];
      assert (l + [t])[1..] == l[1..] + [t];
      assert l[0] != l[|l| - 1] && l[0] != t;
    }
  }

  /** The links after `t` is pushed on the queue `q`. */
  function PushLinks(next: Links, q: Queue, t: nat): Links
    requires t < |next| && q.tail < |next|
  { if q.tail >= 0 then next[t := -1][q.tail := t] else next[t := -1] }

  function PushQueue(q: Queue, t: nat): Queue { Queue(if q.tail >= 0 then q.head else t, t) }

  lemma PushIs(next: Links, q: Queue, l: seq<nat>, t: nat)
    requires IsQueue(next, q, l) && Distinct(l) && t !in l && t < |next|
    ensures q.tail < |next| && IsQueue(PushLinks(next, q, t), PushQueue(q, t), l + [t]) && Distinct(l + [t])
    ensures |PushLinks(next, q, t)| == |next|
    ensures forall x: nat :: x < |next| && x != t && x !in l ==> PushLinks(next, q, t)[x] == next[x]
  {
    if l == [] {
      assert [t][1..] == [];
    } else {
      ChainSnoc(next, q.head, l, t);
      assert l[|l| - 1] in l;
    }
  }

  /** The queue and links once its head `t` is popped. */
  function PopLinks(next: Links, t: nat): Links
    requires t < |next|
  { next[t := -1] }

  function PopQueue(next: Links, q: Queue): Queue
    requires 0 <= q.head < |next|
  { Queue(next[q.head], if next[q.head] == -1 then -1 else q.tail) }

  lemma PopIs(next: Links, q: Queue, l: seq<nat>)
    requires IsQueue(next, q, l) && Distinct(l) && l != []
    ensures q.head == l[0] < |next| && IsQueue(PopLinks(next, l[0]), PopQueue(next, q), l[1..]) && Distinct(l[1..])
    ensures l[0] !in l[1..]
  {
    var b := PopLinks(next, l[0]);
    assert forall t :: t in l[1..] ==> exists j: nat :: 0 < j < |l| && l[j] == t;
    ChainFrame(next, b, next[l[0]], l[1..]);
  }

  lemma QueueFrame(a: Links, b: Links, q: Queue, l: seq<nat>)
    requires IsQueue(a, q, l) && |a| == |b| && forall t: nat :: t in l && t < |a| ==> b[t] == a[t]
    ensures IsQueue(b, q, l)
  {
    ChainFrame(a, b, q.head, l);
  }
}
