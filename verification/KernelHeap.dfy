/** The kernel's allocator: free lists per bucket threaded through pages, whole pages for large requests. */
module KernelHeap {
  import opened HeapShape
  import opened HeapLists
  import opened VmmRam

  /** The words of a page's objects, each leading to the next, make the list of them. */
  lemma {:induction false} PageLinked(mem: map<nat, nat>, p: nat, b: nat, k: nat)
    requires k < Per(b)
    requires forall j: nat :: k <= j < Per(b) ==> Obj(p, b, j) in mem
    requires forall j: nat :: k <= j < Per(b) - 1 ==> mem[Obj(p, b, j)] == Obj(p, b, j + 1)
    requires mem[Obj(p, b, Per(b) - 1)] == 0
    ensures Linked(mem, Obj(p, b, k), PageObjs(p, b, k))
    decreases Per(b) - k
  {
    var objs := PageObjs(p, b, k);
    assert objs[0] == Obj(p, b, k);
    if k == Per(b) - 1 {
      assert objs[1..] == [];
    } else {
      PageLinked(mem, p, b, k + 1);
      assert objs[1..] == PageObjs(p, b, k + 1);
    }
  }

  class KernelHeap {
    const ram: Ram
    var tags: seq<int>
    var heads: seq<nat>
    var mem: map<nat, nat>
    ghost var live: map<nat, nat>
    ghost var lists: seq<seq<nat>>
    ghost var others: set<nat>
    ghost var reserved: set<nat>

    ghost function View(): Shape
      reads this, ram
    { Shape(ram.bits, tags, heads, mem, live, lists, others, reserved) }

    ghost predicate Valid()
      reads this, ram
    { ram.Valid() && Ok(View()) }

    /** The allocator at boot: nothing handed out, `reserved` never to be. */
    constructor (ram: Ram)
      requires ram.Valid()
      ensures this.ram == ram && Valid() && live == map[] && others == {}
      ensures reserved == set p | 0 <= p < |ram.bits| && ram.bits[p]
    {
      this.ram := ram;
      tags := seq(|ram.bits|, _ => FREE);
      heads, mem, live, lists, others := seq(BUCKETS, _ => 0), map[], map[], seq(BUCKETS, _ => []), {};
      reserved := set p | 0 <= p < |ram.bits| && ram.bits[p];
      new;
      forall o: nat, b: nat ensures Kept(View(), o, b) {
        if o / PAGE < |tags| {
          OtherBucket(tags, o, b);
        }
      }
    }

    /** Link the objects of page `p`. */
    method SplitPage(p: nat, b: nat)
      requires b < |heads| && heads[b] == 0
      modifies this`mem
      ensures Split(old(mem), mem, p, b)
      ensures forall x: nat :: x / PAGE != p ==> Word(mem, x) == Word(old(mem), x)
    {
      var i := 0;
      while i < Per(b) - 1
        invariant i <= Per(b) - 1
        invariant forall j: nat :: j < i ==> Obj(p, b, j) in mem && mem[Obj(p, b, j)] == Obj(p, b, j + 1)
        invariant forall x: nat :: x / PAGE != p ==> (x in mem <==> x in old(mem)) && Word(mem, x) == Word(old(mem), x)
      {
        SetObj(p, b, i, Obj(p, b, i + 1));
        i := i + 1;
      }
      SetObj(p, b, i, heads[b]);
      PageLinked(mem, p, b, 0);
    }

    method SetObj(p: nat, b: nat, i: nat, v: nat)
      requires i < Per(b)
      modifies this`mem
      ensures mem == old(mem)[Obj(p, b, i) := v] && Obj(p, b, i) / PAGE == p
      ensures forall j: nat :: j < i ==> Obj(p, b, j) != Obj(p, b, i)
    {
      mem := mem[Obj(p, b, i) := v];
      ObjFits(p, b, i);
      forall j: nat | j < i ensures Obj(p, b, j) != Obj(p, b, i) {
        StepsApart(j, i, Size(b));
      }
    }

    /** The first object of list `b` goes to a request of `n` bytes. */
    method Pop(b: nat, ghost n: nat) returns (o: nat)
      requires Valid() && b < BUCKETS && lists[b] != [] && 0 < n <= SMALL && Index(n) == b
      modifies this`heads, this`live, this`lists
      ensures Valid() && o != 0 && o !in old(live) && live == old(live)[o := n]
    {
      PopOk(View(), b, n);
      o := heads[b];
      heads := heads[b := mem[o]];
      live, lists := live[o := n], lists[b := lists[b][1..]];
      assert View() == Popped(old(View()), b, n);
    }

    /** A free page for bucket `b`, whose list is empty. */
    method Refill(b: nat) returns (ok: bool)
      requires Valid() && b < BUCKETS && lists[b] == []
      modifies this`tags, this`heads, this`mem, this`lists, ram`bits, ram`freeCount
      ensures Valid() && Undisturbed(old(View()), View())
      ensures ok ==> lists[b] != []
      ensures !ok ==> View() == old(View())
      ensures ok <==> !AllUsed(old(ram.bits))
      ensures ok ==> LowestTaken(old(ram.bits), ram.bits, 1)
    {
      ghost var s := View();
      assert ListOk(s, b);
      var p := ram.AllocPage();
      if p == 0 {
        return false;
      }
      OneTaken(s.bits, p);
      tags := tags[p := b];
      SplitPage(p, b);
      heads := heads[b := Obj(p, b, 0)];
      lists := lists[b := PageObjs(p, b, 0)];
      PageGiven(s, p, b, mem);
      assert View() == WithPage(s, p, b, mem);
      SplitUndisturbed(s, View(), p);
      ok := true;
    }

    method FromBucket(b: nat, ghost n: nat) returns (o: nat)
      requires Valid() && b < BUCKETS && 0 < n <= SMALL && Index(n) == b
      modifies this`tags, this`heads, this`mem, this`live, this`lists, ram`bits, ram`freeCount
      ensures Valid() && Undisturbed(old(View()), View())
      ensures o == 0 ==> View() == old(View())
      ensures o == 0 <==> old(lists[b]) == [] && AllUsed(old(ram.bits))
      ensures o != 0 ==> o !in old(live) && live == old(live)[o := n] && Drawn(old(View()), ram.bits, n)
    {
      assert ListOk(View(), b);
      HeadZero(View(), b);
      if heads[b] == 0 {
        var ok := Refill(b);
        if !ok {
          return 0;
        }
      }
      o := Pop(b, n);
    }

    /** The pages from `p` on become one large block. */
    method TagLarge(p: nat, count: nat)
      requires p + count <= |tags|
      modifies this`tags
      ensures tags == LargeTags(old(tags), p, count)
    {
      var i := 0;
      while i < count
        invariant i <= count && tags == LargeTags(old(tags), p, i)
      {
        tags := tags[p + i := if i == 0 then LARGE else CONT];
        i := i + 1;
      }
    }

    method LargeBlock(n: nat) returns (a: nat)
      requires Valid() && n > SMALL
      modifies this`tags, this`live, ram`bits, ram`freeCount
      ensures Valid()
      ensures a == 0 <==> NoRun(old(ram.bits), Pages(n))
      ensures a == 0 ==> View() == old(View())
      ensures a != 0 ==> a !in old(live) && live == old(live)[a := n] && LowestTaken(old(ram.bits), ram.bits, Pages(n))
    {
      ghost var s := View();
      var p := ram.AllocPages(Pages(n));
      if p == 0 {
        return 0;
      }
      TagLarge(p, Pages(n));
      assert LowestRun(s.bits, p, Pages(n));
      a := p * PAGE;
      live := live[a := n];
      LargeGiven(s, p, n, ram.bits);
      assert View() == WithLarge(s, p, n, ram.bits);
    }

    /** A block of at least `n` bytes, apart from every other; 0 for no bytes or no room. */
    method Malloc(n: nat) returns (a: nat)
      requires Valid()
      modifies this`tags, this`heads, this`mem, this`live, this`lists, ram`bits, ram`freeCount
      ensures Valid() && Undisturbed(old(View()), View())
      ensures a != 0 ==> n > 0 && a !in old(live) && live == old(live)[a := n] && Drawn(old(View()), ram.bits, n)
      ensures a == 0 ==> View() == old(View())
      ensures a == 0 <==> NoRoom(old(View()), n)
    {
      if n == 0 {
        return 0;
      }
      if n > SMALL {
        a := LargeBlock(n);
      } else {
        a := FromBucket(Index(n), n);
      }
    }

    /** Untag and return the pages of the large block at page `p`. */
    method ReturnPages(p: nat, ghost count: nat)
      requires ram.Valid() && |tags| == |ram.bits| && p != 0 && LargeAt(tags, p, count)
      modifies this`tags, ram`bits, ram`freeCount
      ensures ram.Valid() && tags == FreeTags(old(tags), p, count) && |ram.bits| == |old(ram.bits)|
      ensures forall q: nat :: q < |ram.bits| ==> ram.bits[q] == (old(ram.bits)[q] && !(p <= q < p + count))
    {
      var i := p;
      tags := tags[i := FREE];
      ram.FreePage(i);
      i := i + 1;
      while i < |tags| && tags[i] == CONT
        invariant p < i <= p + count && ram.Valid() && |tags| == |ram.bits| == |old(tags)|
        invariant tags == FreeTags(old(tags), p, i - p)
        invariant forall q: nat :: q < |ram.bits| ==> ram.bits[q] == (old(ram.bits)[q] && !(p <= q < i))
      {
        tags := tags[i := FREE];
        ram.FreePage(i);
        i := i + 1;
      }
    }

    /** A live block goes back: to its list, or exactly its own pages to the page allocator. */
    method Free(a: nat)
      requires Valid() && (a == 0 || a in live)
      modifies this`tags, this`heads, this`mem, this`live, this`lists, ram`bits, ram`freeCount
      ensures Valid() && Undisturbed(old(View()), View()) && live == old(live) - {a}
      ensures |ram.bits| == |old(ram.bits)|
      ensures forall q: nat :: q < |ram.bits| ==>
                ram.bits[q] == (old(ram.bits)[q] && !(a != 0 && old(live)[a] > SMALL
                                                      && a / PAGE <= q < a / PAGE + Pages(old(live)[a])))
    {
      ghost var s := View();
      if a == 0 {
        ZeroNotLive(s);
        assert live - {0} == live;
        return;
      }
      TagTells(s, a);
      var b := tags[a / PAGE];
      if b >= 0 {
        PushOk(s, b, a);
        PushUndisturbed(s, b, a);
        mem := mem[a := heads[b]];
        heads := heads[b := a];
        live, lists := live - {a}, lists[b := [a] + lists[b]];
        assert View() == Pushed(s, b, a);
      } else {
        FreeLarge(a);
      }
    }

    method FreeLarge(a: nat)
      requires Valid() && a in live && live[a] > SMALL
      modifies this`tags, this`live, ram`bits, ram`freeCount
      ensures Valid() && live == old(live) - {a} && |ram.bits| == |old(ram.bits)|
      ensures forall q: nat :: q < |ram.bits| ==>
                ram.bits[q] == (old(ram.bits)[q] && !(a / PAGE <= q < a / PAGE + Pages(old(live)[a])))
    {
      ghost var s := View();
      TagTells(s, a);
      ReturnPages(a / PAGE, Pages(live[a]));
      LargeReturned(s, a, ram.bits);
      live := live - {a};
      assert View() == WithoutLarge(s, a, ram.bits);
    }

    /** The owner of a block writes a word of it. */
    method Store(a: nat, i: nat, v: nat)
      requires Valid() && a in live && i < Room(live[a])
      modifies this`mem
      ensures Valid() && mem == old(mem)[a + i := v]
      ensures forall b: nat, j: nat :: b in live && j < Room(live[b]) && !(b == a && j == i) ==>
                Held(mem, b, j) == Held(old(mem), b, j)
    {
      ghost var s := View();
      StoreOk(s, a, i, v);
      mem := mem[a + i := v];
      assert View() == s.(mem := s.mem[a + i := v]);
      forall b: nat, j: nat | b in live && j < Room(live[b]) && !(b == a && j == i)
        ensures Held(mem, b, j) == Held(old(mem), b, j) {
        WordsApart(s, a, i, b, j);
      }
    }

    /** Another client of the page allocator takes a page. */
    method TakePage() returns (p: nat)
      requires Valid()
      modifies this`others, ram`bits, ram`freeCount
      ensures Valid() && (p == 0 <==> AllUsed(old(ram.bits)))
      ensures p == 0 ==> View() == old(View())
      ensures p != 0 ==> p !in old(others) && others == old(others) + {p} && LowestTaken(old(ram.bits), ram.bits, 1)
    {
      ghost var s := View();
      p := ram.AllocPage();
      if p != 0 {
        PageTaken(s, p);
        assert PageOk(s, p);
        OneTaken(s.bits, p);
        others := others + {p};
        assert View() == s.(bits := s.bits[p := true], others := s.others + {p});
      }
    }

    method GivePage(p: nat)
      requires Valid() && p in others
      modifies this`others, ram`bits, ram`freeCount
      ensures Valid() && others == old(others) - {p} && p < |old(ram.bits)| && ram.bits == old(ram.bits)[p := false]
    {
      ghost var s := View();
      PageReturned(s, p);
      assert PageOk(s, p);
      ram.FreePage(p);
      others := others - {p};
      assert ram.bits == s.bits[p := false];
      assert View() == s.(bits := s.bits[p := false], others := s.others - {p});
    }
  }

  lemma WordsApart(s: Shape, a: nat, i: nat, b: nat, j: nat)
    requires Ok(s) && a in s.live && b in s.live && i < Room(s.live[a]) && j < Room(s.live[b]) && !(a == b && i == j)
    ensures a + i != b + j
  {
    assert LiveOk(s, a) && LiveOk(s, b);
    if a < b {
      BlocksApart(s.tags, a, s.live[a], b, s.live[b]);
    } else if b < a {
      BlocksApart(s.tags, b, s.live[b], a, s.live[a]);
    }
  }

  /** The first run of `count` free pages starts at `p`. */
  ghost predicate LowestRun(bits: seq<bool>, p: nat, count: nat) {
    FreeRun(bits, p, count) && forall s: nat :: s < p ==> !FreeRun(bits, s, count)
  }

  /** Exactly the first run of `count` free pages was taken. */
  ghost predicate LowestTaken(bits0: seq<bool>, bits: seq<bool>, count: nat) {
    exists p: nat :: LowestRun(bits0, p, count) && bits == RunTaken(bits0, p, count)
  }

  lemma OneTaken(bits: seq<bool>, p: nat)
    requires p < |bits| && !bits[p] && forall x: nat :: x < p ==> bits[x]
    ensures LowestTaken(bits, bits[p := true], 1)
  {
    forall s: nat | s < p ensures !FreeRun(bits, s, 1) {
      assert s <= s < s + 1 && bits[s];
    }
    assert LowestRun(bits, p, 1);
    assert bits[p := true] == RunTaken(bits, p, 1);
  }

  /** The pages an allocation of `n` bytes draws: the first run for a large one, the first page for a small one whose
      list is empty, and else none. */
  ghost predicate Drawn(s: Shape, bits: seq<bool>, n: nat)
    requires |s.lists| == BUCKETS
  {
    if n > SMALL then LowestTaken(s.bits, bits, Pages(n))
    else if s.lists[Index(n)] == [] then LowestTaken(s.bits, bits, 1)
    else bits == s.bits
  }

  ghost predicate AllUsed(bits: seq<bool>) { forall p: nat :: p < |bits| ==> bits[p] }

  /** Nowhere are `count` free pages in a row. */
  ghost predicate NoRun(bits: seq<bool>, count: nat) { forall s: nat :: !FreeRun(bits, s, count) }

  /** Nothing was asked for, or there is no run of pages for it, or no object and no page to split. */
  ghost predicate NoRoom(s: Shape, n: nat)
    requires |s.lists| == BUCKETS
  {
    || n == 0
    || (if n > SMALL then NoRun(s.bits, Pages(n)) else s.lists[Index(n)] == [] && AllUsed(s.bits))
  }

  lemma ZeroNotLive(s: Shape)
    requires Ok(s)
    ensures 0 !in s.live
  {
    assert PageOk(s, 0);
    if 0 in s.live {
      TagTells(s, 0);
      assert false;
    }
  }

  /** The tag of its first page tells a live block's kind. */
  lemma TagTells(s: Shape, a: nat)
    requires Ok(s) && a in s.live
    ensures a / PAGE < |s.tags| && a / PAGE != 0
    ensures s.tags[a / PAGE] == if s.live[a] <= SMALL then Index(s.live[a]) else LARGE
    ensures s.live[a] > SMALL ==> LargeAt(s.tags, a / PAGE, Pages(s.live[a]))
  {
    assert LiveOk(s, a) && PageOk(s, 0);
    if s.live[a] <= SMALL {
      var k: nat :| IsObjAt(s.tags, a, Index(s.live[a]), k);
    }
  }

  /** The head of a list is 0 just when the list is empty. */
  lemma HeadZero(s: Shape, b: nat)
    requires Ok(s) && b < BUCKETS
    ensures s.heads[b] == 0 <==> s.lists[b] == []
  {
    assert ListOk(s, b);
    if s.lists[b] != [] {
      assert s.lists[b][0] in s.lists[b];
      ListedNotLive(s, b, s.lists[b][0]);
    }
  }
}
