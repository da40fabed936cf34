/** Mapping, unmapping and storing in one address space. */
module VmmMap {
  import opened VmmTables
  import opened VmmRam
  import opened VmmFree
  import opened VmmClone
  import opened VmmSpace

  function Update(t: Tree, i: nat, s: Slot): Tree
    requires i < |t.slots|
  { Tree(t.phys, t.slots[i := s]) }

  lemma {:induction false} SlotsUpdate(ss: seq<Slot>, i: nat, s: Slot, x: nat)
    requires i < |ss|
    ensures SlotsRefs(ss[i := s], x) + SlotRefs(ss[i], x) == SlotsRefs(ss, x) + SlotRefs(s, x)
    decreases |ss|
  {
    if i == 0 {
      assert ss[0 := s][1..] == ss[1..];
    } else {
      SlotsUpdate(ss[1..], i - 1, s, x);
      assert ss[i := s][1..] == ss[1..][i - 1 := s];
    }
  }

  lemma RefsUpdate(t: Tree, i: nat, s: Slot)
    requires i < |t.slots|
    ensures forall x: nat :: Refs(Update(t, i, s), x) + SlotRefs(t.slots[i], x) == Refs(t, x) + SlotRefs(s, x)
    ensures forall x: nat :: SlotRefs(t.slots[i], x) + (if t.phys == x then 1 else 0) <= Refs(t, x)
  {
    forall x: nat
      ensures Refs(Update(t, i, s), x) + SlotRefs(t.slots[i], x) == Refs(t, x) + SlotRefs(s, x)
      ensures SlotRefs(t.slots[i], x) + (if t.phys == x then 1 else 0) <= Refs(t, x)
    {
      SlotsUpdate(t.slots, i, s, x);
      SlotsAt(t.slots, i, x);
    }
  }

  // ----- what an operation may change ------------------------------------------------------------------------

  /** The tree `t` became `t'`: frames in use outside `t` are untouched and stay
      outside, but for the page `p` (if not negative) that was mapped; every frame
      taken is in the new tree. */
  ghost predicate Changed(bits0: seq<bool>, bits: seq<bool>, frames0: Frames, frames: Frames, t: Tree, t': Tree,
                          p: int) {
    && |bits| == |bits0| == |frames| == |frames0| && t'.phys == t.phys
    && (forall x: nat :: x < |bits0| && bits0[x] ==> bits[x])
    && (forall x: nat :: x < |bits0| && bits0[x] && Refs(t, x) == 0 ==> frames[x] == frames0[x])
    && Owned(t', bits)
    && (forall x: nat :: x < |bits0| && bits0[x] && Refs(t, x) == 0 && x != p ==> Refs(t', x) == 0)
    && (forall x: nat :: x < |bits0| && !bits0[x] && bits[x] ==> Refs(t', x) > 0)
  }

  lemma Unchanged(bits: seq<bool>, frames: Frames, t: Tree)
    requires |bits| == |frames| && Owned(t, bits)
    ensures Changed(bits, bits, frames, frames, t, t, -1)
  {
  }

  /** A change of a subtable is a change of the table. */
  lemma Nested(bits0: seq<bool>, bits: seq<bool>, frames0: Frames, frames: Frames, t: Tree, i: nat, e: Pte, sub: Tree,
               sub': Tree, p: int)
    requires i < |t.slots| && t.slots[i] == Sub(e, sub) && Owned(t, bits0) && (p >= 0 ==> Refs(t, p) == 0)
    requires Changed(bits0, bits, frames0, frames, sub, sub', p)
    ensures Changed(bits0, bits, frames0, frames, t, Update(t, i, Sub(e, sub')), p)
  {
    var s' := Sub(e, sub');
    RefsUpdate(t, i, s');
    assert forall x: nat :: SlotRefs(s', x) == Refs(sub', x) && SlotRefs(t.slots[i], x) == Refs(sub, x);
    var t' := Update(t, i, s');
    forall x: nat ensures Refs(t', x) <= 1 && (Refs(t', x) > 0 ==> x < |bits| && bits[x]) {
      assert Refs(t, x) <= 1 && Refs(sub', x) <= 1;
    }
  }

  /** So is a change of a table that was linked just before. */
  lemma NestedFresh(bits0: seq<bool>, bits: seq<bool>, frames0: Frames, frames1: Frames, frames: Frames, t: Tree,
                    i: nat, e: Pte,
                    np: nat, sub': Tree, p: int)
    requires i < |t.slots| && t.slots[i] == Empty && Owned(t, bits0) && (p >= 0 ==> Refs(t, p) == 0)
    requires |bits0| == |frames0| == |frames1| && np < |bits0| && !bits0[np] && p != np
    requires forall x: nat :: x < |frames0| && x != np && x != t.phys ==> frames1[x] == frames0[x]
    requires Changed(bits0[np := true], bits, frames1, frames, Tree(np, Empties(ENTRIES)), sub', p)
    ensures Changed(bits0, bits, frames0, frames, t, Update(t, i, Sub(e, sub')), p)
  {
    var s', blank := Sub(e, sub'), Tree(np, Empties(ENTRIES));
    RefsUpdate(t, i, s');
    assert forall x: nat :: SlotRefs(s', x) == Refs(sub', x);
    forall x: nat ensures Refs(blank, x) == if np == x then 1 else 0 {
      SlotsEmpty(ENTRIES, x);
    }
    var t' := Update(t, i, s');
    forall x: nat ensures Refs(t', x) <= 1 && (Refs(t', x) > 0 ==> x < |bits| && bits[x]) {
      assert Refs(t, x) <= 1 && Refs(sub', x) <= 1;
    }
    assert Refs(sub', np) > 0;
  }

  /** Setting an entry of a lowest-level table to a page or to nothing. */
  lemma LeafChanged(bits: seq<bool>, frames: Frames, t: Tree, i: nat, e: Pte, s: Slot, p: int)
    requires |bits| == |frames| && Owned(t, bits) && IsTable(frames, t.phys) && |t.slots| == ENTRIES && i < ENTRIES
    requires !t.slots[i].Sub?
    requires if p < 0 then s == Empty else s == Leaf(e) && e.addr == p < |bits| && bits[p] && Refs(t, p) == 0
    ensures Changed(bits, bits, frames, WithEntry(frames, t.phys, i, e), t, Update(t, i, s), p)
  {
    RefsUpdate(t, i, s);
    var t' := Update(t, i, s);
    forall x: nat ensures Refs(t', x) <= 1 && (Refs(t', x) > 0 ==> x < |bits| && bits[x]) {
      assert Refs(t, x) <= 1;
    }
  }

  // ----- the tables after an operation -----------------------------------------------------------------------

  /** Slots other than `i` denote what they did. */
  lemma UpdateDenotes(bits0: seq<bool>, frames0: Frames, frames: Frames, t: Tree, i: nat, s: Slot, e: Pte, level: nat,
                      k: Kernel)
    requires Denotes(frames0, t, level, k) && |frames| == |frames0| && i < ENTRIES && Owned(t, bits0)
             && |bits0| == |frames0|
    requires IsTable(frames, t.phys) && frames[t.phys].ents == frames0[t.phys].ents[i := e]
    requires forall x: nat :: x < |frames0| && bits0[x] && SlotRefs(t.slots[i], x) == 0 && x != t.phys ==>
               frames[x] == frames0[x]
    requires level == 3 ==> forall j: nat {:trigger Below(frames, k, j)} :: Below(frames, k, j) == Below(frames0, k, j)
    requires SlotIs(frames, e, s, level, k, i)
    ensures Denotes(frames, Update(t, i, s), level, k)
  {
    var t' := Update(t, i, s);
    forall j: nat | j < ENTRIES ensures SlotIs(frames, frames[t.phys].ents[j], t'.slots[j], level, k, j) {
      if j != i {
        assert SlotIs(frames0, frames0[t.phys].ents[j], t.slots[j], level, k, j);
        OtherSlot(bits0, frames0, frames, t, i, j);
        SlotDenotes(frames0, frames, frames0[t.phys].ents[j], t.slots[j], level, k, j);
      }
    }
  }

  lemma OtherSlot(bits0: seq<bool>, frames0: Frames, frames: Frames, t: Tree, i: nat, j: nat)
    requires |frames| == |frames0| == |bits0| && Owned(t, bits0) && i < |t.slots| && j < |t.slots| && i != j
    requires forall x: nat :: x < |frames0| && bits0[x] && SlotRefs(t.slots[i], x) == 0 && x != t.phys ==>
               frames[x] == frames0[x]
    ensures forall x: nat :: x < |frames0| && SlotRefs(t.slots[j], x) > 0 ==> frames[x] == frames0[x]
  {
    forall x: nat | x < |frames0| && SlotRefs(t.slots[j], x) > 0 ensures frames[x] == frames0[x] {
      TwoSlots(t.slots, i, j, x);
      assert Refs(t, x) <= 1;
    }
  }

  lemma {:induction false} TwoSlots(ss: seq<Slot>, i: nat, j: nat, x: nat)
    requires i < |ss| && j < |ss| && i != j
    ensures SlotRefs(ss[i], x) + SlotRefs(ss[j], x) <= SlotsRefs(ss, x)
    decreases |ss|
  {
    if i == 0 {
      SlotsAt(ss[1..], j - 1, x);
    } else if j == 0 {
      SlotsAt(ss[1..], i - 1, x);
    } else {
      TwoSlots(ss[1..], i - 1, j - 1, x);
    }
  }

  lemma SlotDenotes(a: Frames, b: Frames, e: Pte, s: Slot, level: nat, k: Kernel, i: nat)
    requires SlotIs(a, e, s, level, k, i) && |a| == |b|
             && (forall x: nat :: x < |a| && SlotRefs(s, x) > 0 ==> b[x] == a[x])
    requires level == 3 ==> Below(a, k, i) == Below(b, k, i)
    ensures SlotIs(b, e, s, level, k, i)
  {
    if s.Sub? {
      assert forall x: nat :: Refs(s.sub, x) == SlotRefs(s, x);
      DenotesFrame(a, b, s.sub, level - 1, Under(a, k, i, level));
    }
  }

  // ----- what is seen after an operation ----------------------------------------------------------------------

  lemma SlotView(a: Frames, b: Frames, t: Tree, t': Tree, level: nat, m: nat)
    requires |t.slots| == |t'.slots| == ENTRIES && t'.slots[Index(m, level)] == t.slots[Index(m, level)] && |a| == |b|
    requires forall x: nat :: x < |a| && SlotRefs(t.slots[Index(m, level)], x) > 0 ==> b[x] == a[x]
    ensures View(b, t', level, m) == View(a, t, level, m)
  {
    ThroughSame(a, b, t.slots[Index(m, level)], level, m);
  }

  lemma ThroughSame(a: Frames, b: Frames, s: Slot, level: nat, m: nat)
    requires |a| == |b| && forall x: nat :: x < |a| && SlotRefs(s, x) > 0 ==> b[x] == a[x]
    ensures Through(b, s, level, m) == Through(a, s, level, m)
  {
    if s.Sub? && level > 0 {
      assert forall x: nat :: Refs(s.sub, x) == SlotRefs(s, x);
      ViewFrame(a, b, s.sub, level - 1, m);
    } else if s.Leaf? {
      assert SlotRefs(s, s.pte.addr) > 0;
    }
  }

  /** What page `m` shows once page `n` shows `seen`. */
  ghost function Now(frames0: Frames, t: Tree, level: nat, m: nat, n: nat, ok: bool, seen: Seen): Seen {
    if ok && SameWay(m, n, level) then seen else View(frames0, t, level, m)
  }

  ghost predicate Shows(frames0: Frames, t: Tree, frames: Frames, t': Tree, level: nat, n: nat, ok: bool, seen: Seen) {
    forall m: nat :: View(frames, t', level, m) == Now(frames0, t, level, m, n, ok, seen)
  }

  /** Only the page with the updated lowest-level slot shows something else. */
  lemma LeafShows(bits: seq<bool>, frames0: Frames, frames: Frames, t: Tree, n: nat, s: Slot, seen: Seen)
    requires |t.slots| == ENTRIES && |bits| == |frames0| == |frames| && Owned(t, bits)
    requires forall x: nat :: x < |frames0| && bits[x] && SlotRefs(t.slots[Index(n, 0)], x) == 0 && x != t.phys ==>
               frames[x] == frames0[x]
    requires seen == View(frames, Update(t, Index(n, 0), s), 0, n)
    ensures Shows(frames0, t, frames, Update(t, Index(n, 0), s), 0, n, true, seen)
  {
    var i := Index(n, 0);
    forall m: nat ensures View(frames, Update(t, i, s), 0, m) == Now(frames0, t, 0, m, n, true, seen) {
      if Index(m, 0) != i {
        OtherSlot(bits, frames0, frames, t, i, Index(m, 0));
        SlotView(frames0, frames, t, Update(t, i, s), 0, m);
      }
    }
  }

  lemma SubShows(bits: seq<bool>, frames0: Frames, frames: Frames, t: Tree, n: nat, level: nat, e: Pte, sub: Tree,
                 sub': Tree,
                 ok: bool, seen: Seen)
    requires |t.slots| == ENTRIES && |bits| == |frames0| == |frames| && Owned(t, bits) && level > 0
    requires t.slots[Index(n, level)] == Sub(e, sub) && Shows(frames0, sub, frames, sub', level - 1, n, ok, seen)
    requires forall x: nat :: x < |frames0| && bits[x] && SlotRefs(t.slots[Index(n, level)], x) == 0 && x != t.phys ==>
               frames[x] == frames0[x]
    ensures Shows(frames0, t, frames, Update(t, Index(n, level), Sub(e, sub')), level, n, ok, seen)
  {
    var i := Index(n, level);
    var t' := Update(t, i, Sub(e, sub'));
    forall m: nat ensures View(frames, t', level, m) == Now(frames0, t, level, m, n, ok, seen) {
      if Index(m, level) != i {
        assert !SameWay(m, n, level);
        OtherSlot(bits, frames0, frames, t, i, Index(m, level));
        SlotView(frames0, frames, t, t', level, m);
      } else {
        assert SameWay(m, n, level) <==> SameWay(m, n, level - 1);
        assert View(frames, sub', level - 1, m) == Now(frames0, sub, level - 1, m, n, ok, seen);
        assert View(frames, t', level, m) == Through(frames, Sub(e, sub'), level, m);
        assert View(frames0, t, level, m) == Through(frames0, Sub(e, sub), level, m);
      }
    }
  }

  /** A blank table shows nothing anywhere. */
  lemma BlankShows(bits: seq<bool>, frames0: Frames, frames1: Frames, frames: Frames, t: Tree, n: nat, level: nat,
                   e: Pte, np: nat,
                   sub': Tree, ok: bool, seen: Seen)
    requires |t.slots| == ENTRIES && |bits| == |frames0| == |frames1| == |frames| && Owned(t, bits) && level > 0
    requires t.slots[Index(n, level)] == Empty
             && Shows(frames1, Tree(np, Empties(ENTRIES)), frames, sub', level - 1, n, ok, seen)
    requires forall x: nat :: x < |frames0| && bits[x] && x != t.phys ==> frames[x] == frames0[x]
    ensures Shows(frames0, t, frames, Update(t, Index(n, level), Sub(e, sub')), level, n, ok, seen)
  {
    var i, blank := Index(n, level), Tree(np, Empties(ENTRIES));
    var t' := Update(t, i, Sub(e, sub'));
    forall m: nat ensures View(frames, t', level, m) == Now(frames0, t, level, m, n, ok, seen) {
      if Index(m, level) != i {
        assert !SameWay(m, n, level);
        OtherSlot(bits, frames0, frames, t, i, Index(m, level));
        SlotView(frames0, frames, t, t', level, m);
      } else {
        assert SameWay(m, n, level) <==> SameWay(m, n, level - 1);
        assert View(frames1, blank, level - 1, m) == Nothing;
        assert View(frames, sub', level - 1, m) == Now(frames1, blank, level - 1, m, n, ok, seen);
        assert View(frames, t', level, m) == Through(frames, Sub(e, sub'), level, m);
        assert View(frames0, t, level, m) == Through(frames0, Empty, level, m);
      }
    }
  }

  // ----- mapping a page -----------------------------------------------------------------------------------------

  /** The way to page `n` stays inside the space, up to a huge mapping that ends it. */
  ghost predicate OnWay(t: Tree, level: nat, n: nat)
    decreases level
  {
    |t.slots| == ENTRIES &&
    match t.slots[Index(n, level)]
    case Fixed(e) => level == 1 && e.flags.huge
    case Sub(_, sub) => level > 0 && OnWay(sub, level - 1, n)
    case _ => true
  }

  /** A table that the operations below work on. */
  ghost predicate Workable(frames: Frames, bits: seq<bool>, t: Tree, level: nat, k: Kernel) {
    && level <= 3 && |frames| == |bits| && Denotes(frames, t, level, k) && Owned(t, bits) && NoBit7(t)
    && Refs(t, 0) == 0
    && KernelStable(frames, k, bits, level) && KernelOutside(frames, k, t, -1, level) && (level < 2 ==> k == NoKernel)
  }

  /** A frame in use that belongs to neither the tree nor the kernel's tables. */
  ghost predicate Loose(frames: Frames, bits: seq<bool>, t: Tree, k: Kernel, p: nat, level: nat) {
    0 < p < |bits| && bits[p] && Refs(t, p) == 0 && KernelOutside(frames, k, t, p, level)
  }

  const TABLE_FLAGS: Flags := Flags(true, false, 6)

  /** What an operation at this level leaves behind. */
  ghost predicate Worked(bits0: seq<bool>, bits: seq<bool>, frames0: Frames, frames: Frames, t: Tree, t': Tree,
                         level: nat, k: Kernel,
                         n: nat, p: int, ok: bool, seen: Seen)
  {
    && Changed(bits0, bits, frames0, frames, t, t', p) && Workable(frames, bits, t', level, k)
    && Shows(frames0, t, frames, t', level, n, ok, seen)
  }

  lemma Untouched(bits: seq<bool>, frames: Frames, t: Tree, level: nat, k: Kernel, n: nat, seen: Seen)
    requires Workable(frames, bits, t, level, k)
    ensures Worked(bits, bits, frames, frames, t, t, level, k, n, -1, false, seen)
  {
    Unchanged(bits, frames, t);
  }

  /** Kernel tables are neither written nor taken in. */
  lemma KernelSafe(bits0: seq<bool>, bits: seq<bool>, frames0: Frames, frames: Frames, t: Tree, t': Tree, k: Kernel,
                   p: int, level: nat)
    requires Changed(bits0, bits, frames0, frames, t, t', p) && KernelStable(frames0, k, bits0, level)
    requires KernelOutside(frames0, k, t, p, level)
    ensures KernelStable(frames, k, bits, level) && KernelOutside(frames, k, t', -1, level)
    ensures forall j: nat {:trigger Below(frames, k, j)} :: Below(frames, k, j) == Below(frames0, k, j)
  {
    if level == 3 {
      forall j: nat ensures Below(frames, k, j) == Below(frames0, k, j) && KernelInUse(Below(frames0, k, j), bits)
                            && Outside(Below(frames0, k, j), t', -1) {
        assert Outside(Below(frames0, k, j), t, p) && KernelInUse(Below(frames0, k, j), bits0);
      }
    }
  }

  lemma UpdateNoBit7(t: Tree, i: nat, s: Slot)
    requires NoBit7(t) && i < |t.slots| && SlotNoBit7(s)
    ensures NoBit7(Update(t, i, s))
  {
  }

  /** The lowest level: set the entry to the page, or clear it. */
  lemma LeafWorked(bits: seq<bool>, frames: Frames, t: Tree, k: Kernel, n: nat, e: Pte, s: Slot, p: int)
    requires Workable(frames, bits, t, 0, k)
    requires if p < 0 then s == Empty && !e.flags.present
             else s == Leaf(e) && e.flags.present && !e.flags.huge && e.addr == p && Loose(frames, bits, t, k, p, 0)
    ensures var frames' := WithEntry(frames, t.phys, Index(n, 0), e);
            Worked(bits, bits, frames, frames', t, Update(t, Index(n, 0), s), 0, k, n, p, true,
                   if p < 0 then Nothing else Mine(e.flags, frames[p]))
  {
    var i := Index(n, 0);
    var frames', t' := WithEntry(frames, t.phys, i, e), Update(t, i, s);
    assert SlotIs(frames, frames[t.phys].ents[i], t.slots[i], 0, k, i);
    LeafChanged(bits, frames, t, i, e, s, p);
    KernelSafe(bits, bits, frames, frames', t, t', k, p, 0);
    UpdateDenotes(bits, frames, frames', t, i, s, e, 0, k);
    UpdateNoBit7(t, i, s);
    assert p >= 0 ==> p != t.phys;
    LeafShows(bits, frames, frames', t, n, s, if p < 0 then Nothing else Mine(e.flags, frames[p]));
  }

  /** A subtable that exists: what worked there works here. */
  lemma SubWorked(bits0: seq<bool>, bits: seq<bool>, frames0: Frames, frames: Frames, t: Tree, level: nat, k: Kernel,
                  n: nat,
                  e: Pte, sub: Tree, sub': Tree, p: int, ok: bool, seen: Seen)
    requires Workable(frames0, bits0, t, level, k) && level > 0 && t.slots[Index(n, level)] == Sub(e, sub)
    requires Worked(bits0, bits, frames0, frames, sub, sub', level - 1, Under(frames0, k, Index(n, level), level), n, p,
                    ok, seen)
    requires p >= 0 ==> Loose(frames0, bits0, t, k, p, level)
    ensures Worked(bits0, bits, frames0, frames, t, Update(t, Index(n, level), Sub(e, sub')), level, k, n, p, ok, seen)
  {
    var i := Index(n, level);
    var s' := Sub(e, sub');
    assert SlotIs(frames0, frames0[t.phys].ents[i], t.slots[i], level, k, i);
    Nested(bits0, bits, frames0, frames, t, i, e, sub, sub', p);
    KernelSafe(bits0, bits, frames0, frames, t, Update(t, i, s'), k, p, level);
    RefsUpdate(t, i, s');
    assert Refs(t, t.phys) == 1 && SlotRefs(t.slots[i], t.phys) == Refs(sub, t.phys) == 0;
    assert forall x: nat :: SlotRefs(t.slots[i], x) == Refs(sub, x);
    assert frames0[t.phys].ents[i := e] == frames0[t.phys].ents;
    UpdateDenotes(bits0, frames0, frames, t, i, s', e, level, k);
    UpdateNoBit7(t, i, s');
    SubShows(bits0, frames0, frames, t, n, level, e, sub, sub', ok, seen);
  }

  /** A subtable is workable when its table is. */
  lemma SubWorkable(frames: Frames, bits: seq<bool>, t: Tree, level: nat, k: Kernel, i: nat, p: int)
    requires Workable(frames, bits, t, level, k) && level > 0 && i < ENTRIES && t.slots[i].Sub?
    requires p >= 0 ==> Loose(frames, bits, t, k, p, level)
    ensures Workable(frames, bits, t.slots[i].sub, level - 1, Under(frames, k, i, level))
    ensures p >= 0 ==> Loose(frames, bits, t.slots[i].sub, Under(frames, k, i, level), p, level - 1)
    ensures t.slots[i].pte == frames[t.phys].ents[i] && t.slots[i].sub.phys == t.slots[i].pte.addr
  {
    var s, u := t.slots[i], Under(frames, k, i, level);
    assert SlotIs(frames, frames[t.phys].ents[i], s, level, k, i);
    forall x: nat ensures Refs(s.sub, x) <= Refs(t, x) {
      SlotsAt(t.slots, i, x);
    }
    assert SlotNoBit7(s);
    if level == 3 {
      assert Outside(Below(frames, k, i), t, -1) && KernelInUse(Below(frames, k, i), bits);
      assert p >= 0 ==> Outside(Below(frames, k, i), t, p);
    }
  }

  /** The memory with a blank table linked at slot `i`. */
  function Linked(frames: Frames, phys: nat, i: nat, np: nat): Frames
    requires IsTable(frames, phys) && i < ENTRIES && np < |frames| && np != phys
  { WithEntry(frames[np := Table(Blank())], phys, i, Pte(np, TABLE_FLAGS)) }

  lemma BlankWorkable(frames: Frames, bits: seq<bool>, t: Tree, level: nat, k: Kernel, i: nat, np: nat, p: int)
    requires Workable(frames, bits, t, level, k) && level > 0 && i < ENTRIES && 0 < np < |bits| && !bits[np]
    requires p >= 0 ==> Loose(frames, bits, t, k, p, level)
    ensures np != t.phys && (p >= 0 ==> p != np)
    ensures var frames1, bits1, sub := Linked(frames, t.phys, i, np), bits[np := true], Tree(np, Empties(ENTRIES));
            && Under(frames1, k, i, level) == Under(frames, k, i, level)
            && Workable(frames1, bits1, sub, level - 1, Under(frames1, k, i, level))
            && (p >= 0 ==> Loose(frames1, bits1, sub, Under(frames1, k, i, level), p, level - 1))
  {
    var sub := Tree(np, Empties(ENTRIES));
    assert Refs(t, t.phys) > 0;
    forall x: nat ensures Refs(sub, x) == if np == x then 1 else 0 {
      SlotsEmpty(ENTRIES, x);
    }
    if level == 3 {
      assert Outside(Below(frames, k, i), t, -1) && KernelInUse(Below(frames, k, i), bits);
      assert p >= 0 ==> Outside(Below(frames, k, i), t, p);
    }
  }

  lemma FreshWorked(bits0: seq<bool>, bits: seq<bool>, frames0: Frames, frames: Frames, t: Tree, level: nat, k: Kernel,
                    n: nat,
                    np: nat, sub': Tree, p: int, ok: bool, seen: Seen)
    requires Workable(frames0, bits0, t, level, k) && level > 0 && t.slots[Index(n, level)] == Empty && 0 < np < |bits0|
             && !bits0[np] && np != t.phys
    requires p >= 0 ==> Loose(frames0, bits0, t, k, p, level)
    requires var frames1 := Linked(frames0, t.phys, Index(n, level), np);
             Worked(bits0[np := true], bits, frames1, frames, Tree(np, Empties(ENTRIES)), sub', level - 1,
                    Under(frames0, k, Index(n, level), level), n, p, ok, seen)
    ensures Worked(bits0, bits, frames0, frames, t, Update(t, Index(n, level), Sub(Pte(np, TABLE_FLAGS), sub')), level,
                   k, n, p, ok, seen)
  {
    var i, e := Index(n, level), Pte(np, TABLE_FLAGS);
    var s', frames1 := Sub(e, sub'), Linked(frames0, t.phys, i, np);
    NestedFresh(bits0, bits, frames0, frames1, frames, t, i, e, np, sub', p);
    KernelSafe(bits0, bits, frames0, frames, t, Update(t, i, s'), k, p, level);
    BlankRefs(np);
    assert frames[t.phys] == frames1[t.phys] by {
      assert Refs(t, t.phys) > 0;
    }
    UpdateDenotes(bits0, frames0, frames, t, i, s', e, level, k);
    UpdateNoBit7(t, i, s');
    BlankShows(bits0, frames0, frames1, frames, t, n, level, e, np, sub', ok, seen);
  }

  lemma BlankRefs(np: nat)
    ensures forall x: nat :: Refs(Tree(np, Empties(ENTRIES)), x) == if np == x then 1 else 0
  {
    forall x: nat ensures Refs(Tree(np, Empties(ENTRIES)), x) == if np == x then 1 else 0 {
      SlotsEmpty(ENTRIES, x);
    }
  }
}
