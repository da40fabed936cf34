/** Address spaces: what a program sees at each page, and what mapping, unmapping,
    storing and cloning do to what it and others see. */
module VmmSpace {
  import opened VmmTables
  import opened VmmRam
  import opened VmmFree
  import opened VmmClone

  // ----- page numbers ----------------------------------------------------------------------------------

  /** The table index of page `n` at a level: nine bits of its number, the lowest
      for level 0. */
  function Index(n: nat, level: nat): (i: nat)
    ensures i < ENTRIES
    decreases level
  { if level == 0 then n % ENTRIES else Index(n / ENTRIES, level - 1) }

  /** The two pages take the same way from `level` down. */
  ghost predicate SameWay(m: nat, n: nat, level: nat) {
    forall l: nat :: l <= level ==> Index(m, l) == Index(n, l)
  }

  /** Number of pages a table at this level spans. */
  function Span(level: nat): nat { if level == 0 then ENTRIES else ENTRIES * Span(level - 1) }

  /** Pages of the address space are told apart by their indices. */
  lemma {:induction false} SameWaySame(m: nat, n: nat, level: nat)
    requires SameWay(m, n, level) && m < Span(level) && n < Span(level)
    ensures m == n
    decreases level
  {
    assert Index(m, 0) == Index(n, 0);
    if level > 0 {
      forall l: nat | l <= level - 1 ensures Index(m / ENTRIES, l) == Index(n / ENTRIES, l) {
        assert Index(m, l + 1) == Index(n, l + 1);
      }
      SameWaySame(m / ENTRIES, n / ENTRIES, level - 1);
    }
  }

  // ----- what a program sees -----------------------------------------------------------------------------

  /** Nothing, a private page with its attributes and contents, or something that is
      not the space's own. */
  datatype Seen = Nothing | Mine(flags: Flags, data: Frame) | Foreign(pte: Pte)

  ghost function View(frames: Frames, t: Tree, level: nat, n: nat): Seen
    decreases level, 1
  {
    if |t.slots| != ENTRIES then Nothing else Through(frames, t.slots[Index(n, level)], level, n)
  }

  /** What page `n` shows through its slot at this level. */
  ghost function Through(frames: Frames, s: Slot, level: nat, n: nat): Seen
    decreases level, 0
  {
    match s
    case Empty => Nothing
    case Fixed(e) => Foreign(e)
    case Leaf(e) => if e.addr < |frames| then Mine(e.flags, frames[e.addr]) else Nothing
    case Sub(_, sub) => if level == 0 then Nothing else View(frames, sub, level - 1, n)
  }

  /** A copy shows the same at every page. */
  lemma {:induction false} CopyView(a: Frames, t: Tree, b: Frames, c: Tree, level: nat, n: nat)
    requires Copy(a, t, b, c)
    ensures View(b, c, level, n) == View(a, t, level, n)
    decreases level
  {
    if |t.slots| == ENTRIES {
      var i := Index(n, level);
      assert CopySlot(a, t.slots[i], b, c.slots[i]);
      if t.slots[i].Sub? && level > 0 {
        CopyView(a, t.slots[i].sub, b, c.slots[i].sub, level - 1, n);
      }
    }
  }

  /** What a space shows depends on its own frames only. */
  lemma {:induction false} ViewFrame(a: Frames, b: Frames, t: Tree, level: nat, n: nat)
    requires Agree(a, b, t)
    ensures View(b, t, level, n) == View(a, t, level, n)
    decreases level
  {
    if |t.slots| == ENTRIES {
      var i := Index(n, level);
      var s := t.slots[i];
      if s.Leaf? {
        SlotsAt(t.slots, i, s.pte.addr);
      } else if s.Sub? && level > 0 {
        forall x: nat | x < |a| && Refs(s.sub, x) > 0 ensures b[x] == a[x] {
          SlotsAt(t.slots, i, x);
        }
        ViewFrame(a, b, s.sub, level - 1, n);
      }
    }
  }

  // ----- a fork --------------------------------------------------------------------------------------------

  /** Two spaces have no frame in common. */
  ghost predicate Disjoint(t: Tree, u: Tree) {
    forall x: nat :: Refs(t, x) == 0 || Refs(u, x) == 0
  }

  /** A space as the kernel keeps it. */
  ghost predicate SpaceOk(ram: Ram, t: Tree, k: Kernel)
    reads ram
  { ram.Valid() && Clonable(ram.frames, ram.bits, t, 3, k) }

  /** Clone an address space: the child shows the same as the parent at every page,
      on frames of its own; the parent shows what it showed. It succeeds exactly when
      there are as many free frames as the parent owns, and otherwise the frames in
      use are what they were. */
  method Fork(ram: Ram, src: nat, k: Kernel, ghost t: Tree) returns (phys: nat, ghost c: Tree)
    requires SpaceOk(ram, t, k) && src == t.phys
    modifies ram
    ensures ram.Valid() && SpaceOk(ram, t, k)
    ensures forall n: nat :: View(ram.frames, t, 3, n) == old(View(ram.frames, t, 3, n))
    ensures Kept(old(ram.bits), old(ram.frames), ram.frames)
    ensures phys == 0 ==> ram.bits == old(ram.bits)
    ensures if phys != 0 then ram.freeCount + Size(t) == old(ram.freeCount) else old(ram.freeCount) < Size(t)
    ensures phys != 0 ==> && c.phys == phys && SpaceOk(ram, c, k) && Disjoint(t, c)
                          && (forall n: nat :: View(ram.frames, c, 3, n) == old(View(ram.frames, t, 3, n)))
                          && (forall x: nat :: x < |ram.bits| ==> (ram.bits[x] <==> old(ram.bits)[x] || Refs(c, x) > 0))
                          && (forall x: nat :: Refs(c, x) > 0 ==> x < |old(ram.bits)| && !old(ram.bits)[x])
  {
    ghost var bits0, frames0 := ram.bits, ram.frames;
    phys, c := CloneTable(ram, src, k, 3, t);
    SpaceKept(bits0, ram.bits, frames0, ram.frames, t, k);
    forall n: nat ensures View(ram.frames, t, 3, n) == View(frames0, t, 3, n) {
      ViewFrame(frames0, ram.frames, t, 3, n);
    }
    if phys != 0 {
      CloneOk(bits0, ram.bits, frames0, ram.frames, t, c, k);
      forall n: nat ensures View(ram.frames, c, 3, n) == View(frames0, t, 3, n) {
        CopyView(frames0, t, ram.frames, c, 3, n);
      }
    }
  }

  lemma SpaceKept(bits0: seq<bool>, bits: seq<bool>, frames0: Frames, frames: Frames, t: Tree, k: Kernel)
    requires Clonable(frames0, bits0, t, 3, k) && Kept(bits0, frames0, frames)
    requires |bits| == |bits0| && forall x: nat :: x < |bits0| && bits0[x] ==> bits[x]
    ensures Clonable(frames, bits, t, 3, k) && Agree(frames0, frames, t)
  {
    BelowSame(bits0, frames0, frames, k);
    DenotesFrame(frames0, frames, t, 3, k);
    assert forall i: nat {:trigger Below(frames, k, i)} :: KernelInUse(Below(frames0, k, i), bits0);
  }

  lemma CloneOk(bits0: seq<bool>, bits: seq<bool>, frames0: Frames, frames: Frames, t: Tree, c: Tree, k: Kernel)
    requires Clonable(frames0, bits0, t, 3, k) && Taken(bits0, bits, frames0, frames, c)
    requires Denotes(frames, c, 3, k) && Copy(frames0, t, frames, c)
    ensures Clonable(frames, bits, c, 3, k) && Disjoint(t, c)
  {
    SpaceKept(bits0, bits, frames0, frames, t, k);
    forall i: nat | i < |c.slots| ensures SlotNoBit7(c.slots[i]) {
      CopyBit7(frames0, t.slots[i], frames, c.slots[i]);
    }
  }

  /** A fork undone leaves every frame as it was: in use or free. */
  method ForkThenDestroy(ram: Ram, src: nat, k: Kernel, ghost t: Tree)
    requires SpaceOk(ram, t, k) && src == t.phys
    modifies ram
    ensures ram.Valid() && ram.bits == old(ram.bits) && SpaceOk(ram, t, k)
    ensures forall n: nat :: View(ram.frames, t, 3, n) == old(View(ram.frames, t, 3, n))
  {
    ghost var bits0, frames0 := ram.bits, ram.frames;
    var phys;
    ghost var c;
    phys, c := Fork(ram, src, k, t);
    if phys != 0 {
      assert Refs(c, 0) == 0;
      DestroyPagetable(ram, phys, k, c);
      assert forall x: nat :: x < |bits0| ==> ram.bits[x] == bits0[x];
    }
    SpaceKept(bits0, ram.bits, frames0, ram.frames, t, k);
  }
}
