/** Cloning an address space for fork: tables and pages are copied to fresh frames,
    what belongs to the kernel is shared. */
module VmmClone {
  import opened VmmTables
  import opened VmmRam
  import opened VmmFree

  /** Exactly the frames of the new tree were taken, all of them free before, and no
      frame that was in use was written. */
  ghost predicate Taken(bits0: seq<bool>, bits: seq<bool>, frames0: Frames, frames: Frames, t: Tree) {
    && |bits| == |bits0| == |frames| == |frames0|
    && (forall x: nat :: Refs(t, x) <= 1 && (Refs(t, x) > 0 ==> x < |bits0| && !bits0[x]))
    && (forall x: nat :: x < |bits| ==> (bits[x] <==> bits0[x] || Refs(t, x) > 0))
    && (forall x: nat :: x < |bits| && bits0[x] ==> frames[x] == frames0[x])
  }

  /** The table built so far: the slots `done`, and nothing after them. */
  ghost function Partial(phys: nat, done: seq<Slot>): Tree
    requires |done| <= ENTRIES
  { Tree(phys, done + Empties(ENTRIES - |done|)) }

  lemma PartialRefs(phys: nat, done: seq<Slot>, x: nat)
    requires |done| <= ENTRIES
    ensures Refs(Partial(phys, done), x) == (if phys == x then 1 else 0) + SlotsRefs(done, x)
  {
    SlotsConcat(done, Empties(ENTRIES - |done|), x);
    SlotsEmpty(ENTRIES - |done|, x);
  }

  /** One slot more. */
  lemma PartialMore(phys: nat, done: seq<Slot>, s: Slot, x: nat)
    requires |done| < ENTRIES
    ensures Refs(Partial(phys, done + [s]), x) == Refs(Partial(phys, done), x) + SlotRefs(s, x)
  {
    PartialRefs(phys, done, x);
    PartialRefs(phys, done + [s], x);
    SlotsSnoc(done, s, x);
  }

  /** An absent entry adds nothing. */
  lemma PartialSkip(phys: nat, done: seq<Slot>)
    requires |done| < ENTRIES
    ensures Partial(phys, done + [Empty]) == Partial(phys, done)
  {
    assert done + [Empty] + Empties(ENTRIES - |done| - 1) == done + Empties(ENTRIES - |done|);
  }

  ghost predicate CopiesSo(a: Frames, src: seq<Slot>, b: Frames, done: seq<Slot>) {
    |done| <= |src| && forall i: nat :: i < |done| ==> CopySlot(a, src[i], b, done[i])
  }

  /** The state of the loop: the slots `done` are copied and in the new table. */
  ghost predicate Cloning(bits0: seq<bool>, bits: seq<bool>, frames0: Frames, frames: Frames, phys: nat,
                          done: seq<Slot>,
                          src: Tree, level: nat, k: Kernel)
  {
    && |done| <= ENTRIES == |src.slots| && Taken(bits0, bits, frames0, frames, Partial(phys, done))
    && Denotes(frames, Partial(phys, done), level, k) && CopiesSo(frames0, src.slots, frames, done)
  }

  // ----- the start ------------------------------------------------------------------------------------------

  function Blank(): (r: seq<Pte>)
    ensures |r| == ENTRIES && forall i :: 0 <= i < ENTRIES ==> r[i] == NONE
  { seq(ENTRIES, _ => NONE) }

  lemma CloneStart(bits0: seq<bool>, frames0: Frames, phys: nat, src: Tree, level: nat, k: Kernel)
    requires phys < |bits0| == |frames0| && !bits0[phys] && |src.slots| == ENTRIES
    ensures Cloning(bits0, bits0[phys := true], frames0, frames0[phys := Table(Blank())], phys, [], src, level, k)
  {
    var t := Partial(phys, []);
    forall x: nat ensures Refs(t, x) == if phys == x then 1 else 0 {
      PartialRefs(phys, [], x);
    }
    assert t.slots == Empties(ENTRIES);
  }

  // ----- one slot -------------------------------------------------------------------------------------------

  /** Frames in use before are as they were. */
  ghost predicate Kept(bits0: seq<bool>, frames0: Frames, frames: Frames) {
    |bits0| == |frames0| == |frames| && forall x: nat :: x < |bits0| && bits0[x] ==> frames[x] == frames0[x]
  }

  lemma BelowSame(bits0: seq<bool>, frames0: Frames, frames: Frames, k: Kernel)
    requires Kept(bits0, frames0, frames) && KernelInUse(k, bits0)
    ensures forall i: nat {:trigger Below(frames, k, i)} :: Below(frames, k, i) == Below(frames0, k, i)
  {
  }

  lemma SlotIsKept(a: Frames, b: Frames, e: Pte, s: Slot, level: nat, k: Kernel, i: nat)
    requires SlotIs(a, e, s, level, k, i) && |a| == |b|
             && (forall x: nat :: x < |a| && SlotRefs(s, x) > 0 ==> b[x] == a[x])
    requires Below(a, k, i) == Below(b, k, i)
    ensures SlotIs(b, e, s, level, k, i)
  {
    if s.Sub? {
      assert forall x: nat :: Refs(s.sub, x) == SlotRefs(s, x);
      DenotesFrame(a, b, s.sub, level - 1, Under(a, k, i, level));
    }
  }

  /** Slot `s` took exactly its own frames. */
  ghost predicate SlotTaken(bits0: seq<bool>, bits: seq<bool>, frames0: Frames, frames: Frames, s: Slot) {
    && Kept(bits0, frames0, frames) && |bits| == |bits0|
    && (forall x: nat :: SlotRefs(s, x) <= 1 && (SlotRefs(s, x) > 0 ==> x < |bits0| && !bits0[x]))
    && (forall x: nat :: x < |bits| ==> (bits[x] <==> bits0[x] || SlotRefs(s, x) > 0))
  }

  /** Store entry `e` at slot `i` of the table at `phys`. */
  function WithEntry(frames: Frames, phys: nat, i: nat, e: Pte): Frames
    requires IsTable(frames, phys) && i < ENTRIES
  { frames[phys := Table(frames[phys].ents[i := e])] }

  /** The step of the loop, whatever the slot is. */
  lemma CloneStep(bits0: seq<bool>, bits1: seq<bool>, bits2: seq<bool>, frames0: Frames, frames1: Frames,
                  frames2: Frames,
                  phys: nat, done: seq<Slot>, src: Tree, level: nat, k: Kernel, e: Pte, s: Slot)
    requires Cloning(bits0, bits1, frames0, frames1, phys, done, src, level, k) && |done| < ENTRIES
    requires KernelInUse(k, bits0) && SlotTaken(bits1, bits2, frames1, frames2, s)
    requires SlotIs(frames2, e, s, level, k, |done|) && CopySlot(frames0, src.slots[|done|], frames2, s)
    ensures IsTable(frames2, phys)
    ensures Cloning(bits0, bits2, frames0, WithEntry(frames2, phys, |done|, e), phys, done + [s], src, level, k)
  {
    TableKept(bits0, bits1, frames0, frames1, frames2, phys, done);
    var frames3 := WithEntry(frames2, phys, |done|, e);
    StepTaken(bits0, bits1, bits2, frames0, frames1, frames2, phys, done, e, s);
    StepDenotes(bits0, bits1, bits2, frames0, frames1, frames2, phys, done, src, level, k, e, s);
    StepCopies(bits0, bits1, bits2, frames0, frames1, frames2, phys, done, src, e, s);
  }

  lemma TableKept(bits0: seq<bool>, bits1: seq<bool>, frames0: Frames, frames1: Frames, frames2: Frames, phys: nat,
                  done: seq<Slot>)
    requires |done| <= ENTRIES && Taken(bits0, bits1, frames0, frames1, Partial(phys, done)) && IsTable(frames1, phys)
    requires Kept(bits1, frames1, frames2)
    ensures frames2[phys] == frames1[phys] && !bits0[phys] && bits1[phys] && SlotsRefs(done, phys) == 0
  {
    PartialRefs(phys, done, phys);
    assert Refs(Partial(phys, done), phys) > 0;
  }

  lemma StepTaken(bits0: seq<bool>, bits1: seq<bool>, bits2: seq<bool>, frames0: Frames, frames1: Frames,
                  frames2: Frames,
                  phys: nat, done: seq<Slot>, e: Pte, s: Slot)
    requires |done| < ENTRIES && Taken(bits0, bits1, frames0, frames1, Partial(phys, done)) && IsTable(frames2, phys)
    requires SlotTaken(bits1, bits2, frames1, frames2, s) && !bits0[phys]
    ensures Taken(bits0, bits2, frames0, WithEntry(frames2, phys, |done|, e), Partial(phys, done + [s]))
  {
    var t, t2 := Partial(phys, done), Partial(phys, done + [s]);
    forall x: nat ensures Refs(t2, x) == Refs(t, x) + SlotRefs(s, x) {
      PartialMore(phys, done, s, x);
    }
    forall x: nat ensures Refs(t2, x) <= 1 && (Refs(t2, x) > 0 ==> x < |bits0| && !bits0[x]) {
      assert Refs(t, x) <= 1;
    }
  }

  lemma StepCopies(bits0: seq<bool>, bits1: seq<bool>, bits2: seq<bool>, frames0: Frames, frames1: Frames,
                   frames2: Frames,
                   phys: nat, done: seq<Slot>, src: Tree, e: Pte, s: Slot)
    requires |done| < ENTRIES == |src.slots| && Taken(bits0, bits1, frames0, frames1, Partial(phys, done))
             && IsTable(frames2, phys)
    requires CopiesSo(frames0, src.slots, frames1, done) && SlotTaken(bits1, bits2, frames1, frames2, s)
    requires bits1[phys] && SlotsRefs(done, phys) == 0 && CopySlot(frames0, src.slots[|done|], frames2, s)
    ensures CopiesSo(frames0, src.slots, WithEntry(frames2, phys, |done|, e), done + [s])
  {
    var frames3 := WithEntry(frames2, phys, |done|, e);
    forall j: nat | j < |done| + 1 ensures CopySlot(frames0, src.slots[j], frames3, (done + [s])[j]) {
      if j < |done| {
        EarlierKept(bits0, bits1, frames0, frames1, frames2, phys, done, e, j);
        CopySlotFrame(frames0, src.slots[j], frames1, frames3, done[j]);
      } else {
        assert SlotRefs(s, phys) == 0;
        CopySlotFrame(frames0, src.slots[j], frames2, frames3, s);
      }
    }
  }

  /** The frames of an earlier slot are untouched by a later one. */
  lemma EarlierKept(bits0: seq<bool>, bits1: seq<bool>, frames0: Frames, frames1: Frames, frames2: Frames,
                    phys: nat, done: seq<Slot>, e: Pte, j: nat)
    requires |done| < ENTRIES && Taken(bits0, bits1, frames0, frames1, Partial(phys, done)) && IsTable(frames2, phys)
    requires Kept(bits1, frames1, frames2) && SlotsRefs(done, phys) == 0 && j < |done|
    ensures forall x: nat :: x < |frames1| && SlotRefs(done[j], x) > 0 ==>
              WithEntry(frames2, phys, |done|, e)[x] == frames1[x]
  {
    forall x: nat | x < |frames1| && SlotRefs(done[j], x) > 0
      ensures WithEntry(frames2, phys, |done|, e)[x] == frames1[x] {
      SlotsAt(done, j, x);
      PartialRefs(phys, done, x);
      assert Refs(Partial(phys, done), x) > 0;
    }
  }

  lemma StepDenotes(bits0: seq<bool>, bits1: seq<bool>, bits2: seq<bool>, frames0: Frames, frames1: Frames,
                    frames2: Frames,
                    phys: nat, done: seq<Slot>, src: Tree, level: nat, k: Kernel, e: Pte, s: Slot)
    requires Cloning(bits0, bits1, frames0, frames1, phys, done, src, level, k) && |done| < ENTRIES
    requires KernelInUse(k, bits0) && SlotTaken(bits1, bits2, frames1, frames2, s)
             && SlotIs(frames2, e, s, level, k, |done|)
    requires IsTable(frames2, phys) && frames2[phys] == frames1[phys] && !bits0[phys] && bits1[phys]
             && SlotsRefs(done, phys) == 0
    ensures Denotes(WithEntry(frames2, phys, |done|, e), Partial(phys, done + [s]), level, k)
  {
    var frames3, t, t2 := WithEntry(frames2, phys, |done|, e), Partial(phys, done), Partial(phys, done + [s]);
    BelowSame(bits0, frames0, frames1, k);
    BelowSame(bits0, frames0, frames2, k);
    BelowSame(bits0, frames0, frames3, k);
    forall j: nat | j < ENTRIES ensures SlotIs(frames3, frames3[phys].ents[j], t2.slots[j], level, k, j) {
      assert SlotIs(frames1, frames1[phys].ents[j], t.slots[j], level, k, j);
      if j < |done| {
        EarlierKept(bits0, bits1, frames0, frames1, frames2, phys, done, e, j);
        SlotIsKept(frames1, frames3, frames1[phys].ents[j], done[j], level, k, j);
      } else if j == |done| {
        assert SlotRefs(s, phys) == 0;
        SlotIsKept(frames2, frames3, e, s, level, k, j);
      }
    }
  }

  // ----- the slots ------------------------------------------------------------------------------------------

  lemma FixedStep(bits0: seq<bool>, bits1: seq<bool>, frames0: Frames, frames1: Frames, phys: nat, done: seq<Slot>,
                  src: Tree, level: nat, k: Kernel, e: Pte)
    requires Cloning(bits0, bits1, frames0, frames1, phys, done, src, level, k) && |done| < ENTRIES
             && KernelInUse(k, bits0)
    requires src.slots[|done|] == Fixed(e) && e.flags.present && (Shares(k, |done|, e) || (Ends(e, level) && level > 0))
    ensures Cloning(bits0, bits1, frames0, WithEntry(frames1, phys, |done|, e), phys, done + [Fixed(e)], src, level, k)
  {
    CloneStep(bits0, bits1, bits1, frames0, frames1, frames1, phys, done, src, level, k, e, Fixed(e));
  }

  lemma SkipStep(bits0: seq<bool>, bits1: seq<bool>, frames0: Frames, frames1: Frames, phys: nat, done: seq<Slot>,
                 src: Tree, level: nat, k: Kernel)
    requires Cloning(bits0, bits1, frames0, frames1, phys, done, src, level, k) && |done| < ENTRIES
             && src.slots[|done|] == Empty
    ensures Cloning(bits0, bits1, frames0, frames1, phys, done + [Empty], src, level, k)
  {
    PartialSkip(phys, done);
    assert CopySlot(frames0, src.slots[|done|], frames1, Empty);
  }

  /** A page copied to the fresh frame `np`. */
  lemma LeafStep(bits0: seq<bool>, bits1: seq<bool>, frames0: Frames, frames1: Frames, phys: nat, done: seq<Slot>,
                 src: Tree, k: Kernel, e: Pte, np: nat)
    requires Cloning(bits0, bits1, frames0, frames1, phys, done, src, 0, k) && |done| < ENTRIES && KernelInUse(k, bits0)
    requires src.slots[|done|] == Leaf(e) && e.flags.present && e.addr < |bits0| && bits0[e.addr] && np < |bits1|
             && !bits1[np]
    ensures var frames2, c := frames1[np := frames1[e.addr]], Pte(np, e.flags);
            && IsTable(frames2, phys)
            && Cloning(bits0, bits1[np := true], frames0, WithEntry(frames2, phys, |done|, c), phys, done + [Leaf(c)],
                       src, 0, k)
  {
    CloneStep(bits0, bits1, bits1[np := true], frames0, frames1, frames1[np := frames1[e.addr]], phys, done, src, 0, k,
              Pte(np, e.flags), Leaf(Pte(np, e.flags)));
  }

  /** A subtable cloned to the tree `sub`. */
  lemma SubStep(bits0: seq<bool>, bits1: seq<bool>, bits2: seq<bool>, frames0: Frames, frames1: Frames, frames2: Frames,
                phys: nat,
                done: seq<Slot>, src: Tree, level: nat, k: Kernel, e: Pte, sub: Tree)
    requires Cloning(bits0, bits1, frames0, frames1, phys, done, src, level, k) && |done| < ENTRIES
             && KernelInUse(k, bits0) && level > 0
    requires src.slots[|done|].Sub? && src.slots[|done|].pte == e && e.flags.present && !Ends(e, level)
    requires Taken(bits1, bits2, frames1, frames2, sub)
             && Denotes(frames2, sub, level - 1, Under(frames1, k, |done|, level))
    requires Copy(frames1, src.slots[|done|].sub, frames2, sub)
    requires forall x: nat :: Refs(src.slots[|done|].sub, x) > 0 ==> x < |bits0| && bits0[x]
    ensures var c := Pte(sub.phys, e.flags);
            && IsTable(frames2, phys)
            && Cloning(bits0, bits2, frames0, WithEntry(frames2, phys, |done|, c), phys, done + [Sub(c, sub)], src,
                       level, k)
  {
    var s := Sub(Pte(sub.phys, e.flags), sub);
    assert forall x: nat :: SlotRefs(s, x) == Refs(sub, x);
    BelowSame(bits0, frames0, frames1, k);
    BelowSame(bits1, frames1, frames2, k);
    assert Refs(sub, sub.phys) > 0;
    var was := src.slots[|done|];
    assert forall x: nat :: SlotRefs(was, x) == Refs(was.sub, x);
    assert CopySlot(frames1, was, frames2, s);
    CopySlotSource(frames1, frames0, was, frames2, s);
    CloneStep(bits0, bits1, bits2, frames0, frames1, frames2, phys, done, src, level, k, s.pte, s);
  }

  // ----- the clone ------------------------------------------------------------------------------------------

  /** What is there to clone: a table whose frames are its own and in use, next to a
      kernel whose tables are in use. */
  ghost predicate Clonable(frames: Frames, bits: seq<bool>, t: Tree, level: nat, k: Kernel) {
    Denotes(frames, t, level, k) && Owned(t, bits) && NoBit7(t) && KernelStable(frames, k, bits, level)
  }

  /** A partial clone is torn down completely. */
  lemma PartialOwned(bits0: seq<bool>, bits: seq<bool>, frames0: Frames, frames: Frames, phys: nat, done: seq<Slot>,
                     src: Tree, level: nat, k: Kernel)
    requires Cloning(bits0, bits, frames0, frames, phys, done, src, level, k) && NoBit7(src) && 0 < |bits0| && bits0[0]
    ensures Owned(Partial(phys, done), bits) && Refs(Partial(phys, done), 0) == 0 && NoBit7(Partial(phys, done))
  {
    var t := Partial(phys, done);
    forall i: nat | i < |t.slots| ensures SlotNoBit7(t.slots[i]) {
      if i < |done| {
        CopyBit7(frames0, src.slots[i], frames, done[i]);
      }
    }
  }

  method Undo(ram: Ram, phys: nat, k: Kernel, level: nat, ghost bits0: seq<bool>, ghost frames0: Frames,
              ghost done: seq<Slot>, ghost src: Tree)
    requires ram.Valid() && level <= 3 && Cloning(bits0, ram.bits, frames0, ram.frames, phys, done, src, level, k)
    requires NoBit7(src) && 0 < |bits0| && bits0[0]
    modifies ram`bits, ram`freeCount
    ensures ram.Valid() && ram.bits == bits0 && Kept(bits0, frames0, ram.frames)
  {
    PartialOwned(bits0, ram.bits, frames0, ram.frames, phys, done, src, level, k);
    FreeTable(ram, phys, k, level, Partial(phys, done));
    FreesAllIff(Partial(phys, done));
    forall x: nat | x < |bits0| ensures ram.bits[x] == bits0[x] {
      assert Freed(Partial(phys, done), x) == Refs(Partial(phys, done), x);
    }
  }

  /** The slot's subtable can be cloned with the memory as it is now. */
  lemma SubClonable(bits0: seq<bool>, bits: seq<bool>, frames0: Frames, frames: Frames, t: Tree, level: nat, k: Kernel,
                    i: nat)
    requires Clonable(frames0, bits0, t, level, k) && i < ENTRIES && t.slots[i].Sub? && 0 < level <= 3
    requires Kept(bits0, frames0, frames) && |bits| == |bits0| && forall x: nat :: x < |bits0| && bits0[x] ==> bits[x]
    ensures Clonable(frames, bits, t.slots[i].sub, level - 1, Under(frames, k, i, level))
    ensures forall x: nat :: Refs(t.slots[i].sub, x) > 0 ==> x < |bits0| && bits0[x]
    ensures t.slots[i].pte == frames0[t.phys].ents[i] && t.slots[i].sub.phys == t.slots[i].pte.addr
  {
    var s := t.slots[i];
    assert SlotIs(frames0, frames0[t.phys].ents[i], s, level, k, i);
    forall x: nat ensures Refs(s.sub, x) <= Refs(t, x) {
      SlotsAt(t.slots, i, x);
    }
    BelowSame(bits0, frames0, frames, k);
    DenotesFrame(frames0, frames, s.sub, level - 1, Under(frames0, k, i, level));
    UnderStable(bits0, bits, frames0, frames, k, i, level);
    assert SlotNoBit7(s);
  }

  lemma UnderStable(bits0: seq<bool>, bits: seq<bool>, frames0: Frames, frames: Frames, k: Kernel, i: nat, level: nat)
    requires KernelStable(frames0, k, bits0, level) && Kept(bits0, frames0, frames) && 0 < level <= 3
    requires |bits| == |bits0| && forall x: nat :: x < |bits0| && bits0[x] ==> bits[x]
    ensures KernelStable(frames, Under(frames, k, i, level), bits, level - 1)
  {
    BelowSame(bits0, frames0, frames, k);
    assert level == 3 ==> KernelInUse(Below(frames0, k, i), bits0);
  }

  /** Clone one private page; false when no frame is left. */
  method CloneLeaf(ram: Ram, e: Pte, k: Kernel, i: nat, phys: nat, ghost bits0: seq<bool>, ghost frames0: Frames,
                   ghost done: seq<Slot>, ghost t: Tree) returns (ok: bool, ghost s: Slot)
    requires ram.Valid() && 0 < |bits0| && bits0[0] && Clonable(frames0, bits0, t, 0, k)
    requires i == |done| < ENTRIES && e == frames0[t.phys].ents[i] && t.slots[i] == Leaf(e) && e.flags.present
    requires Cloning(bits0, ram.bits, frames0, ram.frames, phys, done, t, 0, k)
    modifies ram
    ensures ram.Valid()
    ensures ok ==> Cloning(bits0, ram.bits, frames0, ram.frames, phys, done + [s], t, 0, k)
    ensures if ok then ram.freeCount + 1 == old(ram.freeCount) else old(ram.freeCount) == 0
    ensures !ok ==> ram.bits == bits0 && Kept(bits0, frames0, ram.frames)
  {
    ghost var bits1, frames1 := ram.bits, ram.frames;
    SlotsAt(t.slots, i, e.addr);
    assert Refs(t, e.addr) > 0;
    var np := ram.AllocPage();
    s := Leaf(Pte(np, e.flags));
    ok := np != 0;
    if !ok {
      Undo(ram, phys, k, 0, bits0, frames0, done, t);
    } else {
      LeafStep(bits0, bits1, frames0, frames1, phys, done, t, k, e, np);
      ram.frames := ram.frames[np := ram.frames[e.addr]];
      ram.frames := WithEntry(ram.frames, phys, i, Pte(np, e.flags));
    }
  }

  /** Clone one private subtable. */
  method CloneSub(ram: Ram, e: Pte, k: Kernel, i: nat, level: nat, phys: nat, ghost bits0: seq<bool>,
                  ghost frames0: Frames,
                  ghost done: seq<Slot>, ghost t: Tree) returns (ok: bool, ghost s: Slot)
    requires ram.Valid() && 0 < level <= 3 && 0 < |bits0| && bits0[0] && Clonable(frames0, bits0, t, level, k)
    requires i == |done| < ENTRIES && e == frames0[t.phys].ents[i] && t.slots[i].Sub? && e.flags.present
             && !Ends(e, level)
    requires Cloning(bits0, ram.bits, frames0, ram.frames, phys, done, t, level, k)
    modifies ram
    ensures ram.Valid()
    ensures ok ==> Cloning(bits0, ram.bits, frames0, ram.frames, phys, done + [s], t, level, k)
    ensures !ok ==> ram.bits == bits0 && Kept(bits0, frames0, ram.frames)
    ensures if ok then ram.freeCount + SlotSize(t.slots[i]) == old(ram.freeCount)
            else old(ram.freeCount) < SlotSize(t.slots[i])
    decreases level, 0
  {
    ghost var bits1, frames1 := ram.bits, ram.frames;
    SubClonable(bits0, bits1, frames0, frames1, t, level, k, i);
    var child;
    ghost var sub;
    child, sub := CloneTable(ram, e.addr, Under(ram.frames, k, i, level), level - 1, t.slots[i].sub);
    s := Sub(Pte(child, e.flags), sub);
    ok := child != 0;
    if !ok {
      StillCloning(bits0, bits1, frames0, frames1, ram.frames, phys, done, t, level, k);
      Undo(ram, phys, k, level, bits0, frames0, done, t);
    } else {
      SubStep(bits0, bits1, ram.bits, frames0, frames1, ram.frames, phys, done, t, level, k, e, sub);
      ram.frames := WithEntry(ram.frames, phys, i, Pte(child, e.flags));
    }
  }

  /** Frames that are free again may hold anything. */
  lemma StillCloning(bits0: seq<bool>, bits1: seq<bool>, frames0: Frames, frames1: Frames, frames2: Frames, phys: nat,
                     done: seq<Slot>, src: Tree, level: nat, k: Kernel)
    requires Cloning(bits0, bits1, frames0, frames1, phys, done, src, level, k) && Kept(bits1, frames1, frames2)
             && KernelInUse(k, bits0)
    ensures Cloning(bits0, bits1, frames0, frames2, phys, done, src, level, k)
  {
    BelowSame(bits0, frames0, frames1, k);
    BelowSame(bits0, frames0, frames2, k);
    DenotesFrame(frames1, frames2, Partial(phys, done), level, k);
    forall j: nat | j < |done| ensures CopySlot(frames0, src.slots[j], frames2, done[j]) {
      forall x: nat | x < |frames1| && SlotRefs(done[j], x) > 0 ensures frames2[x] == frames1[x] {
        SlotsAt(done, j, x);
        PartialRefs(phys, done, x);
        assert Refs(Partial(phys, done), x) > 0;
      }
      CopySlotFrame(frames0, src.slots[j], frames1, frames2, done[j]);
    }
  }

  /** Clone one entry; on failure everything cloned so far is given back. */
  method CloneSlot(ram: Ram, e: Pte, k: Kernel, i: nat, level: nat, phys: nat, ghost bits0: seq<bool>,
                   ghost frames0: Frames,
                   ghost done: seq<Slot>, ghost t: Tree) returns (ok: bool, ghost s: Slot)
    requires ram.Valid() && level <= 3 && 0 < |bits0| && bits0[0] && Clonable(frames0, bits0, t, level, k)
    requires i == |done| < ENTRIES && e == frames0[t.phys].ents[i]
    requires Cloning(bits0, ram.bits, frames0, ram.frames, phys, done, t, level, k)
    modifies ram
    ensures ram.Valid()
    ensures ok ==> Cloning(bits0, ram.bits, frames0, ram.frames, phys, done + [s], t, level, k)
    ensures !ok ==> ram.bits == bits0 && Kept(bits0, frames0, ram.frames)
    ensures if ok then ram.freeCount + SlotSize(t.slots[i]) == old(ram.freeCount)
            else old(ram.freeCount) < SlotSize(t.slots[i])
    decreases level, 1
  {
    assert SlotIs(frames0, e, t.slots[i], level, k, i);
    ok, s := true, Empty;
    if !e.flags.present {
      SkipStep(bits0, ram.bits, frames0, ram.frames, phys, done, t, level, k);
    } else if Shares(k, i, e) || Ends(e, level) {
      s := Fixed(e);
      FixedStep(bits0, ram.bits, frames0, ram.frames, phys, done, t, level, k, e);
      ram.frames := WithEntry(ram.frames, phys, i, e);
    } else if level == 0 {
      ok, s := CloneLeaf(ram, e, k, i, phys, bits0, frames0, done, t);
    } else {
      ok, s := CloneSub(ram, e, k, i, level, phys, bits0, frames0, done, t);
    }
  }

  /** Clone the table at `src` and what is private below it. The result is 0, with
      all frames free again that were free, or a fresh copy; the copy is made exactly
      when there are as many free frames as the table owns. */
  method CloneTable(ram: Ram, src: nat, k: Kernel, level: nat, ghost t: Tree) returns (phys: nat, ghost c: Tree)
    requires ram.Valid() && level <= 3 && src == t.phys && Clonable(ram.frames, ram.bits, t, level, k)
    modifies ram
    ensures ram.Valid()
    ensures phys == 0 ==> ram.bits == old(ram.bits) && Kept(old(ram.bits), old(ram.frames), ram.frames)
    ensures phys != 0 ==> && c.phys == phys && Taken(old(ram.bits), ram.bits, old(ram.frames), ram.frames, c)
                          && Denotes(ram.frames, c, level, k) && Copy(old(ram.frames), t, ram.frames, c)
    ensures if phys != 0 then ram.freeCount + Size(t) == old(ram.freeCount) else old(ram.freeCount) < Size(t)
    decreases level, 2
  {
    ghost var bits0, frames0 := ram.bits, ram.frames;
    c := t;
    phys := ram.AllocPage();
    if phys == 0 { return; }
    CloneStart(bits0, frames0, phys, t, level, k);
    ram.frames := ram.frames[phys := Table(Blank())];
    ghost var done: seq<Slot> := [];
    var i := 0;
    while i < ENTRIES
      invariant i == |done| <= ENTRIES && ram.Valid()
      invariant ram.freeCount + 1 + SlotsSize(t.slots[..i]) == old(ram.freeCount)
      invariant Cloning(bits0, ram.bits, frames0, ram.frames, phys, done, t, level, k)
    {
      assert Refs(t, t.phys) > 0;
      SizeNext(t.slots, i);
      var e := ram.frames[src].ents[i];
      ghost var s;
      var ok;
      ok, s := CloneSlot(ram, e, k, i, level, phys, bits0, frames0, done, t);
      if !ok { return 0, c; }
      done := done + [s];
      i := i + 1;
    }
    c := Partial(phys, done);
    assert c.slots == done && t.slots[..ENTRIES] == t.slots;
  }
}
