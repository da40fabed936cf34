/** Teardown of an address space: the private tables and pages go back to the frame
    allocator, everything shared stays. */
module VmmFree {
  import opened VmmTables
  import opened VmmRam

  /** After teardown of the slots `ss`: of the frames in use, exactly those are free. */
  ghost predicate Returned(bits0: seq<bool>, bits: seq<bool>, ss: seq<Slot>) {
    |bits| == |bits0| && forall x: nat :: x < |bits| ==> (bits[x] <==> bits0[x] && SlotsFreed(ss, x) == 0)
  }

  /** The slots not torn down yet still own their frames. */
  lemma StillOwned(t: Tree, i: nat, bits0: seq<bool>, bits: seq<bool>)
    requires Owned(t, bits0) && i < |t.slots| && Returned(bits0, bits, t.slots[..i])
    ensures forall x: nat :: SlotRefs(t.slots[i], x) > 0 ==> x < |bits| && bits[x]
    ensures forall x: nat :: SlotRefs(t.slots[i], x) <= 1
    ensures t.phys < |bits| && bits[t.phys] && SlotRefs(t.slots[i], t.phys) == 0
  {
    var a, b := t.slots[..i], t.slots[i + 1..];
    forall x: nat ensures SlotsFreed(a, x) + SlotRefs(t.slots[i], x) + (if t.phys == x then 1 else 0) <= Refs(t, x) {
      assert t.slots == a + ([t.slots[i]] + b);
      SlotsConcat(a, [t.slots[i]] + b, x);
      assert ([t.slots[i]] + b)[1..] == b;
      SlotsFreedAtMost(a, x);
    }
    assert Refs(t, t.phys) <= 1;
  }

  lemma ReturnedMore(bits0: seq<bool>, bits1: seq<bool>, bits2: seq<bool>, ss: seq<Slot>, s: Slot)
    requires Returned(bits0, bits1, ss) && |bits2| == |bits1|
    requires forall x: nat :: x < |bits1| ==> (bits2[x] <==> bits1[x] && SlotFreed(s, x) == 0)
    ensures Returned(bits0, bits2, ss + [s])
  {
    forall x: nat | x < |bits2| ensures bits2[x] <==> bits0[x] && SlotsFreed(ss + [s], x) == 0 {
      SlotsFreedSnoc(ss, s, x);
    }
  }

  /** Tear down the table at `phys` with everything private below it. */
  method FreeTable(ram: Ram, phys: nat, k: Kernel, level: nat, ghost t: Tree)
    requires ram.Valid() && level <= 3 && phys == t.phys && Denotes(ram.frames, t, level, k) && Owned(t, ram.bits)
             && Refs(t, 0) == 0
    modifies ram`bits, ram`freeCount
    ensures ram.Valid() && |ram.bits| == |old(ram.bits)|
    ensures forall x: nat :: x < |ram.bits| ==> (ram.bits[x] <==> old(ram.bits)[x] && Freed(t, x) == 0)
    decreases level
  {
    ghost var bits0 := ram.bits;
    var i := 0;
    while i < ENTRIES
      invariant i <= ENTRIES && ram.Valid() && Returned(bits0, ram.bits, t.slots[..i])
    {
      assert t.slots[..i + 1] == t.slots[..i] + [t.slots[i]];
      FreeSlot(ram, ram.frames[phys].ents[i], k, level, i, t, bits0);
      i := i + 1;
    }
    assert t.slots[..i] == t.slots;
    ram.FreePage(phys);
  }

  /** One entry of the table. */
  method FreeSlot(ram: Ram, e: Pte, k: Kernel, level: nat, i: nat, ghost t: Tree, ghost bits0: seq<bool>)
    requires ram.Valid() && level <= 3 && Denotes(ram.frames, t, level, k) && i < ENTRIES
             && e == ram.frames[t.phys].ents[i]
    requires Owned(t, bits0) && Refs(t, 0) == 0 && Returned(bits0, ram.bits, t.slots[..i])
    modifies ram`bits, ram`freeCount
    ensures ram.Valid() && Returned(bits0, ram.bits, t.slots[..i] + [t.slots[i]])
    decreases level, 0
  {
    ghost var bits1 := ram.bits;
    StillOwned(t, i, bits0, bits1);
    SlotsAt(t.slots, i, 0);
    assert SlotIs(ram.frames, e, t.slots[i], level, k, i);
    if e.flags.present && !Shares(k, i, e) && !(level < 3 && e.flags.huge) {
      if level == 0 {
        ram.FreePage(e.addr);
      } else {
        assert forall x: nat :: Refs(t.slots[i].sub, x) == SlotRefs(t.slots[i], x);
        FreeTable(ram, e.addr, Under(ram.frames, k, i, level), level - 1, t.slots[i].sub);
      }
    }
    ReturnedMore(bits0, bits1, ram.bits, t.slots[..i], t.slots[i]);
  }

  /** The kernel's entries point to frames in use. */
  ghost predicate KernelInUse(k: Kernel, bits: seq<bool>) {
    k.Entries? ==> forall i: nat :: i < |k.ents| && k.ents[i].flags.present ==>
        k.ents[i].addr < |bits| && bits[k.ents[i].addr]
  }

  /** The tables one level below the kernel's root too. */
  ghost predicate KernelStable(frames: Frames, k: Kernel, bits: seq<bool>, level: nat) {
    && KernelInUse(k, bits)
    && (level == 3 ==> forall i: nat {:trigger Below(frames, k, i)} :: KernelInUse(Below(frames, k, i), bits))
  }

  /** No kernel table is one of the tree's frames, and no page `p` either. */
  ghost predicate Outside(k: Kernel, t: Tree, p: int) {
    k.Entries? ==> forall i: nat :: i < |k.ents| && k.ents[i].flags.present ==>
        Refs(t, k.ents[i].addr) == 0 && k.ents[i].addr != p
  }

  /** The same one level below the kernel's root too. */
  ghost predicate KernelOutside(frames: Frames, k: Kernel, t: Tree, p: int, level: nat) {
    && Outside(k, t, p)
    && (level == 3 ==> forall i: nat {:trigger Below(frames, k, i)} :: Outside(Below(frames, k, i), t, p))
  }

  /** Frames come free, but none of them is a table of the kernel's. */
  lemma KernelStays(frames: Frames, k: Kernel, t: Tree, bits0: seq<bool>, bits: seq<bool>)
    requires KernelStable(frames, k, bits0, 3) && KernelOutside(frames, k, t, -1, 3) && |bits| == |bits0|
    requires forall x: nat :: x < |bits| && bits0[x] && Refs(t, x) == 0 ==> bits[x]
    ensures KernelStable(frames, k, bits, 3)
  {
    forall i: nat ensures KernelInUse(Below(frames, k, i), bits) {
      assert KernelInUse(Below(frames, k, i), bits0) && Outside(Below(frames, k, i), t, -1);
    }
  }

  /** Destroy an address space: exactly its own frames come free, and with them all
      it owns if no private page has bit 7 set. The kernel's tables and what they
      point to stay in use. */
  method DestroyPagetable(ram: Ram, phys: nat, k: Kernel, ghost t: Tree)
    requires ram.Valid()
    requires phys != 0 ==> phys == t.phys && Denotes(ram.frames, t, 3, k) && Owned(t, ram.bits) && Refs(t, 0) == 0
    modifies ram`bits, ram`freeCount
    ensures ram.Valid() && |ram.bits| == |old(ram.bits)|
    ensures phys == 0 ==> ram.bits == old(ram.bits)
    ensures phys != 0 ==> forall x: nat :: x < |ram.bits| ==> (ram.bits[x] <==> old(ram.bits)[x] && Freed(t, x) == 0)
    ensures phys != 0 && NoBit7(t) ==> forall x: nat :: x < |ram.bits| ==>
              (ram.bits[x] <==> old(ram.bits)[x] && Refs(t, x) == 0)
    ensures (phys != 0 ==> KernelOutside(ram.frames, k, t, -1, 3)) && KernelStable(ram.frames, k, old(ram.bits), 3) ==>
              KernelStable(ram.frames, k, ram.bits, 3)
  {
    if phys == 0 { return; }
    ghost var bits0 := ram.bits;
    FreeTable(ram, phys, k, 3, t);
    FreesAllIff(t);
    forall x: nat | x < |bits0| && bits0[x] && Refs(t, x) == 0 ensures ram.bits[x] {
      FreedAtMost(t, x);
    }
    if KernelOutside(ram.frames, k, t, -1, 3) && KernelStable(ram.frames, k, bits0, 3) {
      KernelStays(ram.frames, k, t, bits0, ram.bits);
    }
  }
}
