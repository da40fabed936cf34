/** A new address space: the kernel's entries shared, its low table copied by value. */
module VmmNew {
  import opened VmmTables
  import opened VmmRam
  import opened VmmFree
  import opened VmmClone
  import opened VmmSpace
  import opened VmmMap

  /** The entry for the private table under slot 0. */
  function LowEntry(pdpt: nat): Pte { Pte(pdpt, Flags(true, false, 6)) }

  function Shown(e: Pte): Pte { if e.flags.present then e else NONE }

  /** Entry i of a new root. */
  function Made(ents: seq<Pte>, pdpt: nat, i: nat): Pte
    requires i < |ents|
  { if ents[i].flags.present && i == 0 then LowEntry(pdpt) else Shown(ents[i]) }

  /** What a shared or absent entry stands for. */
  function Shared(e: Pte): Slot { if e.flags.present then Fixed(e) else Empty }

  ghost function LowTree(pdpt: nat, low: seq<Pte>): Tree
    requires |low| == ENTRIES
  { Tree(pdpt, seq(ENTRIES, j requires 0 <= j < ENTRIES => Shared(low[j]))) }

  ghost function NewTree(phys: nat, ents: seq<Pte>, pdpt: nat, low: seq<Pte>): Tree
    requires |ents| == ENTRIES && |low| == ENTRIES
  {
    var first := if ents[0].flags.present then Sub(LowEntry(pdpt), LowTree(pdpt, low)) else Empty;
    Tree(phys, [first] + seq(ENTRIES - 1, j requires 0 <= j < ENTRIES - 1 => Shared(ents[j + 1])))
  }

  /** Slots that own nothing. */
  lemma {:induction false} OwnNothing(ss: seq<Slot>, x: nat)
    requires forall i: nat :: i < |ss| ==> ss[i].Empty? || ss[i].Fixed?
    ensures SlotsRefs(ss, x) == 0
    decreases |ss|
  {
    if ss != [] {
      OwnNothing(ss[1..], x);
    }
  }

  lemma NewRefs(phys: nat, ents: seq<Pte>, pdpt: nat, low: seq<Pte>, x: nat)
    requires |ents| == ENTRIES && |low| == ENTRIES
    ensures Refs(NewTree(phys, ents, pdpt, low), x) ==
            (if phys == x then 1 else 0) + (if ents[0].flags.present && pdpt == x then 1 else 0)
  {
    var t := NewTree(phys, ents, pdpt, low);
    OwnNothing(t.slots[1..], x);
    OwnNothing(LowTree(pdpt, low).slots, x);
    assert SlotsRefs(t.slots, x) == SlotRefs(t.slots[0], x) + SlotsRefs(t.slots[1..], x);
  }

  /** A table of shared entries denotes nothing but them. */
  lemma LowDenotes(frames: Frames, pdpt: nat, low: seq<Pte>, k: Kernel)
    requires |low| == ENTRIES && IsTable(frames, pdpt) && k == Entries(low)
    requires forall j: nat :: j < ENTRIES ==> frames[pdpt].ents[j] == Shown(low[j])
    ensures Denotes(frames, LowTree(pdpt, low), 2, k)
  { }

  lemma NewDenotes(frames: Frames, phys: nat, ents: seq<Pte>, pdpt: nat, low: seq<Pte>, k: Kernel)
    requires |ents| == ENTRIES && |low| == ENTRIES && k == Entries(ents) && IsTable(frames, phys)
    requires forall i: nat :: i < ENTRIES ==> frames[phys].ents[i] == Made(ents, pdpt, i)
    requires ents[0].flags.present ==> ents[0].addr != pdpt && Below(frames, k, 0) == Entries(low)
    requires ents[0].flags.present ==> Denotes(frames, LowTree(pdpt, low), 2, Entries(low))
    ensures Denotes(frames, NewTree(phys, ents, pdpt, low), 3, k)
  {
    var t := NewTree(phys, ents, pdpt, low);
    forall i: nat | i < ENTRIES ensures SlotIs(frames, frames[phys].ents[i], t.slots[i], 3, k, i) {
      if i > 0 {
        assert t.slots[i] == Shared(ents[i]);
      }
    }
  }

  lemma NewNoBit7(phys: nat, ents: seq<Pte>, pdpt: nat, low: seq<Pte>)
    requires |ents| == ENTRIES && |low| == ENTRIES
    ensures NoBit7(NewTree(phys, ents, pdpt, low))
  {
    var t, l := NewTree(phys, ents, pdpt, low), LowTree(pdpt, low);
    assert forall j: nat :: j < ENTRIES ==> SlotNoBit7(l.slots[j]);
    forall i: nat | i < ENTRIES ensures SlotNoBit7(t.slots[i]) {
      if i > 0 {
        assert t.slots[i] == Shared(ents[i]);
      }
    }
  }

  /** A new space has no page of its own. */
  lemma NewShowsNothing(frames: Frames, phys: nat, ents: seq<Pte>, pdpt: nat, low: seq<Pte>, n: nat)
    requires |ents| == ENTRIES && |low| == ENTRIES
    ensures !View(frames, NewTree(phys, ents, pdpt, low), 3, n).Mine?
  {
    var t, i := NewTree(phys, ents, pdpt, low), Index(n, 3);
    if i > 0 {
      assert t.slots[i] == Shared(ents[i]);
    } else if ents[0].flags.present {
      var low', j := LowTree(pdpt, low), Index(n, 2);
      assert low'.slots[j] == Shared(low[j]);
      assert View(frames, low', 2, n) == Through(frames, low'.slots[j], 2, n);
    }
  }

  /** Copy the kernel's low table by value. */
  method CopyLow(ram: Ram, pdpt: nat, low: seq<Pte>)
    requires pdpt < |ram.frames| && |low| == ENTRIES
    modifies ram`frames
    ensures |ram.frames| == |old(ram.frames)| && IsTable(ram.frames, pdpt)
    ensures forall j: nat :: j < ENTRIES ==> ram.frames[pdpt].ents[j] == Shown(low[j])
    ensures forall x: nat :: x < |ram.frames| && x != pdpt ==> ram.frames[x] == old(ram.frames)[x]
  {
    var dp := Blank();
    for j := 0 to ENTRIES
      invariant |dp| == ENTRIES && forall i: nat :: i < j ==> dp[i] == Shown(low[i])
    {
      dp := dp[j := if low[j].flags.present then low[j] else NONE];
    }
    ram.frames := ram.frames[pdpt := Table(dp)];
  }

  /** Fill the root: slot 0 gets the private table, the others the kernel's entries. */
  method FillRoot(ram: Ram, phys: nat, ents: seq<Pte>, pdpt: nat)
    requires phys < |ram.frames| && |ents| == ENTRIES
    modifies ram`frames
    ensures |ram.frames| == |old(ram.frames)| && IsTable(ram.frames, phys)
    ensures forall i: nat :: i < ENTRIES ==> ram.frames[phys].ents[i] == Made(ents, pdpt, i)
    ensures forall x: nat :: x < |ram.frames| && x != phys ==> ram.frames[x] == old(ram.frames)[x]
  {
    var dst := Blank();
    for i := 0 to ENTRIES
      invariant |dst| == ENTRIES && (forall j: nat :: j < i ==> dst[j] == Made(ents, pdpt, j))
      invariant forall j: nat :: i <= j < ENTRIES ==> dst[j] == NONE
    {
      if ents[i].flags.present {
        dst := dst[i := if i == 0 then LowEntry(pdpt) else ents[i]];
      }
    }
    ram.frames := ram.frames[phys := Table(dst)];
  }

  /** An empty root owns itself only. */
  lemma BareTree(phys: nat, frames: Frames, bits: seq<bool>, k: Kernel)
    requires phys < |bits| == |frames| && bits[phys] && frames[phys] == Table(Blank())
    ensures var t := Tree(phys, Empties(ENTRIES));
            Denotes(frames, t, 3, k) && Owned(t, bits) && NoBit7(t)
              && forall x: nat :: Refs(t, x) == if x == phys then 1 else 0
  {
    forall x: nat ensures SlotsRefs(Empties(ENTRIES), x) == 0 {
      OwnNothing(Empties(ENTRIES), x);
    }
  }

  /** Build a space that shares the kernel's mappings: it may be cloned and torn down, and has no page
      of its own. Without memory for it, the frames in use are what they were. */
  method NewSpace(ram: Ram, ents: seq<Pte>, low: seq<Pte>) returns (phys: nat, ghost t: Tree)
    requires ram.Valid() && |ents| == ENTRIES && |low| == ENTRIES
             && KernelStable(ram.frames, Entries(ents), ram.bits, 3)
    requires ents[0].flags.present ==> Below(ram.frames, Entries(ents), 0) == Entries(low)
    modifies ram
    ensures ram.Valid() && Kept(old(ram.bits), old(ram.frames), ram.frames)
    ensures phys == 0 ==> ram.bits == old(ram.bits)
    ensures phys == 0 <==> old(ram.freeCount) < (if ents[0].flags.present then 2 else 1)
    ensures phys != 0 ==> ram.freeCount + (if ents[0].flags.present then 2 else 1) == old(ram.freeCount)
    ensures phys != 0 ==> && t.phys == phys && SpaceOk(ram, t, Entries(ents))
                          && Workable(ram.frames, ram.bits, t, 3, Entries(ents))
                          && (forall n: nat :: LeftFree(ents, low, n) ==> View(ram.frames, t, 3, n) == Nothing)
                          && (forall n: nat :: !View(ram.frames, t, 3, n).Mine?)
                          && (forall x: nat :: x < |ram.bits| ==> (ram.bits[x] <==> old(ram.bits)[x] || Refs(t, x) > 0))
  {
    ghost var bits0, frames0 := ram.bits, ram.frames;
    var k := Entries(ents);
    t := Tree(0, []);
    phys := ram.AllocPage();
    if phys == 0 {
      return;
    }
    ram.frames := ram.frames[phys := Table(Blank())];
    var pdpt := 0;
    if ents[0].flags.present {
      pdpt := ram.AllocPage();
      if pdpt == 0 {
        ghost var bare := Tree(phys, Empties(ENTRIES));
        BareTree(phys, ram.frames, ram.bits, k);
        DestroyPagetable(ram, phys, k, bare);
        assert ram.bits == bits0;
        return 0, t;
      }
      CopyLow(ram, pdpt, low);
    }
    FillRoot(ram, phys, ents, pdpt);
    t := NewTree(phys, ents, pdpt, low);
    NewIsOk(bits0, ram.bits, frames0, ram.frames, phys, ents, pdpt, low);
    NewWorkable(bits0, ram.bits, frames0, ram.frames, t, k);
    forall n: nat | LeftFree(ents, low, n) ensures View(ram.frames, t, 3, n) == Nothing {
      NewLeavesFree(ram.frames, phys, ents, pdpt, low, n);
    }
  }

  /** The kernel has nothing at page `n`, at the levels a new space looks at. */
  predicate LeftFree(ents: seq<Pte>, low: seq<Pte>, n: nat)
    requires |ents| == ENTRIES && |low| == ENTRIES
  {
    !ents[Index(n, 3)].flags.present || (Index(n, 3) == 0 && !low[Index(n, 2)].flags.present)
  }

  lemma NewLeavesFree(frames: Frames, phys: nat, ents: seq<Pte>, pdpt: nat, low: seq<Pte>, n: nat)
    requires |ents| == ENTRIES && |low| == ENTRIES && LeftFree(ents, low, n)
    ensures View(frames, NewTree(phys, ents, pdpt, low), 3, n) == Nothing
  {
    var t, i := NewTree(phys, ents, pdpt, low), Index(n, 3);
    if i > 0 {
      assert t.slots[i] == Shared(ents[i]);
    } else if ents[0].flags.present {
      var low', j := LowTree(pdpt, low), Index(n, 2);
      assert low'.slots[j] == Shared(low[j]);
      assert View(frames, low', 2, n) == Through(frames, low'.slots[j], 2, n);
    }
  }

  /** The new space took only frames that were free, so none of the kernel's. */
  lemma NewWorkable(bits0: seq<bool>, bits: seq<bool>, frames0: Frames, frames: Frames, t: Tree, k: Kernel)
    requires Clonable(frames, bits, t, 3, k) && KernelStable(frames0, k, bits0, 3) && Kept(bits0, frames0, frames)
    requires |bits| == |bits0| && 0 < |bits0| && bits0[0]
    requires forall x: nat :: Refs(t, x) > 0 ==> x < |bits0| && !bits0[x]
    ensures Workable(frames, bits, t, 3, k)
  {
    BelowSame(bits0, frames0, frames, k);
    forall j: nat ensures Outside(Below(frames, k, j), t, -1) {
      assert KernelInUse(Below(frames0, k, j), bits0);
    }
  }

  lemma NewIsOk(bits0: seq<bool>, bits: seq<bool>, frames0: Frames, frames: Frames, phys: nat, ents: seq<Pte>,
                pdpt: nat, low: seq<Pte>)
    requires |ents| == ENTRIES && |low| == ENTRIES && Kept(bits0, frames0, frames) && |bits| == |bits0|
    requires KernelStable(frames0, Entries(ents), bits0, 3) && phys < |bits0| && !bits0[phys]
    requires forall x: nat :: x < |bits| ==>
               (bits[x] <==> bits0[x] || x == phys || (ents[0].flags.present && x == pdpt))
    requires IsTable(frames, phys) && forall i: nat :: i < ENTRIES ==> frames[phys].ents[i] == Made(ents, pdpt, i)
    requires ents[0].flags.present ==>
               && Below(frames0, Entries(ents), 0) == Entries(low) && pdpt < |bits0| && !bits0[pdpt]
                                       && pdpt != phys && IsTable(frames, pdpt)
                                       && forall j: nat :: j < ENTRIES ==> frames[pdpt].ents[j] == Shown(low[j])
    ensures Clonable(frames, bits, NewTree(phys, ents, pdpt, low), 3, Entries(ents))
    ensures forall n: nat :: !View(frames, NewTree(phys, ents, pdpt, low), 3, n).Mine?
    ensures forall x: nat :: x < |bits| ==> (bits[x] <==> bits0[x] || Refs(NewTree(phys, ents, pdpt, low), x) > 0)
    ensures forall x: nat :: Refs(NewTree(phys, ents, pdpt, low), x) > 0 ==> x < |bits0| && !bits0[x]
  {
    var t, k := NewTree(phys, ents, pdpt, low), Entries(ents);
    BelowSame(bits0, frames0, frames, k);
    if ents[0].flags.present {
      LowDenotes(frames, pdpt, low, Entries(low));
    }
    NewDenotes(frames, phys, ents, pdpt, low, k);
    NewNoBit7(phys, ents, pdpt, low);
    forall x: nat
      ensures Refs(t, x) == (if phys == x then 1 else 0) + (if ents[0].flags.present && pdpt == x then 1 else 0) {
      NewRefs(phys, ents, pdpt, low, x);
    }
    forall n: nat ensures !View(frames, t, 3, n).Mine? {
      NewShowsNothing(frames, phys, ents, pdpt, low, n);
    }
  }
}
