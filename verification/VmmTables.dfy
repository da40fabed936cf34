/** Page tables as trees: what a table in memory denotes, which frames it owns, and
    when one table is a copy of another. */
module VmmTables {
  import opened RawBytes

  const ENTRIES: nat := 512

  /** The low and high attribute bits of an entry; `huge` is bit 7. */
  datatype Flags = Flags(present: bool, huge: bool, other: nat)
  datatype Pte = Pte(addr: nat, flags: Flags)

  const NONE: Pte := Pte(0, Flags(false, false, 0))

  /** A frame holds a page table or a page of data. */
  datatype Frame = Table(ents: seq<Pte>) | Page(data: seq<Byte>)
  type Frames = seq<Frame>

  // ----- trees ---------------------------------------------------------------------------------------------

  /** A table at frame `phys` and what its entries stand for. */
  datatype Tree = Tree(phys: nat, slots: seq<Slot>)

  /** Nothing; an entry that is not the table's own (shared with the kernel, or a
      huge mapping of a frame it does not own); a private page; a private subtable. */
  datatype Slot = Empty | Fixed(pte: Pte) | Leaf(pte: Pte) | Sub(pte: Pte, sub: Tree)

  /** How often the tree owns frame `x`, as a table or as a page. */
  ghost function Refs(t: Tree, x: nat): nat
    decreases t
  { (if t.phys == x then 1 else 0) + SlotsRefs(t.slots, x) }

  ghost function SlotsRefs(ss: seq<Slot>, x: nat): nat
    decreases ss
  { if ss == [] then 0 else SlotRefs(ss[0], x) + SlotsRefs(ss[1..], x) }

  ghost function SlotRefs(s: Slot, x: nat): nat
    decreases s
  {
    match s
    case Leaf(e) => if e.addr == x then 1 else 0
    case Sub(_, t) => Refs(t, x)
    case _ => 0
  }

  /** The number of frames the tree takes: its tables and its private pages. */
  ghost function Size(t: Tree): nat
    decreases t
  { 1 + SlotsSize(t.slots) }

  ghost function SlotsSize(ss: seq<Slot>): nat
    decreases ss
  { if ss == [] then 0 else SlotSize(ss[0]) + SlotsSize(ss[1..]) }

  ghost function SlotSize(s: Slot): nat
    decreases s
  {
    match s
    case Leaf(_) => 1
    case Sub(_, t) => Size(t)
    case _ => 0
  }

  /** Slots up to the next one, and no more than all. */
  lemma {:induction false} SizeNext(ss: seq<Slot>, i: nat)
    requires i < |ss|
    ensures SlotsSize(ss[..i + 1]) == SlotsSize(ss[..i]) + SlotSize(ss[i]) <= SlotsSize(ss)
    decreases i
  {
    if i == 0 {
      assert ss[..1] == [ss[0]] && [ss[0]][1..] == [];
    } else {
      SizeNext(ss[1..], i - 1);
      assert ss[..i + 1][1..] == ss[1..][..i] && ss[..i][1..] == ss[1..][..i - 1];
    }
  }

  lemma {:induction false} SlotsSnoc(ss: seq<Slot>, s: Slot, x: nat)
    ensures SlotsRefs(ss + [s], x) == SlotsRefs(ss, x) + SlotRefs(s, x)
    decreases |ss|
  {
    if ss == [] {
      assert [s][1..] == [];
    } else {
      SlotsSnoc(ss[1..], s, x);
      assert (ss + [s])[1..] == ss[1..] + [s];
    }
  }

  lemma {:induction false} SlotsAt(ss: seq<Slot>, i: nat, x: nat)
    requires i < |ss|
    ensures SlotRefs(ss[i], x) <= SlotsRefs(ss, x)
    decreases i
  {
    if i > 0 {
      SlotsAt(ss[1..], i - 1, x);
    }
  }

  lemma {:induction false} SlotsEmpty(n: nat, x: nat)
    ensures SlotsRefs(Empties(n), x) == 0
    decreases n
  {
    if n > 0 {
      SlotsEmpty(n - 1, x);
      assert Empties(n)[1..] == Empties(n - 1);
    }
  }

  function Empties(n: nat): (r: seq<Slot>)
    ensures |r| == n && forall i :: 0 <= i < n ==> r[i] == Empty
  { seq(n, _ => Empty) }

  lemma {:induction false} SlotsConcat(a: seq<Slot>, b: seq<Slot>, x: nat)
    ensures SlotsRefs(a + b, x) == SlotsRefs(a, x) + SlotsRefs(b, x)
    decreases |a|
  {
    if a == [] {
      assert a + b == b;
    } else {
      SlotsConcat(a[1..], b, x);
      assert (a + b)[1..] == a[1..] + b;
    }
  }

  // ----- what memory denotes -----------------------------------------------------------------------------

  /** The kernel's entries at the same level, where there are any. */
  datatype Kernel = NoKernel | Entries(ents: seq<Pte>)

  predicate Shares(k: Kernel, i: nat, e: Pte) {
    k.Entries? && i < |k.ents| && k.ents[i].flags.present && k.ents[i].addr == e.addr
  }

  /** Frame `phys` holds a table with 512 entries. */
  predicate IsTable(frames: Frames, phys: nat) {
    phys < |frames| && frames[phys].Table? && |frames[phys].ents| == ENTRIES
  }

  /** The kernel's table one level below its entry `i`. */
  function Below(frames: Frames, k: Kernel, i: nat): Kernel {
    if k.Entries? && i < |k.ents| && k.ents[i].flags.present && k.ents[i].addr < |frames|
      && frames[k.ents[i].addr].Table?
    then Entries(frames[k.ents[i].addr].ents) else NoKernel
  }

  /** Does a present entry end the walk at this level without being owned? */
  predicate Ends(e: Pte, level: nat) { level < 3 && level > 0 && e.flags.huge }

  /** The kernel's entries to compare with one level down: only below the root. */
  function Under(frames: Frames, k: Kernel, i: nat, level: nat): Kernel {
    if level == 3 then Below(frames, k, i) else NoKernel
  }

  /** Entry `e` of a table at `level` stands for slot `s`. */
  ghost predicate SlotIs(frames: Frames, e: Pte, s: Slot, level: nat, k: Kernel, i: nat)
    decreases level, 0
  {
    if !e.flags.present then s == Empty
    else if Shares(k, i, e) then s == Fixed(e)
    else if level == 0 then s == Leaf(e) && e.addr < |frames|
    else if Ends(e, level) then s == Fixed(e)
    else s.Sub? && s.pte == e && s.sub.phys == e.addr && Denotes(frames, s.sub, level - 1, Under(frames, k, i, level))
  }

  /** The table at `t.phys` denotes `t`. */
  ghost predicate Denotes(frames: Frames, t: Tree, level: nat, k: Kernel)
    decreases level, 1
  {
    && IsTable(frames, t.phys) && |t.slots| == ENTRIES
    && forall i: nat :: i < ENTRIES ==> SlotIs(frames, frames[t.phys].ents[i], t.slots[i], level, k, i)
  }

  /** Every owned frame is owned once and in use. */
  ghost predicate Owned(t: Tree, bits: seq<bool>) {
    forall x: nat :: Refs(t, x) <= 1 && (Refs(t, x) > 0 ==> x < |bits| && bits[x])
  }

  /** The frames on which what `t` denotes depends are the same. */
  ghost predicate Agree(a: Frames, b: Frames, t: Tree) {
    |a| == |b| && forall x: nat :: x < |a| && Refs(t, x) > 0 ==> b[x] == a[x]
  }

  lemma {:induction false} DenotesFrame(a: Frames, b: Frames, t: Tree, level: nat, k: Kernel)
    requires Denotes(a, t, level, k) && Agree(a, b, t)
    requires level == 3 ==> forall i: nat :: i < ENTRIES ==> Below(a, k, i) == Below(b, k, i)
    ensures Denotes(b, t, level, k)
    decreases level
  {
    assert Refs(t, t.phys) > 0;
    forall i: nat | i < ENTRIES ensures SlotIs(b, b[t.phys].ents[i], t.slots[i], level, k, i) {
      assert SlotIs(a, a[t.phys].ents[i], t.slots[i], level, k, i);
      var s := t.slots[i];
      if s.Sub? {
        forall x: nat | x < |a| && Refs(s.sub, x) > 0 ensures b[x] == a[x] {
          SlotsAt(t.slots, i, x);
        }
        DenotesFrame(a, b, s.sub, level - 1, Under(a, k, i, level));
      }
    }
  }

  // ----- copies ------------------------------------------------------------------------------------------------

  /** `s'` is a copy of `s`: shared entries verbatim, pages and tables with the same
      attributes, pages with the same contents. */
  ghost predicate CopySlot(a: Frames, s: Slot, b: Frames, s': Slot)
    decreases s
  {
    match s
    case Empty => s' == Empty
    case Fixed(_) => s' == s
    case Leaf(e) => s'.Leaf? && s'.pte.flags == e.flags && e.addr < |a| && s'.pte.addr < |b|
      && b[s'.pte.addr] == a[e.addr]
    case Sub(e, t) => s'.Sub? && s'.pte.flags == e.flags && Copy(a, t, b, s'.sub)
  }

  ghost predicate Copy(a: Frames, t: Tree, b: Frames, t': Tree)
    decreases t
  {
    |t.slots| == |t'.slots| && forall i: nat :: i < |t.slots| ==> CopySlot(a, t.slots[i], b, t'.slots[i])
  }

  /** A copy stays a copy while its frames stay as they are. */
  lemma {:induction false} CopySlotFrame(a: Frames, s: Slot, b: Frames, c: Frames, s': Slot)
    requires CopySlot(a, s, b, s') && |b| == |c| && forall x: nat :: x < |b| && SlotRefs(s', x) > 0 ==> c[x] == b[x]
    ensures CopySlot(a, s, c, s')
    decreases s
  {
    if s.Sub? {
      forall i: nat | i < |s.sub.slots| ensures CopySlot(a, s.sub.slots[i], c, s'.sub.slots[i]) {
        forall x: nat | x < |b| && SlotRefs(s'.sub.slots[i], x) > 0 ensures c[x] == b[x] {
          SlotsAt(s'.sub.slots, i, x);
          assert SlotRefs(s', x) == Refs(s'.sub, x) > 0;
        }
        CopySlotFrame(a, s.sub.slots[i], b, c, s'.sub.slots[i]);
      }
    }
  }

  /** It does not matter when the original was read, while its frames stay. */
  lemma {:induction false} CopySlotSource(a: Frames, c: Frames, s: Slot, b: Frames, s': Slot)
    requires CopySlot(a, s, b, s') && |a| == |c| && forall x: nat :: x < |a| && SlotRefs(s, x) > 0 ==> c[x] == a[x]
    ensures CopySlot(c, s, b, s')
    decreases s
  {
    if s.Sub? {
      forall i: nat | i < |s.sub.slots| ensures CopySlot(c, s.sub.slots[i], b, s'.sub.slots[i]) {
        forall x: nat | x < |a| && SlotRefs(s.sub.slots[i], x) > 0 ensures c[x] == a[x] {
          SlotsAt(s.sub.slots, i, x);
          assert SlotRefs(s, x) == Refs(s.sub, x) > 0;
        }
        CopySlotSource(a, c, s.sub.slots[i], b, s'.sub.slots[i]);
      }
    }
  }

  /** A copy has bit 7 set where the original has. */
  lemma {:induction false} CopyBit7(a: Frames, s: Slot, b: Frames, s': Slot)
    requires CopySlot(a, s, b, s')
    ensures SlotNoBit7(s') <==> SlotNoBit7(s)
    decreases s
  {
    if s.Sub? {
      forall i: nat | i < |s.sub.slots| ensures SlotNoBit7(s'.sub.slots[i]) <==> SlotNoBit7(s.sub.slots[i]) {
        CopyBit7(a, s.sub.slots[i], b, s'.sub.slots[i]);
      }
    }
  }

  // ----- what teardown returns ----------------------------------------------------------------------------------

  /** How often teardown frees frame `x`: a page whose entry has bit 7 set is taken
      for a huge mapping and kept. */
  ghost function Freed(t: Tree, x: nat): nat
    decreases t
  { (if t.phys == x then 1 else 0) + SlotsFreed(t.slots, x) }

  ghost function SlotsFreed(ss: seq<Slot>, x: nat): nat
    decreases ss
  { if ss == [] then 0 else SlotFreed(ss[0], x) + SlotsFreed(ss[1..], x) }

  ghost function SlotFreed(s: Slot, x: nat): nat
    decreases s
  {
    match s
    case Leaf(e) => if e.addr == x && !e.flags.huge then 1 else 0
    case Sub(_, t) => Freed(t, x)
    case _ => 0
  }

  lemma {:induction false} SlotsFreedSnoc(ss: seq<Slot>, s: Slot, x: nat)
    ensures SlotsFreed(ss + [s], x) == SlotsFreed(ss, x) + SlotFreed(s, x)
    decreases |ss|
  {
    if ss == [] {
      assert [s][1..] == [];
    } else {
      SlotsFreedSnoc(ss[1..], s, x);
      assert (ss + [s])[1..] == ss[1..] + [s];
    }
  }

  /** No private page has bit 7 set in its entry. */
  ghost predicate NoBit7(t: Tree)
    decreases t
  { forall i: nat :: i < |t.slots| ==> SlotNoBit7(t.slots[i]) }

  ghost predicate SlotNoBit7(s: Slot)
    decreases s
  {
    match s
    case Leaf(e) => !e.flags.huge
    case Sub(_, t) => NoBit7(t)
    case _ => true
  }

  lemma {:induction false} FreedAtMost(t: Tree, x: nat)
    ensures Freed(t, x) <= Refs(t, x)
    decreases t
  {
    SlotsFreedAtMost(t.slots, x);
  }

  lemma {:induction false} SlotsFreedAtMost(ss: seq<Slot>, x: nat)
    ensures SlotsFreed(ss, x) <= SlotsRefs(ss, x)
    decreases ss
  {
    if ss != [] {
      SlotFreedAtMost(ss[0], x);
      SlotsFreedAtMost(ss[1..], x);
    }
  }

  lemma {:induction false} SlotFreedAtMost(s: Slot, x: nat)
    ensures SlotFreed(s, x) <= SlotRefs(s, x)
    decreases s
  {
    if s.Sub? {
      FreedAtMost(s.sub, x);
    }
  }

  /** Teardown frees every owned frame exactly if no private page has bit 7 set. */
  lemma FreesAllIff(t: Tree)
    ensures (forall x: nat :: Freed(t, x) == Refs(t, x)) <==> NoBit7(t)
  {
    if NoBit7(t) {
      forall x: nat ensures Freed(t, x) == Refs(t, x) {
        FreesAll(t, x);
      }
    } else {
      var x := NotFreed(t);
    }
  }

  lemma {:induction false} FreesAll(t: Tree, x: nat)
    requires NoBit7(t)
    ensures Freed(t, x) == Refs(t, x)
    decreases t
  {
    SlotsFreeAll(t.slots, x);
  }

  lemma {:induction false} SlotsFreeAll(ss: seq<Slot>, x: nat)
    requires forall i: nat :: i < |ss| ==> SlotNoBit7(ss[i])
    ensures SlotsFreed(ss, x) == SlotsRefs(ss, x)
    decreases ss
  {
    if ss != [] {
      SlotFreesAll(ss[0], x);
      SlotsFreeAll(ss[1..], x);
    }
  }

  lemma {:induction false} SlotFreesAll(s: Slot, x: nat)
    requires SlotNoBit7(s)
    ensures SlotFreed(s, x) == SlotRefs(s, x)
    decreases s
  {
    if s.Sub? {
      FreesAll(s.sub, x);
    }
  }

  /** A frame that teardown keeps although it is owned. */
  lemma {:induction false} NotFreed(t: Tree) returns (x: nat)
    requires !NoBit7(t)
    ensures Freed(t, x) < Refs(t, x)
    decreases t
  {
    x := SlotsNotFreed(t.slots);
  }

  lemma {:induction false} SlotsNotFreed(ss: seq<Slot>) returns (x: nat)
    requires exists i: nat :: i < |ss| && !SlotNoBit7(ss[i])
    ensures SlotsFreed(ss, x) < SlotsRefs(ss, x)
    decreases ss
  {
    if !SlotNoBit7(ss[0]) {
      x := SlotNotFreed(ss[0]);
      SlotsFreedAtMost(ss[1..], x);
    } else {
      var i: nat :| i < |ss| && !SlotNoBit7(ss[i]);
      assert ss[1..][i - 1] == ss[i];
      x := SlotsNotFreed(ss[1..]);
      SlotFreedAtMost(ss[0], x);
    }
  }

  lemma {:induction false} SlotNotFreed(s: Slot) returns (x: nat)
    requires !SlotNoBit7(s)
    ensures SlotFreed(s, x) < SlotRefs(s, x)
    decreases s
  {
    if s.Sub? {
      x := NotFreed(s.sub);
    } else {
      x := s.pte.addr;
    }
  }
}
