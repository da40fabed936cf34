/** The operations of one address space, and what another space notices: nothing. */
module VmmIsolation {
  import opened RawBytes
  import opened VmmTables
  import opened VmmRam
  import opened VmmFree
  import opened VmmClone
  import opened VmmSpace
  import opened VmmMap

  /** The attributes a mapping ends up with. */
  function Present(flags: Flags): Flags { flags.(present := true) }

  /** Map page `n` to frame `p` below the table at `phys`: -1 when a table cannot be
      allocated or a huge mapping is in the way, and then every page shows what it
      showed. With a frame free for every level below this one it succeeds. */
  method MapIn(ram: Ram, phys: nat, level: nat, n: nat, p: nat, flags: Flags, k: Kernel, ghost t: Tree)
    returns (rc: int, ghost t': Tree)
    requires ram.Valid() && phys == t.phys && Workable(ram.frames, ram.bits, t, level, k) && OnWay(t, level, n)
    requires Loose(ram.frames, ram.bits, t, k, p, level) && !flags.huge
    modifies ram
    ensures ram.Valid() && (rc == 0 || rc == -1)
    ensures Worked(old(ram.bits), ram.bits, old(ram.frames), ram.frames, t, t', level, k, n,
                   if rc == 0 then p else -1, rc == 0, Mine(Present(flags), old(ram.frames)[p]))
    ensures rc == -1 ==> Blocked(t, level, n) || forall x: nat :: x < |ram.bits| ==> ram.bits[x]
    ensures Blocked(t, level, n) ==> rc == -1
    ensures ram.freeCount <= old(ram.freeCount) <= ram.freeCount + level
    ensures rc == -1 && !Blocked(t, level, n) ==> old(ram.freeCount) < level
    decreases level, 1
  {
    var i := Index(n, level);
    var e := ram.frames[phys].ents[i];
    assert SlotIs(ram.frames, e, t.slots[i], level, k, i);
    t', rc := t, 0;
    if level == 0 {
      var c := Pte(p, Present(flags));
      LeafWorked(ram.bits, ram.frames, t, k, n, c, Leaf(c), p);
      t' := Update(t, i, Leaf(c));
      ram.frames := WithEntry(ram.frames, phys, i, c);
    } else if level == 1 && e.flags.present && e.flags.huge {
      rc := -1;
      Untouched(ram.bits, ram.frames, t, level, k, n, Mine(Present(flags), ram.frames[p]));
    } else if !e.flags.present {
      rc, t' := MapFresh(ram, phys, level, n, p, flags, k, t);
    } else {
      rc, t' := MapBelow(ram, e, level, n, p, flags, k, t);
    }
  }

  /** Go on below the table that is linked already. */
  method MapBelow(ram: Ram, e: Pte, level: nat, n: nat, p: nat, flags: Flags, k: Kernel, ghost t: Tree)
    returns (rc: int, ghost t': Tree)
    requires ram.Valid() && Workable(ram.frames, ram.bits, t, level, k) && OnWay(t, level, n) && level > 0
    requires t.slots[Index(n, level)].Sub? && e == ram.frames[t.phys].ents[Index(n, level)]
    requires Loose(ram.frames, ram.bits, t, k, p, level) && !flags.huge
    modifies ram
    ensures ram.Valid() && (rc == 0 || rc == -1)
    ensures Worked(old(ram.bits), ram.bits, old(ram.frames), ram.frames, t, t', level, k, n,
                   if rc == 0 then p else -1, rc == 0, Mine(Present(flags), old(ram.frames)[p]))
    ensures rc == -1 ==> Blocked(t, level, n) || forall x: nat :: x < |ram.bits| ==> ram.bits[x]
    ensures Blocked(t, level, n) ==> rc == -1
    ensures ram.freeCount <= old(ram.freeCount) <= ram.freeCount + level
    ensures rc == -1 && !Blocked(t, level, n) ==> old(ram.freeCount) < level
    decreases level, 0
  {
    var i := Index(n, level);
    assert SlotIs(ram.frames, e, t.slots[i], level, k, i);
    SubWorkable(ram.frames, ram.bits, t, level, k, i, p);
    ghost var sub, bits0, frames0 := t.slots[i].sub, ram.bits, ram.frames;
    ghost var sub';
    rc, sub' := MapIn(ram, e.addr, level - 1, n, p, flags, Under(ram.frames, k, i, level), sub);
    SubWorked(bits0, ram.bits, frames0, ram.frames, t, level, k, n, e, sub, sub', if rc == 0 then p else -1, rc == 0,
              Mine(Present(flags), frames0[p]));
    t' := Update(t, i, Sub(e, sub'));
  }

  /** A huge mapping ends the way to page `n`. */
  ghost predicate Blocked(t: Tree, level: nat, n: nat)
    decreases level
  {
    |t.slots| == ENTRIES &&
    match t.slots[Index(n, level)]
    case Fixed(_) => true
    case Sub(_, sub) => level > 0 && Blocked(sub, level - 1, n)
    case _ => false
  }

  /** Link a blank table and go on below it. */
  method MapFresh(ram: Ram, phys: nat, level: nat, n: nat, p: nat, flags: Flags, k: Kernel, ghost t: Tree)
    returns (rc: int, ghost t': Tree)
    requires ram.Valid() && phys == t.phys && Workable(ram.frames, ram.bits, t, level, k) && level > 0
    requires t.slots[Index(n, level)] == Empty && Loose(ram.frames, ram.bits, t, k, p, level) && !flags.huge
    modifies ram
    ensures ram.Valid() && (rc == 0 || rc == -1)
    ensures Worked(old(ram.bits), ram.bits, old(ram.frames), ram.frames, t, t', level, k, n,
                   if rc == 0 then p else -1, rc == 0, Mine(Present(flags), old(ram.frames)[p]))
    ensures rc == -1 ==> forall x: nat :: x < |ram.bits| ==> ram.bits[x]
    ensures ram.freeCount <= old(ram.freeCount) <= ram.freeCount + level
    ensures rc == -1 ==> old(ram.freeCount) < level
    decreases level, 0
  {
    var i := Index(n, level);
    ghost var bits0, frames0 := ram.bits, ram.frames;
    t', rc := t, -1;
    var np := ram.AllocPage();
    if np == 0 {
      Untouched(bits0, frames0, t, level, k, n, Mine(Present(flags), frames0[p]));
      return;
    }
    BlankWorkable(frames0, bits0, t, level, k, i, np, p);
    ram.frames := ram.frames[np := Table(Blank())];
    ram.frames := WithEntry(ram.frames, phys, i, Pte(np, TABLE_FLAGS));
    ghost var sub';
    rc, sub' := MapIn(ram, np, level - 1, n, p, flags, Under(ram.frames, k, i, level), Tree(np, Empties(ENTRIES)));
    FreshWorked(bits0, ram.bits, frames0, ram.frames, t, level, k, n, np, sub', if rc == 0 then p else -1, rc == 0,
                Mine(Present(flags), frames0[p]));
    t' := Update(t, i, Sub(Pte(np, TABLE_FLAGS), sub'));
  }

  /** Unmap page `n`: it shows nothing, every other page what it showed. */
  method UnmapIn(ram: Ram, phys: nat, level: nat, n: nat, k: Kernel, ghost t: Tree) returns (ghost t': Tree)
    requires ram.Valid() && phys == t.phys && Workable(ram.frames, ram.bits, t, level, k) && OnWay(t, level, n)
    modifies ram`frames
    ensures ram.Valid()
    ensures Worked(ram.bits, ram.bits, old(ram.frames), ram.frames, t, t', level, k, n, -1, !Blocked(t, level, n),
                   Nothing)
    decreases level
  {
    var i := Index(n, level);
    var e := ram.frames[phys].ents[i];
    assert SlotIs(ram.frames, e, t.slots[i], level, k, i);
    t' := t;
    if level == 0 {
      LeafWorked(ram.bits, ram.frames, t, k, n, NONE, Empty, -1);
      t' := Update(t, i, Empty);
      ram.frames := WithEntry(ram.frames, phys, i, NONE);
    } else if !e.flags.present || (level == 1 && e.flags.huge) {
      NothingThere(ram.bits, ram.frames, t, level, k, n);
    } else {
      SubWorkable(ram.frames, ram.bits, t, level, k, i, -1);
      ghost var sub, frames0 := t.slots[i].sub, ram.frames;
      ghost var sub' := UnmapIn(ram, e.addr, level - 1, n, Under(ram.frames, k, i, level), sub);
      SubWorked(ram.bits, ram.bits, frames0, ram.frames, t, level, k, n, e, sub, sub', -1, !Blocked(t, level, n),
                Nothing);
      t' := Update(t, i, Sub(e, sub'));
    }
  }

  lemma NothingThere(bits: seq<bool>, frames: Frames, t: Tree, level: nat, k: Kernel, n: nat)
    requires Workable(frames, bits, t, level, k) && level > 0
             && (t.slots[Index(n, level)] == Empty || t.slots[Index(n, level)].Fixed?)
    ensures Worked(bits, bits, frames, frames, t, t, level, k, n, -1, !Blocked(t, level, n), Nothing)
  {
    Unchanged(bits, frames, t);
    forall m: nat ensures View(frames, t, level, m) == Now(frames, t, level, m, n, !Blocked(t, level, n), Nothing) {
      assert SameWay(m, n, level) ==> Index(m, level) == Index(n, level);
    }
  }

  /** The frame behind page `n`, private or of a huge mapping, which covers 512 frames from its first on; 0 when
      there is none. */
  method Translate(ram: Ram, phys: nat, level: nat, n: nat, k: Kernel, ghost t: Tree) returns (frame: nat)
    requires ram.Valid() && phys == t.phys && level <= 3 && Denotes(ram.frames, t, level, k) && OnWay(t, level, n)
    ensures View(ram.frames, t, level, n) == Nothing ==> frame == 0
    ensures View(ram.frames, t, level, n).Mine? ==> Backs(t, level, n, frame) && Refs(t, frame) > 0
    ensures View(ram.frames, t, level, n).Foreign? ==> frame == View(ram.frames, t, level, n).pte.addr + n % ENTRIES
    ensures Blocked(t, level, n) <==> View(ram.frames, t, level, n).Foreign?
    decreases level
  {
    var i := Index(n, level);
    var e := ram.frames[phys].ents[i];
    assert SlotIs(ram.frames, e, t.slots[i], level, k, i);
    assert View(ram.frames, t, level, n) == Through(ram.frames, t.slots[i], level, n);
    if !e.flags.present { return 0; }
    if level == 1 && e.flags.huge { return e.addr + n % ENTRIES; }
    if level == 0 {
      SlotsAt(t.slots, i, e.addr);
      return e.addr;
    }
    frame := Translate(ram, e.addr, level - 1, n, Under(ram.frames, k, i, level), t.slots[i].sub);
    SlotsAt(t.slots, i, frame);
  }

  // ----- storing ------------------------------------------------------------------------------------------------

  /** The frame behind a private page. */
  ghost predicate Backs(t: Tree, level: nat, n: nat, f: nat)
    decreases level
  {
    |t.slots| == ENTRIES &&
    match t.slots[Index(n, level)]
    case Leaf(e) => level == 0 && e.addr == f
    case Sub(_, sub) => level > 0 && Backs(sub, level - 1, n, f)
    case _ => false
  }

  /** A store to the frame behind page `n` shows there and nowhere else. */
  lemma {:induction false} StoreWorked(bits: seq<bool>, frames: Frames, t: Tree, level: nat, k: Kernel, n: nat, f: nat,
                                       data: Frame)
    requires Workable(frames, bits, t, level, k) && Backs(t, level, n, f)
    ensures f < |frames| && View(frames, t, level, n).Mine? && View(frames, t, level, n).data == frames[f]
            && Refs(t, f) > 0
    ensures Worked(bits, bits, frames, frames[f := data], t, t, level, k, n, -1, true,
                   Mine(View(frames, t, level, n).flags, data))
    decreases level
  {
    var i := Index(n, level);
    var s := t.slots[i];
    assert SlotIs(frames, frames[t.phys].ents[i], s, level, k, i);
    SlotsAt(t.slots, i, f);
    if level == 0 {
      StoreLeaf(bits, frames, t, k, n, f, data);
    } else {
      SubWorkable(frames, bits, t, level, k, i, -1);
      StoreWorked(bits, frames, s.sub, level - 1, Under(frames, k, i, level), n, f, data);
      StoreSub(bits, frames, frames[f := data], t, level, k, n, s.pte, s.sub,
               Mine(View(frames, s.sub, level - 1, n).flags, data));
    }
  }

  lemma StoreSub(bits: seq<bool>, frames: Frames, frames': Frames, t: Tree, level: nat, k: Kernel, n: nat, e: Pte,
                 sub: Tree, seen: Seen)
    requires Workable(frames, bits, t, level, k) && level > 0 && t.slots[Index(n, level)] == Sub(e, sub)
    requires Worked(bits, bits, frames, frames', sub, sub, level - 1, Under(frames, k, Index(n, level), level), n, -1,
                    true, seen)
    ensures View(frames, t, level, n) == View(frames, sub, level - 1, n)
    ensures Worked(bits, bits, frames, frames', t, t, level, k, n, -1, true, seen)
  {
    assert Update(t, Index(n, level), Sub(e, sub)) == t;
    assert View(frames, t, level, n) == Through(frames, Sub(e, sub), level, n);
    SubWorked(bits, bits, frames, frames', t, level, k, n, e, sub, sub, -1, true, seen);
  }

  lemma StoreLeaf(bits: seq<bool>, frames: Frames, t: Tree, k: Kernel, n: nat, f: nat, data: Frame)
    requires Workable(frames, bits, t, 0, k) && t.slots[Index(n, 0)].Leaf?
             && t.slots[Index(n, 0)].pte.addr == f < |frames|
    ensures Worked(bits, bits, frames, frames[f := data], t, t, 0, k, n, -1, true,
                   Mine(t.slots[Index(n, 0)].pte.flags, data))
  {
    var i := Index(n, 0);
    var s, frames' := t.slots[i], frames[f := data];
    RefsUpdate(t, i, s);
    assert SlotRefs(s, f) == 1 && Refs(t, f) <= 1;
    assert f != t.phys;
    assert Update(t, i, s) == t;
    KernelSafe(bits, bits, frames, frames', t, t, k, -1, 0);
    assert SlotIs(frames, frames[t.phys].ents[i], s, 0, k, i);
    assert frames[t.phys].ents[i := frames[t.phys].ents[i]] == frames[t.phys].ents;
    UpdateDenotes(bits, frames, frames', t, i, s, frames[t.phys].ents[i], 0, k);
    LeafShows(bits, frames, frames', t, n, s, Mine(s.pte.flags, data));
  }

  // ----- two spaces -----------------------------------------------------------------------------------------------

  /** A space that shares no frame with the one at work shows what it showed. */
  lemma Isolated(bits0: seq<bool>, bits: seq<bool>, frames0: Frames, frames: Frames, t: Tree, t': Tree, u: Tree,
                 k: Kernel, p: int)
    requires Changed(bits0, bits, frames0, frames, t, t', p) && Workable(frames0, bits0, t, 3, k)
             && Workable(frames0, bits0, u, 3, k)
    requires Disjoint(t, u) && (p >= 0 ==> Refs(u, p) == 0 && KernelOutside(frames0, k, t, p, 3))
    ensures Workable(frames, bits, u, 3, k) && Disjoint(t', u)
    ensures forall n: nat :: View(frames, u, 3, n) == View(frames0, u, 3, n)
  {
    KernelSafe(bits0, bits, frames0, frames, t, t', k, p, 3);
    DenotesFrame(frames0, frames, u, 3, k);
    forall j: nat ensures Outside(Below(frames, k, j), u, -1) {
      assert Outside(Below(frames0, k, j), u, -1);
    }
    forall n: nat ensures View(frames, u, 3, n) == View(frames0, u, 3, n) {
      ViewFrame(frames0, frames, u, 3, n);
    }
    forall x: nat ensures Refs(t', x) == 0 || Refs(u, x) == 0 {
      assert Refs(t, x) == 0 || Refs(u, x) == 0;
    }
  }

  /** A page that shows nothing foreign is inside the space. */
  lemma {:induction false} InsideOnWay(frames: Frames, t: Tree, level: nat, k: Kernel, n: nat)
    requires level <= 3 && Denotes(frames, t, level, k) && !View(frames, t, level, n).Foreign?
    ensures OnWay(t, level, n) && !Blocked(t, level, n)
    ensures View(frames, t, level, n).Mine? ==> exists f: nat :: Backs(t, level, n, f)
    decreases level
  {
    var i := Index(n, level);
    assert SlotIs(frames, frames[t.phys].ents[i], t.slots[i], level, k, i);
    if t.slots[i].Sub? {
      InsideOnWay(frames, t.slots[i].sub, level - 1, Under(frames, k, i, level), n);
      if View(frames, t, level, n).Mine? {
        var f: nat :| Backs(t.slots[i].sub, level - 1, n, f);
        assert Backs(t, level, n, f);
      }
    } else if t.slots[i].Leaf? {
      assert Backs(t, level, n, t.slots[i].pte.addr);
    }
  }

  // ----- runs -----------------------------------------------------------------------------------------------------

  datatype Op = MapOp(n: nat, flags: Flags) | UnmapOp(n: nat) | StoreOp(n: nat, data: Frame)

  /** Two spaces, `t` at work and `u` beside it. */
  ghost predicate Beside(frames: Frames, bits: seq<bool>, t: Tree, u: Tree, k: Kernel) {
    Workable(frames, bits, t, 3, k) && Workable(frames, bits, u, 3, k) && Disjoint(t, u)
  }

  /** The operation is on a page of the space's own. */
  ghost predicate Private(frames: Frames, t: Tree, op: Op) {
    !View(frames, t, 3, op.n).Foreign? && (op.MapOp? ==> !op.flags.huge)
  }

  function Zeroes(): Frame { Page(Zeros(4096)) }

  /** Take a zeroed frame for a new page. */
  method FreshPage(ram: Ram, k: Kernel, ghost t: Tree, ghost u: Tree) returns (p: nat)
    requires ram.Valid() && Beside(ram.frames, ram.bits, t, u, k)
    modifies ram
    ensures ram.Valid() && Beside(ram.frames, ram.bits, t, u, k)
    ensures forall n: nat :: View(ram.frames, t, 3, n) == old(View(ram.frames, t, 3, n))
    ensures forall n: nat :: View(ram.frames, u, 3, n) == old(View(ram.frames, u, 3, n))
    ensures p != 0 ==> Loose(ram.frames, ram.bits, t, k, p, 3) && Refs(u, p) == 0 && ram.frames[p] == Zeroes()
    ensures ram.freeCount == if p != 0 then old(ram.freeCount) - 1 else 0
    ensures p == 0 ==> old(ram.freeCount) == 0
  {
    ghost var bits0, frames0 := ram.bits, ram.frames;
    p := ram.AllocPage();
    if p != 0 {
      ram.frames := ram.frames[p := Zeroes()];
      FreshBeside(bits0, frames0, ram.frames, t, u, k, p);
    }
  }

  lemma FreshBeside(bits0: seq<bool>, frames0: Frames, frames: Frames, t: Tree, u: Tree, k: Kernel, p: nat)
    requires Beside(frames0, bits0, t, u, k) && 0 < p < |bits0| && !bits0[p] && |frames| == |frames0|
    requires forall x: nat :: x < |frames0| && x != p ==> frames[x] == frames0[x]
    ensures Beside(frames, bits0[p := true], t, u, k)
    ensures Loose(frames, bits0[p := true], t, k, p, 3) && Refs(u, p) == 0
    ensures forall n: nat :: View(frames, t, 3, n) == View(frames0, t, 3, n)
    ensures forall n: nat :: View(frames, u, 3, n) == View(frames0, u, 3, n)
  {
    StaysWorkable(bits0, frames0, frames, t, k, p);
    StaysWorkable(bits0, frames0, frames, u, k, p);
  }

  /** A write to a frame that was free changes nothing for a space. */
  lemma StaysWorkable(bits0: seq<bool>, frames0: Frames, frames: Frames, t: Tree, k: Kernel, p: nat)
    requires Workable(frames0, bits0, t, 3, k) && 0 < p < |bits0| && !bits0[p] && |frames| == |frames0|
    requires forall x: nat :: x < |frames0| && x != p ==> frames[x] == frames0[x]
    ensures Workable(frames, bits0[p := true], t, 3, k) && Loose(frames, bits0[p := true], t, k, p, 3)
    ensures forall n: nat :: View(frames, t, 3, n) == View(frames0, t, 3, n)
  {
    BelowSame(bits0, frames0, frames, k);
    DenotesFrame(frames0, frames, t, 3, k);
    forall j: nat ensures KernelInUse(Below(frames, k, j), bits0[p := true]) && Outside(Below(frames, k, j), t, p) {
      assert KernelInUse(Below(frames0, k, j), bits0) && Outside(Below(frames0, k, j), t, -1);
    }
    forall n: nat ensures View(frames, t, 3, n) == View(frames0, t, 3, n) {
      ViewFrame(frames0, frames, t, 3, n);
    }
  }

  /** What one operation does: only its page changes, and nothing in the other space. */
  ghost predicate Effect(frames0: Frames, frames: Frames, t: Tree, t': Tree, u: Tree, n: nat) {
    && (forall m: nat :: m < Span(3) && m != n && n < Span(3) ==> View(frames, t', 3, m) == View(frames0, t, 3, m))
    && (forall m: nat :: View(frames, u, 3, m) == View(frames0, u, 3, m))
    && (forall m: nat :: View(frames, t', 3, m).Foreign? ==> View(frames0, t, 3, m).Foreign?)
  }

  lemma EffectOf(frames0: Frames, frames: Frames, t: Tree, t': Tree, u: Tree, n: nat, ok: bool, seen: Seen)
    requires Shows(frames0, t, frames, t', 3, n, ok, seen) && !seen.Foreign?
    requires forall m: nat :: View(frames, u, 3, m) == View(frames0, u, 3, m)
    ensures Effect(frames0, frames, t, t', u, n)
  {
    forall m: nat | m < Span(3) && m != n && n < Span(3) ensures View(frames, t', 3, m) == View(frames0, t, 3, m) {
      if SameWay(m, n, 3) {
        SameWaySame(m, n, 3);
      }
    }
  }

  /** What the page of an operation shows after it. */
  function SeenAfter(op: Op, ok: bool, before: Seen): Seen {
    match op
    case MapOp(_, flags) => if ok then Mine(Present(flags), Zeroes()) else before
    case UnmapOp(_) => Nothing
    case StoreOp(_, data) => if before.Mine? then Mine(before.flags, data) else before
  }

  /** The free frames before and after an operation: a page that is mapped takes one
      and at most three for tables, and only the want of these makes it fail. */
  predicate Spent(op: Op, ok: bool, free0: nat, free: nat) {
    && (!op.MapOp? ==> ok && free == free0)
    && (op.MapOp? && ok ==> free < free0 <= free + 4)
    && (op.MapOp? && !ok ==> free <= free0 < 4)
  }

  method PerformMap(ram: Ram, root: nat, n: nat, flags: Flags, k: Kernel, ghost t: Tree, ghost u: Tree)
    returns (ok: bool, ghost t': Tree)
    requires ram.Valid() && root == t.phys && Beside(ram.frames, ram.bits, t, u, k)
             && Private(ram.frames, t, MapOp(n, flags))
    modifies ram
    ensures ram.Valid() && t'.phys == t.phys && Beside(ram.frames, ram.bits, t', u, k)
    ensures Effect(old(ram.frames), ram.frames, t, t', u, n)
    ensures View(ram.frames, t', 3, n) == SeenAfter(MapOp(n, flags), ok, old(View(ram.frames, t, 3, n)))
    ensures Spent(MapOp(n, flags), ok, old(ram.freeCount), ram.freeCount)
  {
    ok, t' := false, t;
    var p := FreshPage(ram, k, t, u);
    if p == 0 { return; }
    ghost var bits1, frames1 := ram.bits, ram.frames;
    InsideOnWay(frames1, t, 3, k, n);
    var rc;
    rc, t' := MapIn(ram, root, 3, n, p, flags, k, t);
    ok := rc == 0;
    Isolated(bits1, ram.bits, frames1, ram.frames, t, t', u, k, if ok then p else -1);
    EffectOf(frames1, ram.frames, t, t', u, n, ok, Mine(Present(flags), frames1[p]));
    assert SameWay(n, n, 3);
    if !ok {
      KernelSafe(bits1, ram.bits, frames1, ram.frames, t, t', k, -1, 3);
      ghost var bits2 := ram.bits;
      ram.FreePage(p);
      PageDropped(ram.frames, bits2, ram.bits, t', k, p, frames1, t);
      PageDropped(ram.frames, bits2, ram.bits, u, k, p, frames1, t);
    }
  }

  /** Giving back a frame that no space and no kernel table uses. */
  lemma PageDropped(frames: Frames, bits: seq<bool>, bits': seq<bool>, t: Tree, k: Kernel, p: nat, frames1: Frames,
                    t1: Tree)
    requires Workable(frames, bits, t, 3, k) && Refs(t, p) == 0 && KernelOutside(frames1, k, t1, p, 3)
    requires forall j: nat {:trigger Below(frames, k, j)} :: Below(frames, k, j) == Below(frames1, k, j)
    requires |bits'| == |bits| && forall x: nat :: x < |bits| ==> (bits'[x] <==> bits[x] && x != p)
    ensures Workable(frames, bits', t, 3, k)
  {
    forall j: nat ensures KernelInUse(Below(frames, k, j), bits') {
      assert Outside(Below(frames1, k, j), t1, p) && KernelInUse(Below(frames, k, j), bits);
    }
  }

  method PerformUnmap(ram: Ram, root: nat, n: nat, k: Kernel, ghost t: Tree, ghost u: Tree) returns (ghost t': Tree)
    requires ram.Valid() && root == t.phys && Beside(ram.frames, ram.bits, t, u, k)
             && Private(ram.frames, t, UnmapOp(n))
    modifies ram
    ensures ram.Valid() && t'.phys == t.phys && Beside(ram.frames, ram.bits, t', u, k)
    ensures Effect(old(ram.frames), ram.frames, t, t', u, n)
    ensures View(ram.frames, t', 3, n) == Nothing && ram.freeCount == old(ram.freeCount)
  {
    ghost var bits1, frames1 := ram.bits, ram.frames;
    InsideOnWay(frames1, t, 3, k, n);
    t' := UnmapIn(ram, root, 3, n, k, t);
    Isolated(bits1, ram.bits, frames1, ram.frames, t, t', u, k, -1);
    EffectOf(frames1, ram.frames, t, t', u, n, true, Nothing);
    assert SameWay(n, n, 3);
  }

  method PerformStore(ram: Ram, root: nat, n: nat, data: Frame, k: Kernel, ghost t: Tree, ghost u: Tree)
    requires ram.Valid() && root == t.phys && Beside(ram.frames, ram.bits, t, u, k)
             && Private(ram.frames, t, StoreOp(n, data))
    modifies ram
    ensures ram.Valid() && Beside(ram.frames, ram.bits, t, u, k)
    ensures Effect(old(ram.frames), ram.frames, t, t, u, n)
    ensures View(ram.frames, t, 3, n) == SeenAfter(StoreOp(n, data), true, old(View(ram.frames, t, 3, n)))
    ensures ram.freeCount == old(ram.freeCount)
  {
    ghost var bits1, frames1 := ram.bits, ram.frames;
    InsideOnWay(frames1, t, 3, k, n);
    var f := Translate(ram, root, 3, n, k, t);
    if f == 0 { return; }
    StoreWorked(bits1, frames1, t, 3, k, n, f, data);
    ram.frames := ram.frames[f := data];
    Isolated(bits1, bits1, frames1, ram.frames, t, t, u, k, -1);
    EffectOf(frames1, ram.frames, t, t, u, n, true, Mine(View(frames1, t, 3, n).flags, data));
    assert SameWay(n, n, 3);
  }

  /** One operation on the space `t`. */
  method Perform(ram: Ram, root: nat, op: Op, k: Kernel, ghost t: Tree, ghost u: Tree)
    returns (ok: bool, ghost t': Tree)
    requires ram.Valid() && root == t.phys && Beside(ram.frames, ram.bits, t, u, k) && Private(ram.frames, t, op)
    modifies ram
    ensures ram.Valid() && t'.phys == t.phys && Beside(ram.frames, ram.bits, t', u, k)
    ensures Effect(old(ram.frames), ram.frames, t, t', u, op.n)
    ensures View(ram.frames, t', 3, op.n) == SeenAfter(op, ok, old(View(ram.frames, t, 3, op.n)))
    ensures Spent(op, ok, old(ram.freeCount), ram.freeCount)
  {
    ok, t' := true, t;
    match op
    case MapOp(n, flags) => ok, t' := PerformMap(ram, root, n, flags, k, t, u);
    case UnmapOp(n) => t' := PerformUnmap(ram, root, n, k, t, u);
    case StoreOp(n, data) => PerformStore(ram, root, n, data, k, t, u);
  }

  // ----- two spaces at work -----------------------------------------------------------------------------------

  /** An operation of the first or the second space. */
  datatype Move = Move(first: bool, op: Op)

  /** What page `m` of a space shows after the moves: the effect of its own operations
      on that page, in order, and of no others. */
  function Told(moves: seq<Move>, oks: seq<bool>, first: bool, m: nat, before: Seen): Seen
    requires |oks| == |moves|
    decreases |moves|
  {
    if moves == [] then before
    else
      var i := |moves| - 1;
      var seen := Told(moves[..i], oks[..i], first, m, before);
      if moves[i].first == first && moves[i].op.n == m then SeenAfter(moves[i].op, oks[i], seen) else seen
  }

  /** A page that no move of its space names shows what it showed. */
  lemma {:induction false} NotNamed(moves: seq<Move>, oks: seq<bool>, first: bool, m: nat, before: Seen)
    requires |oks| == |moves| && forall j: nat :: j < |moves| && moves[j].first == first ==> moves[j].op.n != m
    ensures Told(moves, oks, first, m, before) == before
    decreases |moves|
  {
    if moves != [] {
      NotNamed(moves[..|moves| - 1], oks[..|moves| - 1], first, m, before);
    }
  }

  lemma ToldMore(moves: seq<Move>, oks: seq<bool>, i: nat, ok: bool, first: bool, m: nat, before: Seen)
    requires i == |oks| < |moves|
    ensures var seen := Told(moves[..i], oks, first, m, before);
            Told(moves[..i + 1], oks + [ok], first, m, before)
            == if moves[i].first == first && moves[i].op.n == m then SeenAfter(moves[i].op, ok, seen) else seen
  {
    assert moves[..i + 1][..i] == moves[..i] && (oks + [ok])[..i] == oks;
  }

  /** Every page of a space shows what the moves made of it. */
  ghost predicate AllTold(frames0: Frames, t: Tree, frames: Frames, t': Tree, moves: seq<Move>, oks: seq<bool>,
                          first: bool)
    requires |oks| == |moves|
  {
    forall m: nat :: m < Span(3) ==> View(frames, t', 3, m) == Told(moves, oks, first, m, View(frames0, t, 3, m))
  }

  /** The counts of free frames from move to move. */
  ghost predicate Spending(moves: seq<Move>, oks: seq<bool>, frees: seq<nat>) {
    && |oks| == |moves| && |frees| == |moves| + 1
    && forall j: nat :: j < |moves| ==> Spent(moves[j].op, oks[j], frees[j], frees[j + 1])
  }

  lemma SpendingMore(moves: seq<Move>, oks: seq<bool>, frees: seq<nat>, ok: bool, free: nat)
    requires |oks| < |moves| && Spending(moves[..|oks|], oks, frees)
    requires Spent(moves[|oks|].op, ok, frees[|oks|], free)
    ensures Spending(moves[..|oks| + 1], oks + [ok], frees + [free])
  {
  }

  /** With four frames free for each move, all of them succeed. */
  lemma {:induction false} AmpleMemory(moves: seq<Move>, oks: seq<bool>, frees: seq<nat>, i: nat)
    requires Spending(moves, oks, frees) && frees[0] >= 4 * |moves| && i <= |moves|
    ensures frees[i] >= 4 * (|moves| - i) && forall j: nat :: j < i ==> oks[j]
    decreases i
  {
    if i > 0 {
      AmpleMemory(moves, oks, frees, i - 1);
      assert Spent(moves[i - 1].op, oks[i - 1], frees[i - 1], frees[i]);
    }
  }

  /** The moves of each space are on pages of its own. */
  ghost predicate OwnPages(frames: Frames, t: Tree, u: Tree, moves: seq<Move>) {
    forall j: nat :: j < |moves| ==>
        Private(frames, if moves[j].first then t else u, moves[j].op) && moves[j].op.n < Span(3)
  }

  /** One move is told of the space at work, and nothing of the other. */
  lemma MoveTold(frames0: Frames, frames1: Frames, frames: Frames, t: Tree, t1: Tree, t': Tree, u1: Tree,
                 moves: seq<Move>, oks: seq<bool>, ok: bool)
    requires |oks| < |moves| && Effect(frames1, frames, t1, t', u1, moves[|oks|].op.n) && moves[|oks|].op.n < Span(3)
    requires View(frames, t', 3, moves[|oks|].op.n)
             == SeenAfter(moves[|oks|].op, ok, View(frames1, t1, 3, moves[|oks|].op.n))
    requires AllTold(frames0, t, frames1, t1, moves[..|oks|], oks, moves[|oks|].first)
    ensures AllTold(frames0, t, frames, t', moves[..|oks| + 1], oks + [ok], moves[|oks|].first)
  {
    var i, move := |oks|, moves[|oks|];
    forall m: nat | m < Span(3)
      ensures View(frames, t', 3, m) == Told(moves[..i + 1], oks + [ok], move.first, m, View(frames0, t, 3, m))
    {
      ToldMore(moves, oks, i, ok, move.first, m, View(frames0, t, 3, m));
    }
  }

  lemma OtherTold(frames0: Frames, frames1: Frames, frames: Frames, t1: Tree, t': Tree, u: Tree, u1: Tree,
                  moves: seq<Move>, oks: seq<bool>, ok: bool)
    requires |oks| < |moves| && Effect(frames1, frames, t1, t', u1, moves[|oks|].op.n)
    requires AllTold(frames0, u, frames1, u1, moves[..|oks|], oks, !moves[|oks|].first)
    ensures AllTold(frames0, u, frames, u1, moves[..|oks| + 1], oks + [ok], !moves[|oks|].first)
  {
    var i, move := |oks|, moves[|oks|];
    forall m: nat | m < Span(3)
      ensures View(frames, u1, 3, m) == Told(moves[..i + 1], oks + [ok], !move.first, m, View(frames0, u, 3, m))
    {
      ToldMore(moves, oks, i, ok, !move.first, m, View(frames0, u, 3, m));
    }
  }

  /** The next move of a run. */
  method Step(ram: Ram, root: nat, root2: nat, moves: seq<Move>, k: Kernel, oks: seq<bool>, ghost frames0: Frames,
              ghost t: Tree, ghost u: Tree, ghost t1: Tree, ghost u1: Tree)
    returns (ok: bool, ghost t': Tree, ghost u': Tree)
    requires ram.Valid() && root == t1.phys && root2 == u1.phys && Beside(ram.frames, ram.bits, t1, u1, k)
    requires |oks| < |moves| && OwnPages(ram.frames, t1, u1, moves)
    requires AllTold(frames0, t, ram.frames, t1, moves[..|oks|], oks, true)
    requires AllTold(frames0, u, ram.frames, u1, moves[..|oks|], oks, false)
    modifies ram
    ensures ram.Valid() && t'.phys == root && u'.phys == root2 && Beside(ram.frames, ram.bits, t', u', k)
    ensures OwnPages(ram.frames, t', u', moves) && Spent(moves[|oks|].op, ok, old(ram.freeCount), ram.freeCount)
    ensures AllTold(frames0, t, ram.frames, t', moves[..|oks| + 1], oks + [ok], true)
    ensures AllTold(frames0, u, ram.frames, u', moves[..|oks| + 1], oks + [ok], false)
  {
    ghost var frames1 := ram.frames;
    var move := moves[|oks|];
    t', u' := t1, u1;
    if move.first {
      ok, t' := Perform(ram, root, move.op, k, t1, u1);
      MoveTold(frames0, frames1, ram.frames, t, t1, t', u1, moves, oks, ok);
      OtherTold(frames0, frames1, ram.frames, t1, t', u, u1, moves, oks, ok);
    } else {
      Swap(t1, u1);
      ok, u' := Perform(ram, root2, move.op, k, u1, t1);
      Swap(u', t1);
      MoveTold(frames0, frames1, ram.frames, u, u1, u', t1, moves, oks, ok);
      OtherTold(frames0, frames1, ram.frames, u1, u', t, t1, moves, oks, ok);
    }
  }

  /** Any run of operations on private pages of two spaces, in any order: each page
      of each space shows exactly what the operations of that space on that page, in
      order, made of it. None fails while four frames are free. */
  method PerformAll(ram: Ram, root: nat, root2: nat, moves: seq<Move>, k: Kernel, ghost t: Tree, ghost u: Tree)
    returns (oks: seq<bool>, ghost t': Tree, ghost u': Tree, ghost frees: seq<nat>)
    requires ram.Valid() && root == t.phys && root2 == u.phys && Beside(ram.frames, ram.bits, t, u, k)
    requires OwnPages(ram.frames, t, u, moves)
    modifies ram
    ensures ram.Valid() && t'.phys == root && u'.phys == root2 && Beside(ram.frames, ram.bits, t', u', k)
    ensures Spending(moves, oks, frees) && frees[0] == old(ram.freeCount) && frees[|moves|] == ram.freeCount
    ensures AllTold(old(ram.frames), t, ram.frames, t', moves, oks, true)
    ensures AllTold(old(ram.frames), u, ram.frames, u', moves, oks, false)
  {
    ghost var frames0 := ram.frames;
    oks, t', u', frees := [], t, u, [ram.freeCount];
    while |oks| < |moves|
      invariant |oks| <= |moves| && ram.Valid() && t'.phys == root && u'.phys == root2
      invariant Beside(ram.frames, ram.bits, t', u', k) && OwnPages(ram.frames, t', u', moves)
      invariant Spending(moves[..|oks|], oks, frees) && frees[0] == old(ram.freeCount) && frees[|oks|] == ram.freeCount
      invariant AllTold(frames0, t, ram.frames, t', moves[..|oks|], oks, true)
      invariant AllTold(frames0, u, ram.frames, u', moves[..|oks|], oks, false)
    {
      var ok;
      ok, t', u' := Step(ram, root, root2, moves, k, oks, frames0, t, u, t', u');
      SpendingMore(moves, oks, frees, ok, ram.freeCount);
      oks, frees := oks + [ok], frees + [ram.freeCount];
    }
    assert moves[..|oks|] == moves;
  }

  /** Parent and child of a fork are two spaces beside each other. */
  lemma ForkBeside(bits0: seq<bool>, bits: seq<bool>, frames0: Frames, frames: Frames, t: Tree, c: Tree, k: Kernel)
    requires Workable(frames0, bits0, t, 3, k) && 0 < |bits0| && bits0[0] && Kept(bits0, frames0, frames)
    requires Clonable(frames, bits, t, 3, k) && Clonable(frames, bits, c, 3, k) && Disjoint(t, c) && |bits| == |bits0|
    requires forall x: nat :: Refs(c, x) > 0 ==> x < |bits0| && !bits0[x]
    ensures Beside(frames, bits, t, c, k)
  {
    BelowSame(bits0, frames0, frames, k);
    forall j: nat ensures Outside(Below(frames, k, j), t, -1) && Outside(Below(frames, k, j), c, -1) {
      assert Outside(Below(frames0, k, j), t, -1) && KernelInUse(Below(frames0, k, j), bits0);
    }
  }

  /** Fork, and then let parent and child map, unmap and store in any order: each of
      them shows what its own operations made of what the parent showed. Without as
      many free frames as the parent owns, nothing happens. */
  method ForkThenRun(ram: Ram, src: nat, moves: seq<Move>, k: Kernel, ghost t: Tree)
    returns (phys: nat, oks: seq<bool>, ghost t': Tree, ghost c: Tree)
    requires ram.Valid() && src == t.phys && Workable(ram.frames, ram.bits, t, 3, k)
    requires OwnPages(ram.frames, t, t, moves)
    modifies ram
    ensures ram.Valid() && Workable(ram.frames, ram.bits, t', 3, k) && t'.phys == src
    ensures phys == 0 <==> old(ram.freeCount) < Size(t)
    ensures phys == 0 ==> ram.bits == old(ram.bits) && t' == t
                          && forall n: nat :: View(ram.frames, t, 3, n) == old(View(ram.frames, t, 3, n))
    ensures phys != 0 ==> && c.phys == phys && Beside(ram.frames, ram.bits, t', c, k) && |oks| == |moves|
                          && AllTold(old(ram.frames), t, ram.frames, t', moves, oks, true)
                          && AllTold(old(ram.frames), t, ram.frames, c, moves, oks, false)
    ensures old(ram.freeCount) >= Size(t) + 4 * |moves| ==> |oks| == |moves| && forall j: nat :: j < |oks| ==> oks[j]
  {
    ghost var bits0, frames0 := ram.bits, ram.frames;
    oks, t' := [], t;
    phys, c := Fork(ram, src, k, t);
    if phys == 0 {
      BelowSame(bits0, frames0, ram.frames, k);
      forall j: nat ensures Outside(Below(ram.frames, k, j), t, -1) {
        assert Outside(Below(frames0, k, j), t, -1);
      }
      return;
    }
    ForkBeside(bits0, ram.bits, frames0, ram.frames, t, c, k);
    ghost var frames1, c1 := ram.frames, c;
    ghost var frees;
    oks, t', c, frees := PerformAll(ram, src, phys, moves, k, t, c1);
    if frees[0] >= 4 * |moves| {
      AmpleMemory(moves, oks, frees, |moves|);
    }
  }

  lemma Swap(t: Tree, u: Tree)
    requires Disjoint(t, u)
    ensures Disjoint(u, t)
  {
  }
}
