/** Writing to a file: mapping what is not mapped yet, and laying the data over
    the blocks. */
module Ext4Write {
  import opened RawBytes
  import opened Ext4Extents
  import opened Ext4Tree
  import opened Ext4Volume
  import opened Ext4Levels
  import opened Ext4ExtentOps
  import opened Ext4Insert
  import opened Ext4Map
  import opened Ext4Append
  import opened Ext4Truncate
  import opened Division
  import opened Ext4File

  /** `i_blocks` after `n` more blocks. */
  function Sectors(ib: nat, n: nat, spb: nat): nat { Wrap(ib + n * spb) }

  /** `i_blocks` counts the sectors of the tree's blocks, modulo 2^32. */
  ghost predicate Accounted(ib: nat, t: Tree, spb: nat) {
    ib == Wrap(BlockCount(t) * spb)
  }

  /** Blocks in use outside the file stay in use, outside the file and unwritten. */
  ghost predicate Apart(t0: Tree, t: Tree, used0: set<nat>, used: set<nat>, disk0: Disk, disk: Disk) {
    forall b :: b in used0 && Refs(t0, b) == 0 ==>
      b in used && Refs(t, b) == 0 && (b in disk0 ==> b in disk && disk[b] == disk0[b])
  }

  /** A file that shares no block with the one written keeps its tree. */
  lemma BystanderOk(t0: Tree, t: Tree, used0: set<nat>, used: set<nat>, disk0: Disk, disk: Disk, root: Node, y: Tree,
                    cap: nat)
    requires Apart(t0, t, used0, used, disk0, disk) && TreeOk(disk0, used0, root, y, cap)
    requires forall b :: Refs(y, b) > 0 ==> Refs(t0, b) == 0
    ensures TreeOk(disk, used, root, y, cap) && forall b :: Refs(y, b) > 0 ==> Refs(t, b) == 0
  {
    if y.Index? {
      assert AgreeOn(disk0, disk, y.kids);
      StoredFrame(disk0, disk, y.kids, root.depth - 1, cap);
    }
  }

  /** What stops a write: the tree is as deep as it gets, or at most the run the
      write tried to add is free. */
  ghost predicate NoRoom(vol: Volume, depth: nat)
    reads vol
  {
    || depth + 1 >= PATH_MAX
    || exists start: nat, n: nat {:trigger Range(start, n)} :: n <= 2048 && vol.AllBut(Range(start, n))
  }

  // ----- mapping a run ---------------------------------------------------------------------------------

  lemma DeepenedUnharmed(t0: Tree, t: Tree, used0: set<nat>, used: set<nat>, disk0: Disk, disk: Disk, ib0: nat, ib: nat,
                         spb: nat)
    requires Deepened(t0, t, used0, used, disk0, disk, ib0, ib, spb)
    ensures Unharmed(t0, t, used0, used, disk0, disk)
  {
  }

  /** Append the run, or insert it in front of what is mapped already. */
  method PlaceRun(vol: Volume, inode: Inode, cur: nat, nb: nat, n: nat) returns (rc: int)
    requires vol.Valid() && inode.iblocks < U32 && inode.Ok(vol)
    requires RunOk(cur, nb, n) && RunFree(inode.tree, vol.used, nb, n) && Unmapped(Flat(inode.tree), cur, n)
    modifies vol, inode`root, inode`iblocks, inode`tree
    ensures vol.Valid() && inode.Ok(vol) && inode.iblocks < U32 && (rc == 0 || rc == -1)
    ensures rc == 0 ==> Mapped(old(inode.tree), inode.tree, old(vol.used), vol.used, old(vol.disk), vol.disk,
                               old(inode.iblocks), inode.iblocks, vol.Spb(), cur, nb, n)
    ensures rc == -1 ==> Unharmed(old(inode.tree), inode.tree, old(vol.used), vol.used, old(vol.disk), vol.disk)
                         && (vol.Exhausted() || inode.root.depth + 1 >= PATH_MAX)
    ensures SameData(old(vol.disk), vol.disk, old(inode.tree), vol.blockSize)
  {
    ghost var root := inode.root;
    forall b | b in vol.used ensures b in vol.disk {
      vol.UsedOnDisk(b);
    }
    var end := TreeEnd(vol, inode);
    if cur >= end {
      rc := ExtentAppend(vol, inode, cur, nb, n);
    } else {
      rc := ExtentMap(vol, inode, cur, nb, n);
      if rc == -1 {
        DeepenedUnharmed(old(inode.tree), inode.tree, old(vol.used), vol.used, old(vol.disk), vol.disk,
                         old(inode.iblocks), inode.iblocks, vol.Spb());
      }
    }
    DataKept(old(vol.disk), vol.disk, old(vol.used), root, old(inode.tree), vol.Cap(), vol.blockSize);
  }

  lemma RunReady(disk: Disk, used: set<nat>, root: Node, t: Tree, cap: nat, cur: nat, last: nat, nb: nat, n: nat)
    requires TreeOk(disk, used, root, t, cap) && Range(nb, n) !! used
    requires (forall b: nat :: cur <= b <= last ==> Blk(t, b) == 0) && cur + n - 1 <= last
    ensures TreeOk(disk, used + Range(nb, n), root, t, cap) && RunFree(t, used + Range(nb, n), nb, n)
    ensures Unmapped(Flat(t), cur, n)
  {
    forall b | cur <= b < cur + n ensures At(Flat(t), b) == 0 {
      assert Blk(t, b) == 0;
    }
    forall b | InRun(nb, n, b) > 0 ensures b in used + Range(nb, n) && Refs(t, b) == 0 {
      assert b in Range(nb, n);
    }
  }

  /** What the tree's operations leave alone includes the file's data. */
  lemma DataKept(disk0: Disk, disk: Disk, used: set<nat>, root: Node, t: Tree, cap: nat, bs: nat)
    requires TreeOk(disk0, used, root, t, cap) && OthersKept(disk0, disk, used, t)
             && (forall b :: b in used ==> b in disk0)
    ensures SameData(disk0, disk, t, bs)
  {
    forall b: nat | Blk(t, b) != 0
      ensures Blk(t, b) in disk0 && Blk(t, b) in disk && disk[Blk(t, b)] == disk0[Blk(t, b)]
    {
      DataBlockOf(disk0, used, root, t, cap, b);
    }
  }

  /** Give the blocks of a run back. */
  method ReleaseRun(vol: Volume, nb: nat, n: nat)
    requires vol.Valid() && nb > 0
    modifies vol`bits, vol`freeCount, vol`sbFree, vol`used
    ensures vol.Valid() && vol.used == old(vol.used) - Range(nb, n)
    ensures old(vol.Exhausted()) ==> vol.AllBut(Range(nb, n))
  {
    var k := 0;
    while k < n
      invariant k <= n && vol.Valid() && vol.used == old(vol.used) - Range(nb, k) && |vol.bits| == old(|vol.bits|)
    {
      vol.FreeBlock(nb + k);
      k := k + 1;
    }
  }

  lemma ReleasedOk(disk: Disk, used: set<nat>, root: Node, t0: Tree, t: Tree, used0: set<nat>, disk0: Disk, cap: nat,
                   nb: nat, n: nat)
    requires TreeOk(disk, used, root, t, cap) && Unharmed(t0, t, used0, used, disk0, disk) && RunFree(t0, used0, nb, n)
    ensures TreeOk(disk, used - Range(nb, n), root, t, cap)
  {
    forall b | b in Range(nb, n) ensures Refs(t, b) == 0 {
      assert InRun(nb, n, b) > 0;
    }
  }

  lemma MappedApart(t0: Tree, t: Tree, used0: set<nat>, used1: set<nat>, used: set<nat>, disk0: Disk, disk: Disk,
                    ib0: nat, ib: nat, spb: nat, cur: nat, nb: nat, n: nat)
    requires Mapped(t0, t, used1, used, disk0, disk, ib0, ib, spb, cur, nb, n)
    requires used1 == used0 + Range(nb, n) && Range(nb, n) !! used0
    ensures Apart(t0, t, used0, used, disk0, disk)
  {
    forall b | b in used0 && Refs(t0, b) == 0 ensures Refs(t, b) == 0 {
      assert b !in Range(nb, n);
      assert In(used - used1, b) == 0 && InRun(nb, n, b) == 0;
      assert DataRefs(Flat(t), b) == DataRefs(Flat(t0), b);
    }
  }

  lemma UnharmedApart(t0: Tree, t: Tree, used0: set<nat>, used1: set<nat>, used: set<nat>, disk0: Disk, disk: Disk,
                      nb: nat, n: nat)
    requires Unharmed(t0, t, used1, used, disk0, disk) && used1 == used0 + Range(nb, n) && Range(nb, n) !! used0
    ensures Apart(t0, t, used0, used - Range(nb, n), disk0, disk)
  {
    forall b | b in used0 && Refs(t0, b) == 0 ensures Refs(t, b) == 0 && b !in Range(nb, n) {
      assert NodeRefs(t0, b) == 0;
    }
  }

  /** The sectors of the run and of the node blocks gained are counted. */
  lemma MappedAccounts(t0: Tree, t: Tree, used1: set<nat>, used: set<nat>, disk0: Disk, disk: Disk,
                       ib0: nat, ib: nat, spb: nat, cur: nat, nb: nat, n: nat)
    requires Mapped(t0, t, used1, used, disk0, disk, ib0, ib, spb, cur, nb, n)
    ensures Accounted(ib0, t0, spb) ==> Accounted(Sectors(ib, n, spb), t, spb)
  {
    var gained := |used - used1|;
    SectorsAdd(ib0, gained, n, spb);
    assert BlockCount(t) == BlockCount(t0) + (gained + n);
    SectorsAdd(0, BlockCount(t0), gained + n, spb);
  }

  lemma MappedRun(t0: Tree, t: Tree, used0: set<nat>, used1: set<nat>, used: set<nat>, disk0: Disk, disk: Disk,
                  ib0: nat, ib: nat, ib2: nat, spb: nat, bs: nat, cur: nat, nb: nat, n: nat)
    requires Mapped(t0, t, used1, used, disk0, disk, ib0, ib, spb, cur, nb, n) && SameData(disk0, disk, t0, bs)
    requires ib2 == Sectors(ib, n, spb)
    requires n > 0 && nb > 0 && used1 == used0 + Range(nb, n) && Range(nb, n) !! used0
    ensures RunMapped(disk0, t0, disk, t, bs, cur, nb, n) && Apart(t0, t, used0, used, disk0, disk)
    ensures Accounted(ib0, t0, spb) ==> Accounted(ib2, t, spb)
  {
    MappedApart(t0, t, used0, used1, used, disk0, disk, ib0, ib, spb, cur, nb, n);
    MappedAccounts(t0, t, used1, used, disk0, disk, ib0, ib, spb, cur, nb, n);
    forall b: nat ensures Blk(t, b) == WithRun(Blk(t0, b), b, cur, nb, n) {
    }
  }

  /** Map `n` blocks from `cur` on to the run just allocated at `nb`; when the
      tree cannot take it, the run is free again. */
  method UseRun(vol: Volume, inode: Inode, cur: nat, nb: nat, n: nat, ghost used0: set<nat>) returns (ok: bool)
    requires vol.Valid() && inode.Ok(vol) && inode.iblocks < U32 && RunOk(cur, nb, n)
             && Unmapped(Flat(inode.tree), cur, n)
    requires n <= 2048 && RunFree(inode.tree, vol.used, nb, n) && vol.used == used0 + Range(nb, n)
             && Range(nb, n) !! used0
    modifies vol, inode`root, inode`iblocks, inode`tree
    ensures vol.Valid() && inode.Ok(vol) && inode.iblocks < U32
    ensures Apart(old(inode.tree), inode.tree, used0, vol.used, old(vol.disk), vol.disk)
    ensures ok ==> && RunMapped(old(vol.disk), old(inode.tree), vol.disk, inode.tree, vol.blockSize, cur, nb, n)
                   && (Accounted(old(inode.iblocks), old(inode.tree), vol.Spb()) ==>
                         Accounted(inode.iblocks, inode.tree, vol.Spb()))
    ensures !ok ==> Flat(inode.tree) == old(Flat(inode.tree)) && NoRoom(vol, inode.root.depth)
                    && SameData(old(vol.disk), vol.disk, old(inode.tree), vol.blockSize)
  {
    var rc := PlaceRun(vol, inode, cur, nb, n);
    ok := rc >= 0;
    if !ok {
      ReleasedOk(vol.disk, vol.used, inode.root, old(inode.tree), inode.tree, old(vol.used), old(vol.disk), vol.Cap(),
                 nb, n);
      UnharmedApart(old(inode.tree), inode.tree, used0, old(vol.used), vol.used, old(vol.disk), vol.disk, nb, n);
      ReleaseRun(vol, nb, n);
    } else {
      var spb, ib := vol.Spb(), inode.iblocks;
      inode.iblocks := Sectors(ib, n, spb);
      MappedRun(old(inode.tree), inode.tree, used0, old(vol.used), vol.used, old(vol.disk), vol.disk,
                old(inode.iblocks), ib, inode.iblocks, spb, vol.blockSize, cur, nb, n);
    }
  }

  /** Map logical blocks from `cur` on, at most up to `last`, to a fresh run:
      0 when no block is free or the tree cannot take the run. */
  method MapRun(vol: Volume, inode: Inode, cur: nat, last: nat) returns (nb: nat, ghost n: nat)
    requires vol.Valid() && inode.Ok(vol) && inode.iblocks < U32 && cur <= last < U32 - 1
    requires forall b: nat :: cur <= b <= last ==> Blk(inode.tree, b) == 0
    modifies vol, inode`root, inode`iblocks, inode`tree
    ensures vol.Valid() && inode.Ok(vol) && inode.iblocks < U32
    ensures Apart(old(inode.tree), inode.tree, old(vol.used), vol.used, old(vol.disk), vol.disk)
    ensures nb != 0 ==> && RunMapped(old(vol.disk), old(inode.tree), vol.disk, inode.tree, vol.blockSize, cur, nb, n)
                        && cur + n - 1 <= last
                        && (Accounted(old(inode.iblocks), old(inode.tree), vol.Spb()) ==>
                              Accounted(inode.iblocks, inode.tree, vol.Spb()))
    ensures nb == 0 ==> Flat(inode.tree) == old(Flat(inode.tree)) && NoRoom(vol, inode.root.depth)
                        && SameData(old(vol.disk), vol.disk, old(inode.tree), vol.blockSize)
  {
    ghost var used0 := vol.used;
    var want := if last - cur + 1 > 2048 then 2048 else last - cur + 1;
    var got;
    nb, got := vol.AllocRun(want);
    n := got;
    if nb == 0 || got == 0 {
      assert vol.AllBut(Range(0, 0));
      return 0, 0;
    }
    RunReady(vol.disk, used0, inode.root, inode.tree, vol.Cap(), cur, last, nb, got);
    var ok := UseRun(vol, inode, cur, nb, got, used0);
    if !ok { nb := 0; }
  }

  // ----- writing ----------------------------------------------------------------------------------------

  lemma SoleBlock(disk: Disk, used: set<nat>, root: Node, t: Tree, cap: nat, b: nat)
    requires TreeOk(disk, used, root, t, cap) && Blk(t, b) != 0
    ensures Sole(t, b) && NodeRefs(t, Blk(t, b)) == 0 && Refs(t, Blk(t, b)) > 0
  {
    DataBlockOf(disk, used, root, t, cap, b);
    MappedIsRef(Flat(t), b);
    forall c: nat | Blk(t, c) == Blk(t, b) ensures c == b {
    }
  }

  lemma HoleAhead(disk0: Disk, t0: Tree, size0: nat, disk: Disk, t: Tree, bs: nat, pos0: nat, data: seq<Byte>, w: nat)
    requires bs > 0 && Filling(disk0, t0, size0, disk, t, bs, pos0, data, w) && w < |data|
             && Blk(t, Div(pos0 + w, bs)) == 0
    ensures Div(pos0, bs) <= Div(pos0 + w, bs) <= Div(pos0 + |data| - 1, bs)
    ensures forall b: nat :: Div(pos0 + w, bs) <= b <= Div(pos0 + |data| - 1, bs) ==> Blk(t, b) == 0
  {
    NextBlock(pos0, w, bs);
    NextBlock(pos0 + w, |data| - 1 - w, bs);
  }

  /** Find or map the block at hand, and fetch what it holds where the chunk does
      not cover it. */
  method FetchBlock(vol: Volume, inode: Inode, data: seq<Byte>, pos: nat, w: nat, chunk: nat,
                    ghost disk0: Disk, ghost t0: Tree, ghost size0: nat) returns (phys: nat, base: seq<Byte>)
    requires vol.Valid() && inode.Ok(vol) && inode.iblocks < U32 && 0 < chunk && w + chunk <= |data|
    requires Div(pos + |data| - 1, vol.blockSize) < U32 - 1 && TailSafe(t0, size0, pos, pos + |data|, vol.blockSize)
    requires Filling(disk0, t0, size0, vol.disk, inode.tree, vol.blockSize, pos, data, w)
    modifies vol, inode`root, inode`iblocks, inode`tree
    ensures vol.Valid() && inode.Ok(vol) && inode.iblocks < U32
    ensures Apart(old(inode.tree), inode.tree, old(vol.used), vol.used, old(vol.disk), vol.disk)
    ensures phys == Blk(inode.tree, Div(pos + w, vol.blockSize))
    ensures phys != 0 ==> && AtBlock(disk0, t0, size0, vol.disk, inode.tree, vol.blockSize, pos, data, w,
                                     Div(pos + w, vol.blockSize), chunk, base)
                          && (Accounted(old(inode.iblocks), old(inode.tree), vol.Spb()) ==>
                                Accounted(inode.iblocks, inode.tree, vol.Spb()))
    ensures phys == 0 ==>
              Filling(disk0, t0, size0, vol.disk, inode.tree, vol.blockSize, pos, data, w)
                && NoRoom(vol, inode.root.depth)
  {
    var bs := vol.blockSize;
    var cur, boff := Div(pos + w, bs), Mod(pos + w, bs);
    phys := Find(vol, inode, cur);
    base := Zeros(bs);
    if phys == 0 {
      HoleAhead(disk0, t0, size0, vol.disk, inode.tree, bs, pos, data, w);
      phys := FreshBlock(vol, inode, data, pos, w, chunk, base, disk0, t0, size0);
    } else {
      SoleBlock(vol.disk, vol.used, inode.root, inode.tree, vol.Cap(), cur);
      if boff != 0 || chunk != bs {
        base := ReadBlock(vol, phys);
      }
      KeptBlock(disk0, t0, size0, vol.disk, inode.tree, bs, pos, data, w, cur, chunk, base);
    }
  }

  method FreshBlock(vol: Volume, inode: Inode, data: seq<Byte>, pos: nat, w: nat, ghost chunk: nat,
                    ghost base: seq<Byte>,
                    ghost disk0: Disk, ghost t0: Tree, ghost size0: nat) returns (phys: nat)
    requires vol.Valid() && inode.Ok(vol) && inode.iblocks < U32 && 0 < chunk && w + chunk <= |data|
    requires Div(pos + |data| - 1, vol.blockSize) < U32 - 1 && TailSafe(t0, size0, pos, pos + |data|, vol.blockSize)
    requires Filling(disk0, t0, size0, vol.disk, inode.tree, vol.blockSize, pos, data, w)
    requires Div(pos, vol.blockSize) <= Div(pos + w, vol.blockSize) <= Div(pos + |data| - 1, vol.blockSize)
    requires forall b: nat :: Div(pos + w, vol.blockSize) <= b <= Div(pos + |data| - 1, vol.blockSize) ==>
               Blk(inode.tree, b) == 0
    requires |base| == vol.blockSize && forall j :: 0 <= j < vol.blockSize ==> base[j] == 0
    modifies vol, inode`root, inode`iblocks, inode`tree
    ensures vol.Valid() && inode.Ok(vol) && inode.iblocks < U32
    ensures Apart(old(inode.tree), inode.tree, old(vol.used), vol.used, old(vol.disk), vol.disk)
    ensures phys == Blk(inode.tree, Div(pos + w, vol.blockSize))
    ensures phys != 0 ==> && AtBlock(disk0, t0, size0, vol.disk, inode.tree, vol.blockSize, pos, data, w,
                                     Div(pos + w, vol.blockSize), chunk, base)
                          && (Accounted(old(inode.iblocks), old(inode.tree), vol.Spb()) ==>
                                Accounted(inode.iblocks, inode.tree, vol.Spb()))
    ensures phys == 0 ==>
              Filling(disk0, t0, size0, vol.disk, inode.tree, vol.blockSize, pos, data, w)
                && NoRoom(vol, inode.root.depth)
  {
    var bs := vol.blockSize;
    var cur, last := Div(pos + w, bs), Div(pos + |data| - 1, bs);
    ghost var n;
    phys, n := MapRun(vol, inode, cur, last);
    if phys == 0 {
      FillingKept(disk0, t0, size0, old(vol.disk), old(inode.tree), vol.disk, inode.tree, bs, pos, data, w);
      assert Blk(inode.tree, cur) == old(Blk(inode.tree, cur));
    } else {
      assert Blk(inode.tree, cur) == phys;
      SoleBlock(vol.disk, vol.used, inode.root, inode.tree, vol.Cap(), cur);
      MappedBlock(disk0, t0, size0, old(vol.disk), old(inode.tree), vol.disk, inode.tree, bs, pos, data, w, cur, phys,
                  n, chunk, base);
    }
  }

  /** Lay the chunk over the block and write it. */
  method StoreChunk(vol: Volume, inode: Inode, phys: nat, base: seq<Byte>, data: seq<Byte>, pos: nat, w: nat,
                    chunk: nat,
                    ghost disk0: Disk, ghost t0: Tree, ghost size0: nat)
    requires vol.Valid() && inode.Ok(vol)
    requires AtBlock(disk0, t0, size0, vol.disk, inode.tree, vol.blockSize, pos, data, w, Div(pos + w, vol.blockSize),
                     chunk, base)
    requires phys == Blk(inode.tree, Div(pos + w, vol.blockSize))
    requires Mod(pos + w, vol.blockSize) + chunk <= vol.blockSize
    requires chunk == vol.blockSize - Mod(pos + w, vol.blockSize) || chunk == |data| - w
    modifies vol`disk
    ensures vol.Valid() && inode.Ok(vol)
    ensures Filling(disk0, t0, size0, vol.disk, inode.tree, vol.blockSize, pos, data, w + chunk)
    ensures Apart(inode.tree, inode.tree, vol.used, vol.used, old(vol.disk), vol.disk)
  {
    var bs := vol.blockSize;
    var boff := Mod(pos + w, bs);
    ghost var cur := Div(pos + w, bs);
    var buf := base[..boff] + data[w..w + chunk] + base[boff + chunk..];
    assert Patched(buf, base, data, w, boff, chunk);
    SoleBlock(vol.disk, vol.used, inode.root, inode.tree, vol.Cap(), cur);
    DataWriteKeeps(vol.disk, vol.used, inode.root, inode.tree, vol.Cap(), phys, DataBlock(buf));
    vol.WriteData(phys, buf);
    FillStep(disk0, t0, size0, old(vol.disk), inode.tree, bs, pos, data, w, cur, chunk, base, buf, vol.disk);
  }

  lemma ApartAfter(t0: Tree, t1: Tree, t2: Tree, used0: set<nat>, used1: set<nat>, used2: set<nat>,
                   disk0: Disk, disk1: Disk, disk2: Disk)
    requires Apart(t0, t1, used0, used1, disk0, disk1) && Apart(t1, t2, used1, used2, disk1, disk2)
    ensures Apart(t0, t2, used0, used2, disk0, disk2)
  {
  }

  /** One chunk, inside one block. */
  method WriteBlock(vol: Volume, inode: Inode, data: seq<Byte>, pos: nat, w: nat, chunk: nat,
                    ghost disk0: Disk, ghost t0: Tree, ghost size0: nat) returns (ok: bool)
    requires vol.Valid() && inode.Ok(vol) && inode.iblocks < U32 && 0 < chunk && w + chunk <= |data|
    requires Div(pos + |data| - 1, vol.blockSize) < U32 - 1 && TailSafe(t0, size0, pos, pos + |data|, vol.blockSize)
    requires Filling(disk0, t0, size0, vol.disk, inode.tree, vol.blockSize, pos, data, w)
    requires Mod(pos + w, vol.blockSize) + chunk <= vol.blockSize
    requires chunk == vol.blockSize - Mod(pos + w, vol.blockSize) || chunk == |data| - w
    modifies vol, inode`root, inode`iblocks, inode`tree
    ensures vol.Valid() && inode.Ok(vol) && inode.iblocks < U32
    ensures Filling(disk0, t0, size0, vol.disk, inode.tree, vol.blockSize, pos, data, if ok then w + chunk else w)
    ensures !ok ==> Blk(inode.tree, Div(pos + w, vol.blockSize)) == 0 && NoRoom(vol, inode.root.depth)
    ensures Apart(old(inode.tree), inode.tree, old(vol.used), vol.used, old(vol.disk), vol.disk)
    ensures ok && Accounted(old(inode.iblocks), old(inode.tree), vol.Spb()) ==>
              Accounted(inode.iblocks, inode.tree, vol.Spb())
  {
    var phys, base := FetchBlock(vol, inode, data, pos, w, chunk, disk0, t0, size0);
    ok := phys != 0;
    if ok {
      ghost var disk1 := vol.disk;
      StoreChunk(vol, inode, phys, base, data, pos, w, chunk, disk0, t0, size0);
      ApartAfter(old(inode.tree), inode.tree, inode.tree, old(vol.used), vol.used, vol.used, old(vol.disk), disk1,
                 vol.disk);
    }
  }

  /** The state of a write that has written `w` bytes. */
  ghost predicate Writing(vol: Volume, inode: Inode, disk0: Disk, t0: Tree, size0: nat, used0: set<nat>, ib0: nat,
                          pos: nat, data: seq<Byte>, w: nat)
    reads vol, inode
  {
    && vol.Valid() && inode.Ok(vol) && inode.iblocks < U32
    && Filling(disk0, t0, size0, vol.disk, inode.tree, vol.blockSize, pos, data, w)
    && Apart(t0, inode.tree, used0, vol.used, disk0, vol.disk)
    && (Accounted(ib0, t0, vol.Spb()) ==> Accounted(inode.iblocks, inode.tree, vol.Spb()))
  }

  /** The next chunk: the rest of the block at hand, or of the data. */
  method WriteNext(vol: Volume, inode: Inode, pos: nat, data: seq<Byte>, w: nat,
                   ghost disk0: Disk, ghost t0: Tree, ghost size0: nat, ghost used0: set<nat>, ghost ib0: nat)
                     returns (w': nat)
    requires vol.blockSize > 0 && Writing(vol, inode, disk0, t0, size0, used0, ib0, pos, data, w) && w < |data|
    requires Div(pos + |data| - 1, vol.blockSize) < U32 - 1 && TailSafe(t0, size0, pos, pos + |data|, vol.blockSize)
    modifies vol, inode`root, inode`iblocks, inode`tree
    ensures w <= w' <= |data| && vol.Valid() && inode.Ok(vol) && inode.iblocks < U32
    ensures Filling(disk0, t0, size0, vol.disk, inode.tree, vol.blockSize, pos, data, w')
    ensures Apart(t0, inode.tree, used0, vol.used, disk0, vol.disk)
    ensures w' > w ==> Writing(vol, inode, disk0, t0, size0, used0, ib0, pos, data, w')
    ensures w' == w ==> Blk(inode.tree, Div(pos + w, vol.blockSize)) == 0 && NoRoom(vol, inode.root.depth)
  {
    var bs := vol.blockSize;
    var boff := Mod(pos + w, bs);
    var chunk := if |data| - w > bs - boff then bs - boff else |data| - w;
    ghost var t1, used1, disk1 := inode.tree, vol.used, vol.disk;
    var ok := WriteBlock(vol, inode, data, pos, w, chunk, disk0, t0, size0);
    ApartAfter(t0, t1, inode.tree, used0, used1, vol.used, disk0, disk1, vol.disk);
    w' := if ok then w + chunk else w;
  }

  /** The loop over the blocks: it stops at the end of `data`, or at a block it
      cannot map. */
  method WriteBlocks(vol: Volume, inode: Inode, pos: nat, data: seq<Byte>) returns (w: nat)
    requires vol.Valid() && inode.Ok(vol) && inode.iblocks < U32 && DataOk(vol.disk, inode.tree, vol.blockSize)
    requires Fillable(inode.tree, inode.size, pos, |data|, vol.blockSize) && |data| > 0
    requires Div(pos + |data| - 1, vol.blockSize) < U32 - 1
    modifies vol, inode`root, inode`iblocks, inode`tree
    ensures w <= |data| && vol.Valid() && inode.Ok(vol) && inode.iblocks < U32
    ensures Filling(old(vol.disk), old(inode.tree), inode.size, vol.disk, inode.tree, vol.blockSize, pos, data, w)
    ensures w == |data| || (Blk(inode.tree, Div(pos + w, vol.blockSize)) == 0 && NoRoom(vol, inode.root.depth))
    ensures Apart(old(inode.tree), inode.tree, old(vol.used), vol.used, old(vol.disk), vol.disk)
    ensures w == |data| && Accounted(old(inode.iblocks), old(inode.tree), vol.Spb()) ==>
              Accounted(inode.iblocks, inode.tree, vol.Spb())
  {
    ghost var disk0, t0, size0, used0, ib0 := vol.disk, inode.tree, inode.size, vol.used, inode.iblocks;
    w := 0;
    FillStart(disk0, t0, size0, vol.blockSize, pos, data);
    while w < |data|
      invariant w <= |data| && Writing(vol, inode, disk0, t0, size0, used0, ib0, pos, data, w)
      decreases |data| - w
    {
      var w1 := WriteNext(vol, inode, pos, data, w, disk0, t0, size0, used0, ib0);
      if w1 == w { break; }
      w := w1;
    }
  }

  /** Write `data` at `pos`. What is written is a prefix of it, the whole of it
      unless the volume or the tree is full; the file is then the old one with that
      prefix laid over it, and nothing outside the file changed. */
  method FileWrite(vol: Volume, inode: Inode, pos: nat, data: seq<Byte>) returns (rc: int)
    requires vol.Valid() && inode.Ok(vol) && inode.iblocks < U32 && DataOk(vol.disk, inode.tree, vol.blockSize)
    requires Fillable(inode.tree, inode.size, pos, |data|, vol.blockSize)
    requires |data| > 0 ==> Div(pos + |data| - 1, vol.blockSize) < U32 - 1
    modifies vol, inode
    ensures vol.Valid() && inode.Ok(vol) && inode.iblocks < U32 && DataOk(vol.disk, inode.tree, vol.blockSize)
    ensures rc == -1 || 0 < rc <= |data|
    ensures rc < |data| && |data| > 0 ==> NoRoom(vol, inode.root.depth)
    ensures forall i: nat :: i < inode.size ==>
              Raw(vol.disk, inode.tree, vol.blockSize, i) ==
              Overlay(old(vol.disk), old(inode.tree), vol.blockSize, pos, if rc > 0 then data[..rc] else [], i)
    ensures MapsAlso(old(inode.tree), inode.tree, pos, if rc > 0 then rc else 0, vol.blockSize)
    ensures inode.size == if rc > 0 then Max(old(inode.size), pos + rc) else old(inode.size)
    ensures Apart(old(inode.tree), inode.tree, old(vol.used), vol.used, old(vol.disk), vol.disk)
    ensures rc == |data| && Accounted(old(inode.iblocks), old(inode.tree), vol.Spb()) ==>
              Accounted(inode.iblocks, inode.tree, vol.Spb())
  {
    if |data| == 0 {
      assert MapsAlso(inode.tree, inode.tree, pos, 0, vol.blockSize);
      return -1;
    }
    ghost var disk0, t0, size0 := vol.disk, inode.tree, inode.size;
    var w := WriteBlocks(vol, inode, pos, data);
    FillEnd(disk0, t0, size0, vol.disk, inode.tree, vol.blockSize, pos, data, w);
    StoppedBlocks(disk0, t0, size0, vol.disk, inode.tree, vol.blockSize, pos, data, w);
    if w == 0 { return -1; }
    inode.size := Max(inode.size, pos + w);
    rc := w;
  }

  /** What was written is read back. */
  method WriteThenRead(vol: Volume, inode: Inode, pos: nat, data: seq<Byte>) returns (rc: int, r: seq<Byte>)
    requires vol.Valid() && inode.Ok(vol) && inode.iblocks < U32 && DataOk(vol.disk, inode.tree, vol.blockSize)
    requires Fillable(inode.tree, inode.size, pos, |data|, vol.blockSize)
    requires (|data| > 0 ==> Div(pos + |data| - 1, vol.blockSize) < U32 - 1) && inode.size <= U32 * vol.blockSize
    modifies vol, inode
    ensures rc > 0 ==> rc <= |data| && r == data[..rc]
    ensures rc < |data| && |data| > 0 ==> NoRoom(vol, inode.root.depth)
  {
    rc := FileWrite(vol, inode, pos, data);
    r := [];
    if rc > 0 {
      BlockIn32(pos + |data| - 1, vol.blockSize);
      r := FileRead(vol, inode, pos, rc);
    }
  }

  // ----- truncating -------------------------------------------------------------------------------------

  /** The block count the driver computes: a 32-bit number. */
  function NewBlocks(length: nat, bs: nat): nat
    requires bs > 0
  { Wrap(Ceil(length, bs)) }

  lemma TruncatedData(disk0: Disk, disk: Disk, used0: set<nat>, root: Node, t0: Tree, t: Tree, cap: nat, from: nat,
                      bs: nat)
    requires bs > 0 && TreeOk(disk0, used0, root, t0, cap) && Restricts(t0, t, from) && TouchesOnly(disk0, disk, t0, {})
    requires DataOk(disk0, t0, bs)
    ensures DataOk(disk, t, bs)
    ensures forall i: nat :: Raw(disk, t, bs, i) == if Div(i, bs) < from then Raw(disk0, t0, bs, i) else 0
  {
    forall b: nat | Blk(t0, b) != 0 ensures Blk(t0, b) in disk && disk[Blk(t0, b)] == disk0[Blk(t0, b)] {
      DataBlockOf(disk0, used0, root, t0, cap, b);
    }
    forall b: nat ensures Blk(t, b) == if b < from then Blk(t0, b) else 0 {
    }
    forall i: nat ensures Raw(disk, t, bs, i) == if Div(i, bs) < from then Raw(disk0, t0, bs, i) else 0 {
      assert Blk(t, Div(i, bs)) == if Div(i, bs) < from then Blk(t0, Div(i, bs)) else 0;
    }
  }

  lemma BelowCeil(length: nat, bs: nat, i: nat)
    requires bs > 0 && i < length
    ensures Div(i, bs) < Ceil(length, bs)
  {
    CeilOf(length, bs);
    BlockOf(i, Div(i, bs), bs);
  }

  /** Set the length: blocks from the new end on are released, every byte before
      it stays. Bytes past the old end come back as their blocks hold them. */
  method FileTruncate(vol: Volume, inode: Inode, length: nat)
    requires vol.Valid() && inode.Ok(vol) && inode.iblocks < U32 && DataOk(vol.disk, inode.tree, vol.blockSize)
    modifies vol, inode
    ensures vol.Valid() && inode.Ok(vol) && inode.iblocks < U32 && DataOk(vol.disk, inode.tree, vol.blockSize)
    ensures inode.size == length && Restricts(old(inode.tree), inode.tree, NewBlocks(length, vol.blockSize))
    ensures Ceil(length, vol.blockSize) < U32 ==>
              forall i: nat :: i < length ==> Raw(vol.disk, inode.tree, vol.blockSize, i) ==
                                              old(Raw(vol.disk, inode.tree, vol.blockSize, i))
    ensures Released(old(vol.used), vol.used, old(inode.tree), inode.tree)
    ensures inode.iblocks == Less(old(inode.iblocks), BlockCount(old(inode.tree)) - BlockCount(inode.tree), vol.Spb())
    ensures Accounted(old(inode.iblocks), old(inode.tree), vol.Spb()) ==>
              Accounted(inode.iblocks, inode.tree, vol.Spb())
  {
    var bs := vol.blockSize;
    var from := NewBlocks(length, bs);
    ghost var disk0, used0, root, t0 := vol.disk, vol.used, inode.root, inode.tree;
    FreeBlocksFrom(vol, inode, from);
    inode.size := length;
    Shortened(disk0, vol.disk, used0, root, t0, inode.tree, vol.Cap(), length, bs);
    if Accounted(old(inode.iblocks), t0, vol.Spb()) {
      LessAccounts(old(inode.iblocks), t0, inode.tree, vol.Spb());
    }
  }

  /** The sectors of the blocks given back are no longer counted. */
  lemma LessAccounts(ib: nat, t0: Tree, t: Tree, spb: nat)
    requires Accounted(ib, t0, spb)
    ensures Accounted(Less(ib, BlockCount(t0) - BlockCount(t), spb), t, spb)
  {
    LessIs(ib, BlockCount(t0), BlockCount(t), spb);
  }

  lemma LessIs(ib: nat, n: nat, m: nat, spb: nat)
    requires ib == Wrap(n * spb)
    ensures Less(ib, n - m, spb) == Wrap(m * spb)
  {
    var a, b, c := n * spb, m * spb, (n - m) * spb;
    assert c == a - b by {
      TimesMinus(n, m, spb);
    }
    WrapAdd(a, -c);
  }

  lemma TimesMinus(n: int, m: int, k: int)
    ensures (n - m) * k == n * k - m * k
  {
  }

  lemma Shortened(disk0: Disk, disk: Disk, used0: set<nat>, root: Node, t0: Tree, t: Tree, cap: nat, length: nat,
                  bs: nat)
    requires bs > 0 && TreeOk(disk0, used0, root, t0, cap) && Restricts(t0, t, NewBlocks(length, bs))
    requires TouchesOnly(disk0, disk, t0, {}) && DataOk(disk0, t0, bs)
    ensures DataOk(disk, t, bs)
    ensures Ceil(length, bs) < U32 ==> forall i: nat :: i < length ==> Raw(disk, t, bs, i) == Raw(disk0, t0, bs, i)
  {
    TruncatedData(disk0, disk, used0, root, t0, t, cap, NewBlocks(length, bs), bs);
    if Ceil(length, bs) < U32 {
      forall i: nat | i < length ensures Raw(disk, t, bs, i) == Raw(disk0, t0, bs, i) {
        BelowCeil(length, bs, i);
      }
    }
  }
}
