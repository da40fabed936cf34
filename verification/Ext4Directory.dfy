/** A directory file: blocks of records behind an inode, and the names it maps to inodes. */
module Ext4Directory {
  import opened RawBytes
  import opened Division
  import opened Ext4Extents
  import opened Ext4Tree
  import opened Ext4Volume
  import opened Ext4ExtentOps
  import opened Ext4Insert
  import opened Ext4Map
  import opened Ext4Append
  import opened Ext4File
  import opened Ext4Write
  import opened Ext4DirBlock
  import opened Ext4Dir

  // ----- lists of blocks ------------------------------------------------------------------------------------

  ghost predicate AllTiled(blocks: seq<seq<Byte>>) {
    forall i: nat :: i < |blocks| ==> |blocks[i]| < 0x1_0000 && Tiled(blocks[i], 0, |blocks[i]|)
  }

  /** All names, block by block. */
  ghost function AllNames(blocks: seq<seq<Byte>>): seq<Entry>
    requires AllTiled(blocks)
  { if blocks == [] then [] else Names(blocks[0]) + AllNames(blocks[1..]) }

  lemma {:induction false} NamesConcat(a: seq<seq<Byte>>, b: seq<seq<Byte>>)
    requires AllTiled(a) && AllTiled(b)
    ensures AllTiled(a + b) && AllNames(a + b) == AllNames(a) + AllNames(b)
  {
    if a == [] {
      assert a + b == b;
    } else {
      NamesConcat(a[1..], b);
      assert (a + b)[1..] == a[1..] + b && (a + b)[0] == a[0];
      Joined(Names(a[0]), AllNames(a[1..]), AllNames(b));
    }
  }

  /** The names around those of block i. */
  lemma NamesAround(blocks: seq<seq<Byte>>, i: nat)
    requires AllTiled(blocks) && i < |blocks|
    ensures AllNames(blocks) == AllNames(blocks[..i]) + Names(blocks[i]) + AllNames(blocks[i + 1..])
  {
    assert blocks == blocks[..i] + blocks[i..];
    NamesConcat(blocks[..i], blocks[i..]);
    assert blocks[i..][1..] == blocks[i + 1..];
  }

  lemma NamesReplaced(blocks: seq<seq<Byte>>, i: nat, b: seq<Byte>)
    requires AllTiled(blocks) && i < |blocks| && |b| < 0x1_0000 && Tiled(b, 0, |b|)
    ensures AllTiled(blocks[i := b])
    ensures AllNames(blocks[i := b]) == AllNames(blocks[..i]) + Names(b) + AllNames(blocks[i + 1..])
  {
    var blocks' := blocks[i := b];
    NamesAround(blocks', i);
    assert blocks'[..i] == blocks[..i] && blocks'[i + 1..] == blocks[i + 1..];
  }

  /** One more block at the end. */
  lemma NamesSnoc(blocks: seq<seq<Byte>>, b: seq<Byte>)
    requires AllTiled(blocks) && |b| < 0x1_0000 && Tiled(b, 0, |b|)
    ensures AllTiled(blocks + [b]) && AllNames(blocks + [b]) == AllNames(blocks) + Names(b)
  {
    var one: seq<seq<Byte>> := [b];
    assert |one[1..]| == 0;
    NamesConcat(blocks, one);
  }

  lemma InsertInside(x: seq<Entry>, y: seq<Entry>, z: seq<Entry>, k: nat, e: Entry)
    requires k <= |y|
    ensures InsertAt(x + y + z, |x| + k, e) == x + InsertAt(y, k, e) + z
  {
    assert (x + y + z)[..|x| + k] == x + y[..k] && (x + y + z)[|x| + k..] == y[k..] + z;
  }

  lemma RemoveInside(x: seq<Entry>, y: seq<Entry>, z: seq<Entry>, k: nat)
    requires k < |y|
    ensures RemoveAt(x + y + z, |x| + k) == x + RemoveAt(y, k) + z && (x + y + z)[|x| + k] == y[k]
    ensures (x + y + z)[..|x| + k] == x + y[..k]
  {
    assert (x + y + z)[|x| + k + 1..] == y[k + 1..] + z;
  }

  /** The names are those of before and one more. */
  ghost predicate Gained(a: seq<Entry>, b: seq<Entry>, e: Entry) { exists k: nat :: k <= |a| && b == InsertAt(a, k, e) }

  /** The names are those of before but the first of that name. */
  ghost predicate Lost(a: seq<Entry>, b: seq<Entry>, name: seq<Byte>, ino: nat) {
    exists k: nat :: FirstMatch(a, k, name, ino) && b == RemoveAt(a, k)
  }

  lemma BlockGained(blocks: seq<seq<Byte>>, i: nat, b: seq<Byte>, at: nat, e: Entry)
    requires AllTiled(blocks) && i < |blocks| && |b| < 0x1_0000 && Tiled(b, 0, |b|)
    requires at <= |Names(blocks[i])| && Names(b) == InsertAt(Names(blocks[i]), at, e)
    ensures AllTiled(blocks[i := b]) && Gained(AllNames(blocks), AllNames(blocks[i := b]), e)
  {
    NamesAround(blocks, i);
    NamesReplaced(blocks, i, b);
    var x := AllNames(blocks[..i]);
    InsertInside(x, Names(blocks[i]), AllNames(blocks[i + 1..]), at, e);
    assert AllNames(blocks[i := b]) == InsertAt(AllNames(blocks), |x| + at, e);
  }

  lemma BlockLost(blocks: seq<seq<Byte>>, i: nat, b: seq<Byte>, at: nat, name: seq<Byte>, ino: nat)
    requires AllTiled(blocks) && i < |blocks| && |b| < 0x1_0000 && Tiled(b, 0, |b|)
             && Absent(AllNames(blocks[..i]), name)
    requires FirstMatch(Names(blocks[i]), at, name, ino) && Names(b) == RemoveAt(Names(blocks[i]), at)
    ensures AllTiled(blocks[i := b]) && Lost(AllNames(blocks), AllNames(blocks[i := b]), name, ino)
  {
    NamesAround(blocks, i);
    NamesReplaced(blocks, i, b);
    var x := AllNames(blocks[..i]);
    RemoveInside(x, Names(blocks[i]), AllNames(blocks[i + 1..]), at);
    AbsentConcat(x, Names(blocks[i])[..at], name);
    assert FirstMatch(AllNames(blocks), |x| + at, name, ino);
  }

  lemma AbsentConcat(a: seq<Entry>, b: seq<Entry>, name: seq<Byte>)
    requires Absent(a, name) && Absent(b, name)
    ensures Absent(a + b, name)
  { }

  lemma Located(x: seq<Entry>, y: seq<Entry>, z: seq<Entry>, name: seq<Byte>)
    requires Absent(x, name)
    ensures Lookup(y, name) != 0 ==> Lookup(x + y + z, name) == Lookup(y, name)
  {
    LookupConcat(x + y, z, name);
    LookupConcat(x, y, name);
    if Absent(x + y, name) {
      LookupAbsent(x + y, name);
    }
  }

  ghost predicate Numbered(es: seq<Entry>) { forall i: nat :: i < |es| ==> es[i].ino != 0 }

  lemma {:induction false} TilesNumbered(b: seq<Byte>, o: nat, end: nat)
    requires Tiled(b, o, end)
    ensures Numbered(Ext4DirBlock.Entries(b, o, end))
    decreases end - o
  {
    if o < end {
      TilesNumbered(b, o + RecLen(b, o), end);
    }
  }

  /** A lookup that gives 0 finds no entry. */
  lemma {:induction false} LookupZero(es: seq<Entry>, name: seq<Byte>)
    requires Numbered(es) && Lookup(es, name) == 0
    ensures Absent(es, name)
  {
    if es != [] {
      LookupZero(es[1..], name);
      assert forall i: nat :: 0 < i < |es| ==> es[i] == es[1..][i - 1];
    }
  }

  // ----- the blocks of a directory ---------------------------------------------------------------------------

  /** The bytes of logical block i; none in a hole, which every operation passes over. */
  ghost function DirBlock(disk: Disk, t: Tree, bs: nat, i: nat): seq<Byte> {
    if Blk(t, i) != 0 && IsData(disk, Blk(t, i), bs) then disk[Blk(t, i)].bytes else []
  }

  ghost function DirBlocks(disk: Disk, t: Tree, bs: nat, n: nat): (r: seq<seq<Byte>>)
    ensures |r| == n && forall i: nat :: i < n ==> r[i] == DirBlock(disk, t, bs, i)
  {
    seq(n, i requires 0 <= i < n => DirBlock(disk, t, bs, i))
  }

  /** A directory's tree and size: whole blocks, nothing mapped behind them, every block tiled by records. */
  ghost predicate DirBytes(disk: Disk, t: Tree, bs: nat, size: nat) {
    && bs > 0 && DataOk(disk, t, bs) && Mod(size, bs) == 0 && (forall b: nat :: b >= Div(size, bs) ==> Blk(t, b) == 0)
    && AllTiled(DirBlocks(disk, t, bs, Div(size, bs)))
  }

  ghost predicate DirOk(vol: Volume, inode: Inode)
    reads vol, inode
  {
    && vol.Valid() && inode.Ok(vol) && inode.iblocks < U32 && Aligned(vol.blockSize) && vol.blockSize < 0x1_0000
    && DirBytes(vol.disk, inode.tree, vol.blockSize, inode.size)
  }

  /** The names of the directory. */
  ghost function Live(disk: Disk, t: Tree, bs: nat, size: nat): seq<Entry>
    requires DirBytes(disk, t, bs, size)
  { AllNames(DirBlocks(disk, t, bs, Div(size, bs))) }

  /** Writing block i changes block i. */
  lemma BlockWritten(disk: Disk, t: Tree, bs: nat, n: nat, i: nat, b: seq<Byte>)
    requires Sole(t, i) && i < n && |b| == bs
    ensures DirBlocks(disk[Blk(t, i) := DataBlock(b)], t, bs, n) == DirBlocks(disk, t, bs, n)[i := b]
  {
    var disk', p := disk[Blk(t, i) := DataBlock(b)], Blk(t, i);
    forall j: nat | j < n ensures DirBlock(disk', t, bs, j) == if j == i then b else DirBlock(disk, t, bs, j) {
      assert j != i ==> Blk(t, j) != p;
    }
  }

  /** Mapping and writing one block behind the last. */
  lemma BlockAdded(disk0: Disk, t0: Tree, disk: Disk, t: Tree, bs: nat, n: nat, nb: nat, b: seq<Byte>)
    requires RunMapped(disk0, t0, disk, t, bs, n, nb, 1) && Sole(t, n) && |b| == bs && DataOk(disk0, t0, bs)
    requires forall c: nat :: c >= n ==> Blk(t0, c) == 0
    ensures DirBlocks(disk[nb := DataBlock(b)], t, bs, n + 1) == DirBlocks(disk0, t0, bs, n) + [b]
    ensures DataOk(disk[nb := DataBlock(b)], t, bs) && forall c: nat :: c >= n + 1 ==> Blk(t, c) == 0
  {
    assert Blk(t, n) == nb;
    forall j: nat | j < n ensures DirBlock(disk[nb := DataBlock(b)], t, bs, j) == DirBlock(disk0, t0, bs, j) {
      assert Blk(t, j) == Blk(t0, j) && Blk(t, j) != nb;
    }
    forall c: nat | Blk(t, c) != 0 ensures IsData(disk[nb := DataBlock(b)], Blk(t, c), bs) {
      if c != n {
        assert Blk(t, c) == Blk(t0, c) && Blk(t, c) != nb;
      }
    }
  }

  /** Nothing of the directory changes when only its tree is rebuilt. */
  lemma DirSame(disk0: Disk, t0: Tree, disk: Disk, t: Tree, bs: nat, size: nat)
    requires DirBytes(disk0, t0, bs, size) && Flat(t) == Flat(t0) && SameData(disk0, disk, t0, bs)
    ensures DirBytes(disk, t, bs, size) && Live(disk, t, bs, size) == Live(disk0, t0, bs, size)
  {
    var n := Div(size, bs);
    assert forall b: nat :: Blk(t, b) == Blk(t0, b);
    forall j: nat | j < n ensures DirBlock(disk, t, bs, j) == DirBlock(disk0, t0, bs, j) {
      assert Blk(t, j) == Blk(t0, j);
    }
    assert DirBlocks(disk, t, bs, n) == DirBlocks(disk0, t0, bs, n);
  }

  // ----- ext4_dir_find ------------------------------------------------------------------------------------------

  method DirFind(vol: Volume, inode: Inode, name: seq<Byte>) returns (ino: nat)
    requires DirOk(vol, inode)
    ensures ino == Lookup(Live(vol.disk, inode.tree, vol.blockSize, inode.size), name)
  {
    var bs := vol.blockSize;
    var n := Div(inode.size, bs);
    ghost var blocks := DirBlocks(vol.disk, inode.tree, bs, n);
    ino := 0;
    for lblk := 0 to n
      invariant ino == 0 && Absent(AllNames(blocks[..lblk]), name)
    {
      var phys := Find(vol, inode, lblk);
      if phys != 0 {
        var blk := ReadBlock(vol, phys);
        assert Blk(inode.tree, lblk) == phys && blocks[lblk] == blk;
        ino := FindIn(blk, name);
      }
      FoundIn(blocks, lblk, name, ino);
      if ino != 0 {
        return;
      }
    }
    assert blocks[..n] == blocks;
    LookupAbsent(AllNames(blocks), name);
  }

  lemma FoundIn(blocks: seq<seq<Byte>>, i: nat, name: seq<Byte>, ino: nat)
    requires AllTiled(blocks) && i < |blocks| && Absent(AllNames(blocks[..i]), name)
             && ino == Lookup(Names(blocks[i]), name)
    ensures ino != 0 ==> Lookup(AllNames(blocks), name) == ino
    ensures ino == 0 ==> Absent(AllNames(blocks[..i + 1]), name)
  {
    NamesAround(blocks, i);
    Located(AllNames(blocks[..i]), Names(blocks[i]), AllNames(blocks[i + 1..]), name);
    if ino == 0 {
      NoneIn(blocks[i], name);
      StillAbsent(blocks, i, name);
    }
  }

  lemma NoneIn(b: seq<Byte>, name: seq<Byte>)
    requires Tiled(b, 0, |b|) && Lookup(Names(b), name) == 0
    ensures Absent(Names(b), name)
  {
    TilesNumbered(b, 0, |b|);
    LookupZero(Names(b), name);
  }

  lemma StillAbsent(blocks: seq<seq<Byte>>, i: nat, name: seq<Byte>)
    requires AllTiled(blocks) && i < |blocks| && Absent(AllNames(blocks[..i]), name) && Absent(Names(blocks[i]), name)
    ensures Absent(AllNames(blocks[..i + 1]), name)
  {
    AbsentConcat(AllNames(blocks[..i]), Names(blocks[i]), name);
    assert blocks[..i + 1] == blocks[..i] + [blocks[i]];
    NamesSnoc(blocks[..i], blocks[i]);
  }

  // ----- writing a block in place ------------------------------------------------------------------------------

  /** A block of the directory is read into a buffer. */
  method Buffer(b: seq<Byte>) returns (blk: array<Byte>)
    ensures fresh(blk) && blk[..] == b
  {
    blk := new Byte[|b|](j requires 0 <= j < |b| => b[j]);
  }

  /** Block i of the directory is rewritten; nothing outside the directory changes. */
  method WriteBack(vol: Volume, inode: Inode, i: nat, phys: nat, b: seq<Byte>)
    requires DirOk(vol, inode) && phys == Blk(inode.tree, i) != 0 && |b| == vol.blockSize
             && i < Div(inode.size, vol.blockSize)
    requires Tiled(b, 0, |b|)
    modifies vol`disk
    ensures DirOk(vol, inode) && Apart(inode.tree, inode.tree, vol.used, vol.used, old(vol.disk), vol.disk)
    ensures var n := Div(inode.size, vol.blockSize);
            DirBlocks(vol.disk, inode.tree, vol.blockSize,
                      n) == old(DirBlocks(vol.disk, inode.tree, vol.blockSize, n))[i := b]
  {
    SoleBlock(vol.disk, vol.used, inode.root, inode.tree, vol.Cap(), i);
    DataWriteKeeps(vol.disk, vol.used, inode.root, inode.tree, vol.Cap(), phys, DataBlock(b));
    BlockWritten(vol.disk, inode.tree, vol.blockSize, Div(inode.size, vol.blockSize), i, b);
    vol.WriteData(phys, b);
  }

  // ----- one more block behind the last -------------------------------------------------------------------------

  /** A block that is not in use may be overwritten. */
  lemma ZeroedOk(disk: Disk, used: set<nat>, root: Node, t: Tree, cap: nat, nb: nat, z: Block)
    requires TreeOk(disk, used, root, t, cap) && nb !in used
    ensures TreeOk(disk[nb := z], used, root, t, cap) && Refs(t, nb) == 0
  {
    DataWriteKeeps(disk, used, root, t, cap, nb, z);
  }

  lemma MappedBehind(t: Tree, n: nat, d: nat, cap: nat)
    requires WellFormed(t, d, cap) && forall b: nat :: b >= n ==> Blk(t, b) == 0
    ensures EndOf(Flat(t)) <= n
  {
    var s := Flat(t);
    if s != [] {
      var e := s[|s| - 1];
      MappedAt(s, |s| - 1, e.End() - 1);
      assert Blk(t, e.End() - 1) != 0;
    }
  }

  /** Blocks that were in use are as they were. */
  lemma ApartFrom(t0: Tree, t: Tree, used0: set<nat>, used: set<nat>, disk0: Disk, disk1: Disk, disk: Disk, nb: nat,
                  z: Block)
    requires disk1 == disk0[nb := z] && nb !in used0 && Apart(t0, t, used0, used, disk1, disk)
    ensures Apart(t0, t, used0, used, disk0, disk)
  {
    forall b | b in used0 && Refs(t0, b) == 0 && b in disk0 ensures b in disk && disk[b] == disk0[b] {
      assert disk1[b] == disk0[b];
    }
  }

  lemma SameFrom(disk0: Disk, used: set<nat>, root: Node, t: Tree, cap: nat, bs: nat, disk1: Disk, disk: Disk, nb: nat,
                 z: Block)
    requires TreeOk(disk0, used, root, t, cap) && disk1 == disk0[nb := z] && nb !in used && SameData(disk1, disk, t, bs)
    ensures SameData(disk0, disk, t, bs)
  {
    forall b: nat | Blk(t, b) != 0 ensures Blk(t, b) != nb {
      DataBlockOf(disk0, used, root, t, cap, b);
    }
  }

  /** Allocate a block and map it behind the last; 0 when no block is free or the
      tree cannot take it, the block being free again. */
  method AppendBlock(vol: Volume, inode: Inode, n: nat) returns (nb: nat)
    requires vol.Valid() && inode.Ok(vol) && inode.iblocks < U32 && n < U32 - 1
    requires forall b: nat :: b >= n ==> Blk(inode.tree, b) == 0
    modifies vol, inode`root, inode`iblocks, inode`tree
    ensures vol.Valid() && inode.Ok(vol) && inode.iblocks < U32
    ensures Apart(old(inode.tree), inode.tree, old(vol.used), vol.used, old(vol.disk), vol.disk)
    ensures nb != 0 ==> && RunMapped(old(vol.disk), old(inode.tree), vol.disk, inode.tree, vol.blockSize, n, nb, 1)
                        && (Accounted(old(inode.iblocks), old(inode.tree), vol.Spb()) ==>
                              Accounted(inode.iblocks, inode.tree, vol.Spb()))
    ensures nb == 0 ==> Flat(inode.tree) == old(Flat(inode.tree)) && NoRoom(vol, inode.root.depth)
                        && SameData(old(vol.disk), vol.disk, old(inode.tree), vol.blockSize)
  {
    ghost var used0, disk0, t0, root0 := vol.used, vol.disk, inode.tree, inode.root;
    nb := vol.AllocBlock();
    if nb == 0 {
      assert vol.AllBut(Range(0, 0));
      return;
    }
    ghost var disk1, z := vol.disk, vol.disk[nb];
    assert Range(nb, 1) == {nb};
    ZeroedOk(disk0, used0, root0, t0, vol.Cap(), nb, z);
    RunReady(disk1, used0, root0, t0, vol.Cap(), n, n, nb, 1);
    MappedBehind(t0, n, root0.depth, vol.Cap());
    var ok := AppendOne(vol, inode, n, nb, used0);
    ApartFrom(t0, inode.tree, used0, vol.used, disk0, disk1, vol.disk, nb, z);
    SameFrom(disk0, used0, root0, t0, vol.Cap(), vol.blockSize, disk1, vol.disk, nb, z);
    if !ok { nb := 0; }
  }

  /** Append the block just allocated, or free it again. */
  method AppendOne(vol: Volume, inode: Inode, n: nat, nb: nat, ghost used0: set<nat>) returns (ok: bool)
    requires vol.Valid() && inode.Ok(vol) && inode.iblocks < U32 && RunOk(n, nb, 1) && EndOf(Flat(inode.tree)) <= n
    requires nb > 0 && RunFree(inode.tree, vol.used, nb, 1) && vol.used == used0 + Range(nb, 1) && Range(nb, 1) !! used0
    modifies vol, inode`root, inode`iblocks, inode`tree
    ensures vol.Valid() && inode.Ok(vol) && inode.iblocks < U32
    ensures Apart(old(inode.tree), inode.tree, used0, vol.used, old(vol.disk), vol.disk)
    ensures SameData(old(vol.disk), vol.disk, old(inode.tree), vol.blockSize)
    ensures ok ==> && RunMapped(old(vol.disk), old(inode.tree), vol.disk, inode.tree, vol.blockSize, n, nb, 1)
                   && (Accounted(old(inode.iblocks), old(inode.tree), vol.Spb()) ==>
                         Accounted(inode.iblocks, inode.tree, vol.Spb()))
    ensures !ok ==> Flat(inode.tree) == old(Flat(inode.tree)) && NoRoom(vol, inode.root.depth)
  {
    ghost var root0, t0, disk0, used1 := inode.root, inode.tree, vol.disk, vol.used;
    forall b | b in vol.used ensures b in vol.disk {
      vol.UsedOnDisk(b);
    }
    var rc := ExtentAppend(vol, inode, n, nb, 1);
    DataKept(disk0, vol.disk, used1, root0, t0, vol.Cap(), vol.blockSize);
    ok := rc >= 0;
    if !ok {
      ReleasedOk(vol.disk, vol.used, inode.root, t0, inode.tree, used1, disk0, vol.Cap(), nb, 1);
      UnharmedApart(t0, inode.tree, used0, used1, vol.used, disk0, vol.disk, nb, 1);
      ReleaseRun(vol, nb, 1);
    } else {
      var spb, ib := vol.Spb(), inode.iblocks;
      inode.iblocks := Sectors(ib, 1, spb);
      MappedRun(t0, inode.tree, used0, used1, vol.used, disk0, vol.disk,
                old(inode.iblocks), ib, inode.iblocks, spb, vol.blockSize, n, nb, 1);
    }
  }

  // ----- ext4_dir_insert -------------------------------------------------------------------------------------

  /** The record for the new name. */
  function Fresh(name: seq<Byte>, ino: nat, ftype: Byte): Entry { Entry(StoredName(name), ino, ftype) }

  /** Put the entry in block i if it has room. */
  method TryBlock(vol: Volume, inode: Inode, i: nat, name: seq<Byte>, ino: nat, ftype: Byte) returns (ok: bool)
    requires DirOk(vol, inode) && i < Div(inode.size, vol.blockSize) && 0 < ino < 0x1_0000_0000
    modifies vol`disk
    ensures DirOk(vol, inode) && Apart(inode.tree, inode.tree, vol.used, vol.used, old(vol.disk), vol.disk)
    ensures ok <==> !Packed(old(DirBlock(vol.disk, inode.tree, vol.blockSize, i)), 0, Need(|name|))
    ensures !ok ==> vol.disk == old(vol.disk)
    ensures ok ==> Gained(old(Live(vol.disk, inode.tree, vol.blockSize, inode.size)),
                          Live(vol.disk, inode.tree, vol.blockSize, inode.size), Fresh(name, ino, ftype))
  {
    var bs := vol.blockSize;
    ghost var n := Div(inode.size, bs);
    ghost var blocks := DirBlocks(vol.disk, inode.tree, bs, n);
    assert blocks[i] == DirBlock(vol.disk, inode.tree, bs, i);
    var phys := Find(vol, inode, i);
    if phys == 0 {
      return false;
    }
    var bytes := ReadBlock(vol, phys);
    var blk := Buffer(bytes);
    ghost var at;
    ok, at := InsertIn(blk, name, ino, ftype);
    if ok {
      BlockGained(blocks, i, blk[..], at, Fresh(name, ino, ftype));
      WriteBack(vol, inode, i, phys, blk[..]);
    }
  }

  /** The first block with room takes the entry. */
  method TryBlocks(vol: Volume, inode: Inode, name: seq<Byte>, ino: nat, ftype: Byte) returns (ok: bool)
    requires DirOk(vol, inode) && 0 < ino < 0x1_0000_0000
    modifies vol`disk
    ensures DirOk(vol, inode) && Apart(inode.tree, inode.tree, vol.used, vol.used, old(vol.disk), vol.disk)
    ensures !ok ==>
              vol.disk == old(vol.disk) && AllPacked(vol.disk, inode.tree, vol.blockSize, inode.size, Need(|name|))
    ensures ok ==> Gained(old(Live(vol.disk, inode.tree, vol.blockSize, inode.size)),
                          Live(vol.disk, inode.tree, vol.blockSize, inode.size), Fresh(name, ino, ftype))
  {
    var n := Div(inode.size, vol.blockSize);
    for i := 0 to n
      invariant vol.disk == old(vol.disk) && DirOk(vol, inode)
      invariant forall j: nat :: j < i ==> Packed(DirBlock(vol.disk, inode.tree, vol.blockSize, j), 0, Need(|name|))
    {
      ok := TryBlock(vol, inode, i, name, ino, ftype);
      if ok {
        return;
      }
    }
    ok := false;
  }

  /** No block has `need` bytes to spare. */
  ghost predicate AllPacked(disk: Disk, t: Tree, bs: nat, size: nat, need: nat)
    requires DirBytes(disk, t, bs, size)
  {
    var blocks := DirBlocks(disk, t, bs, Div(size, bs));
    forall i: nat :: i < |blocks| ==> Packed(blocks[i], 0, need)
  }

  /** The bytes of a new block: one record, as long as the block. */
  method FirstRecord(bs: nat, name: seq<Byte>, ino: nat, ftype: Byte) returns (bytes: seq<Byte>)
    requires Aligned(bs) && REC_HEAD + |name| <= bs < 0x1_0000 && 0 < ino < 0x1_0000_0000
    ensures |bytes| == bs && Tiled(bytes, 0, bs) && Names(bytes) == [Fresh(name, ino, ftype)]
  {
    var blk := new Byte[bs](j => 0);
    Resize(blk, 0, bs);
    ghost var b1 := blk[..];
    FillRecord(blk, 0, ino, name, ftype);
    FilledIs(b1, blk[..], 0, ino, name, ftype);
    bytes := blk[..];
  }

  /** The directory after a block was mapped and written behind its last. */
  lemma Lengthened(disk0: Disk, t0: Tree, disk: Disk, t: Tree, bs: nat, size: nat, nb: nat, b: seq<Byte>, e: Entry)
    requires DirBytes(disk0, t0, bs, size) && RunMapped(disk0, t0, disk, t, bs, Div(size, bs), nb, 1)
             && Sole(t, Div(size, bs))
    requires |b| == bs < 0x1_0000 && Tiled(b, 0, bs) && Names(b) == [e]
    ensures DirBytes(disk[nb := DataBlock(b)], t, bs, size + bs)
    ensures Gained(Live(disk0, t0, bs, size), Live(disk[nb := DataBlock(b)], t, bs, size + bs), e)
  {
    var n := Div(size, bs);
    OneMore(size, bs);
    BlockAdded(disk0, t0, disk, t, bs, n, nb, b);
    NamesSnoc(DirBlocks(disk0, t0, bs, n), b);
    var es := Live(disk0, t0, bs, size);
    assert InsertAt(es, |es|, e) == es + [e];
  }

  /** Append a block that holds the one record. */
  method GrowDir(vol: Volume, inode: Inode, name: seq<Byte>, ino: nat, ftype: Byte) returns (ok: bool)
    requires DirOk(vol, inode) && 0 < ino < 0x1_0000_0000 && REC_HEAD + |name| <= vol.blockSize
    requires Div(inode.size, vol.blockSize) < U32 - 1
    modifies vol, inode
    ensures DirOk(vol, inode) && Apart(old(inode.tree), inode.tree, old(vol.used), vol.used, old(vol.disk), vol.disk)
    ensures ok ==> Gained(old(Live(vol.disk, inode.tree, vol.blockSize, inode.size)),
                          Live(vol.disk, inode.tree, vol.blockSize, inode.size), Fresh(name, ino, ftype))
    ensures ok && Accounted(old(inode.iblocks), old(inode.tree), vol.Spb()) ==>
              Accounted(inode.iblocks, inode.tree, vol.Spb())
    ensures ok ==> Div(inode.size, vol.blockSize) == Div(old(inode.size), vol.blockSize) + 1
    ensures !ok ==> NoRoom(vol, inode.root.depth) && inode.size == old(inode.size)
    ensures !ok ==> Live(vol.disk, inode.tree, vol.blockSize, inode.size)
                    == old(Live(vol.disk, inode.tree, vol.blockSize, inode.size))
  {
    var bs := vol.blockSize;
    var n := Div(inode.size, bs);
    ghost var disk0, t0 := vol.disk, inode.tree;
    var nb := AppendBlock(vol, inode, n);
    if nb == 0 {
      DirSame(disk0, t0, vol.disk, inode.tree, bs, inode.size);
      return false;
    }
    var bytes := FirstRecord(bs, name, ino, ftype);
    OneMore(inode.size, bs);
    UseNew(vol, inode, nb, bytes, Fresh(name, ino, ftype), disk0, t0, old(vol.used));
    ok := true;
  }

  /** A data block of the file is written; nothing outside it changes. */
  method WriteMapped(vol: Volume, inode: Inode, ghost n: nat, nb: nat, bytes: seq<Byte>, ghost disk0: Disk,
                     ghost t0: Tree, ghost used0: set<nat>)
    requires vol.Valid() && inode.Ok(vol) && |bytes| == vol.blockSize && Blk(inode.tree, n) == nb != 0
    requires Apart(t0, inode.tree, used0, vol.used, disk0, vol.disk)
    modifies vol`disk
    ensures vol.Valid() && inode.Ok(vol) && vol.disk == old(vol.disk)[nb := DataBlock(bytes)] && Sole(inode.tree, n)
    ensures Apart(t0, inode.tree, used0, vol.used, disk0, vol.disk)
  {
    SoleBlock(vol.disk, vol.used, inode.root, inode.tree, vol.Cap(), n);
    DataWriteKeeps(vol.disk, vol.used, inode.root, inode.tree, vol.Cap(), nb, DataBlock(bytes));
    vol.WriteData(nb, bytes);
  }

  /** The block just mapped is written and the directory is one block longer. */
  method UseNew(vol: Volume, inode: Inode, nb: nat, bytes: seq<Byte>, ghost e: Entry, ghost disk0: Disk, ghost t0: Tree,
                ghost used0: set<nat>)
    requires vol.Valid() && inode.Ok(vol) && inode.iblocks < U32 && Aligned(vol.blockSize) && vol.blockSize < 0x1_0000
    requires DirBytes(disk0, t0, vol.blockSize, inode.size) && Apart(t0, inode.tree, used0, vol.used, disk0, vol.disk)
    requires RunMapped(disk0, t0, vol.disk, inode.tree, vol.blockSize, Div(inode.size, vol.blockSize), nb, 1)
    requires |bytes| == vol.blockSize && Tiled(bytes, 0, |bytes|) && Names(bytes) == [e]
    modifies vol`disk, inode`size
    ensures DirOk(vol, inode) && Apart(t0, inode.tree, used0, vol.used, disk0, vol.disk)
    ensures DirBytes(disk0, t0, vol.blockSize, old(inode.size)) && inode.size == old(inode.size) + vol.blockSize
    ensures Gained(Live(disk0, t0, vol.blockSize, old(inode.size)),
                   Live(vol.disk, inode.tree, vol.blockSize, inode.size), e)
  {
    var bs := vol.blockSize;
    ghost var n := Div(inode.size, bs);
    assert Blk(inode.tree, n) == nb;
    ghost var disk1, size0 := vol.disk, inode.size;
    WriteMapped(vol, inode, n, nb, bytes, disk0, t0, used0);
    Lengthened(disk0, t0, disk1, inode.tree, bs, size0, nb, bytes, e);
    inode.size := inode.size + bs;
    assert DirBytes(vol.disk, inode.tree, bs, inode.size);
  }

  /** Insert a name: in the first record with room, else in a new block. */
  method DirInsert(vol: Volume, inode: Inode, name: seq<Byte>, ino: nat, ftype: Byte) returns (rc: int)
    requires DirOk(vol, inode) && 0 < ino < 0x1_0000_0000 && REC_HEAD + |name| <= vol.blockSize
    requires Div(inode.size, vol.blockSize) < U32 - 1
    modifies vol, inode
    ensures DirOk(vol, inode) && Apart(old(inode.tree), inode.tree, old(vol.used), vol.used, old(vol.disk), vol.disk)
    ensures (rc == 0 || rc == -1) && Div(inode.size, vol.blockSize) <= Div(old(inode.size), vol.blockSize) + 1
    ensures rc == 0 ==> Gained(old(Live(vol.disk, inode.tree, vol.blockSize, inode.size)),
                               Live(vol.disk, inode.tree, vol.blockSize, inode.size), Fresh(name, ino, ftype))
    ensures rc == 0 && Accounted(old(inode.iblocks), old(inode.tree), vol.Spb()) ==>
              Accounted(inode.iblocks, inode.tree, vol.Spb())
    ensures rc == -1 ==> NoRoom(vol, inode.root.depth) && inode.size == old(inode.size)
                         && old(AllPacked(vol.disk, inode.tree, vol.blockSize, inode.size, Need(|name|)))
    ensures rc == -1 ==> Live(vol.disk, inode.tree, vol.blockSize, inode.size)
                         == old(Live(vol.disk, inode.tree, vol.blockSize, inode.size))
  {
    var ok := TryBlocks(vol, inode, name, ino, ftype);
    if !ok {
      ok := GrowDir(vol, inode, name, ino, ftype);
    }
    rc := if ok then 0 else -1;
  }

  // ----- the first block of a new directory -------------------------------------------------------------------

  const DOT: seq<Byte> := [46]
  const DOT_DOT: seq<Byte> := [46, 46]
  const FT_DIR: Byte := 2

  /** The block of a new directory: "." and "..", the second as long as the rest of the block. */
  method FirstDot(blk: array<Byte>, ino: nat)
    requires 24 <= blk.Length < 0x1_0000 && 0 < ino < 0x1_0000_0000
    modifies blk
    ensures Tiled(blk[..], 0, 12) && Ext4DirBlock.Entries(blk[..], 0, 12) == [Entry(DOT, ino, FT_DIR)]
  {
    Resize(blk, 0, 12);
    ghost var b1 := blk[..];
    FillRecord(blk, 0, ino, DOT, FT_DIR);
    FilledIs(b1, blk[..], 0, ino, DOT, FT_DIR);
  }

  method DotBlock(bs: nat, ino: nat, parent: nat) returns (bytes: seq<Byte>)
    requires Aligned(bs) && 24 <= bs < 0x1_0000 && 0 < ino < 0x1_0000_0000 && 0 < parent < 0x1_0000_0000
    ensures |bytes| == bs && Tiled(bytes, 0, bs)
            && Names(bytes) == [Entry(DOT, ino, FT_DIR), Entry(DOT_DOT, parent, FT_DIR)]
  {
    var blk := new Byte[bs](j => 0);
    FirstDot(blk, ino);
    ghost var b2 := blk[..];
    Resize(blk, 12, bs - 12);
    ghost var b3 := blk[..];
    FillRecord(blk, 12, parent, DOT_DOT, FT_DIR);
    bytes := blk[..];
    AlignedSum(12, bs - 12);
    AddTile(b2, b3, bytes, 12, bs - 12, [Entry(DOT, ino, FT_DIR)], DOT_DOT, parent);
  }

  /** A record that fills the rest of the block behind the tiles up to `mid`. */
  lemma AddTile(b2: seq<Byte>, b3: seq<Byte>, b: seq<Byte>, mid: nat, rest: nat, x: seq<Entry>, name: seq<Byte>,
                ino: nat)
    requires Aligned(rest) && REC_HEAD + |name| <= rest && mid + rest == |b2| < 0x1_0000 && 0 < ino < 0x1_0000_0000
    requires StoredName(name) == name && Tiled(b2, 0, mid) && Ext4DirBlock.Entries(b2, 0, mid) == x
    requires Resized(b2, b3, mid, rest) && Ext4DirBlock.Filled(b3, b, mid, ino, name, FT_DIR)
    ensures |b| == |b2| && Tiled(b, 0, |b|) && Names(b) == x + [Entry(name, ino, FT_DIR)]
  {
    FilledIs(b3, b, mid, ino, name, FT_DIR);
    SameTiles(b2, b, 0, mid);
    TwoTiles(b, 0, mid, |b|, x, [Entry(name, ino, FT_DIR)]);
  }

  // ----- ext4_dir_remove --------------------------------------------------------------------------------------

  method TryRemove(vol: Volume, inode: Inode, i: nat, name: seq<Byte>) returns (ino: nat)
    requires DirOk(vol, inode) && i < Div(inode.size, vol.blockSize)
    requires Absent(AllNames(DirBlocks(vol.disk, inode.tree, vol.blockSize, Div(inode.size, vol.blockSize))[..i]), name)
    modifies vol`disk
    ensures DirOk(vol, inode) && Apart(inode.tree, inode.tree, vol.used, vol.used, old(vol.disk), vol.disk)
    ensures ino == 0 ==> vol.disk == old(vol.disk)
    ensures ino == 0 ==>
              var b := DirBlock(vol.disk, inode.tree, vol.blockSize, i); Tiled(b, 0, |b|) && Absent(Names(b), name)
    ensures ino != 0 ==> Lost(old(Live(vol.disk, inode.tree, vol.blockSize, inode.size)),
                              Live(vol.disk, inode.tree, vol.blockSize, inode.size), name, ino)
  {
    var bs := vol.blockSize;
    ghost var n := Div(inode.size, bs);
    ghost var blocks := DirBlocks(vol.disk, inode.tree, bs, n);
    var phys := Find(vol, inode, i);
    if phys == 0 {
      assert blocks[i] == DirBlock(vol.disk, inode.tree, bs, i) == [];
      return 0;
    }
    var bytes := ReadBlock(vol, phys);
    var blk := Buffer(bytes);
    ghost var at;
    assert blocks[i] == DirBlock(vol.disk, inode.tree, bs, i) == bytes;
    ino, at := RemoveIn(blk, name);
    if ino != 0 {
      BlockLost(blocks, i, blk[..], at, name, ino);
      WriteBack(vol, inode, i, phys, blk[..]);
    }
  }

  /** Remove the first entry of that name; 0 if there is none. */
  method DirRemove(vol: Volume, inode: Inode, name: seq<Byte>) returns (ino: nat)
    requires DirOk(vol, inode)
    modifies vol`disk
    ensures DirOk(vol, inode) && Apart(inode.tree, inode.tree, vol.used, vol.used, old(vol.disk), vol.disk)
    ensures ino == 0 ==>
              vol.disk == old(vol.disk) && Absent(Live(vol.disk, inode.tree, vol.blockSize, inode.size), name)
    ensures ino != 0 ==> Lost(old(Live(vol.disk, inode.tree, vol.blockSize, inode.size)),
                              Live(vol.disk, inode.tree, vol.blockSize, inode.size), name, ino)
  {
    var n := Div(inode.size, vol.blockSize);
    ghost var blocks := DirBlocks(vol.disk, inode.tree, vol.blockSize, n);
    for i := 0 to n
      invariant vol.disk == old(vol.disk) && DirOk(vol, inode) && Absent(AllNames(blocks[..i]), name)
    {
      ino := TryRemove(vol, inode, i, name);
      if ino != 0 {
        return;
      }
      StillAbsent(blocks, i, name);
    }
    assert blocks[..n] == blocks;
    ino := 0;
  }
}
