/** Files as byte strings: writes without holes, over any sequence of them, and beside other files. */
module Ext4Contents {
  import opened RawBytes
  import opened Folds
  import opened Division
  import opened Ext4Extents
  import opened Ext4Tree
  import opened Ext4Volume
  import opened Ext4ExtentOps
  import opened Ext4Truncate
  import opened Ext4File
  import opened Ext4Write

  /** The bytes of a file. */
  ghost function Contents(disk: Disk, t: Tree, bs: nat, size: nat): (r: seq<Byte>)
    requires bs > 0
    ensures |r| == size && forall i: nat :: i < size ==> r[i] == Raw(disk, t, bs, i)
  {
    seq(size, i requires 0 <= i < size => Raw(disk, t, bs, i))
  }

  /** `data` laid over a byte string at `pos`, making it longer if it must. */
  function Laid(s: seq<Byte>, pos: nat, data: seq<Byte>): seq<Byte>
    requires pos <= |s|
  { s[..pos] + data + if pos + |data| < |s| then s[pos + |data|..] else [] }

  ghost predicate FileOk(vol: Volume, inode: Inode)
    reads vol, inode
  {
    && vol.Valid() && inode.Ok(vol) && inode.iblocks < U32 && DataOk(vol.disk, inode.tree, vol.blockSize)
    && HoleFree(inode.tree, inode.size, vol.blockSize) && inode.size <= U32 * vol.blockSize
  }

  ghost function BytesOf(vol: Volume, inode: Inode): seq<Byte>
    requires vol.blockSize > 0
    reads vol, inode
  { Contents(vol.disk, inode.tree, vol.blockSize, inode.size) }

  lemma LaidOver(disk0: Disk, t0: Tree, disk: Disk, t: Tree, bs: nat, size0: nat, size: nat, pos: nat, data: seq<Byte>)
    requires bs > 0 && pos <= size0 && size == Max(size0, if |data| == 0 then 0 else pos + |data|)
    requires forall i: nat :: i < size ==> Raw(disk, t, bs, i) == Overlay(disk0, t0, bs, pos, data, i)
    ensures Contents(disk, t, bs, size) == Laid(Contents(disk0, t0, bs, size0), pos, data)
  {
    var a, b := Contents(disk, t, bs, size), Laid(Contents(disk0, t0, bs, size0), pos, data);
    assert |a| == |b|;
    forall i: nat | i < |a| ensures a[i] == b[i] {
      assert Raw(disk, t, bs, i) == Overlay(disk0, t0, bs, pos, data, i);
    }
  }

  /** Write `data` at `pos`, up to the end of the file: a prefix is laid over the bytes, all of it
      unless there is no room, and the file stays free of holes. */
  method Put(vol: Volume, inode: Inode, pos: nat, data: seq<Byte>) returns (w: nat)
    requires FileOk(vol, inode) && pos <= inode.size && pos + |data| <= (U32 - 1) * vol.blockSize
    modifies vol, inode
    ensures FileOk(vol, inode) && w <= |data| && (w < |data| ==> NoRoom(vol, inode.root.depth))
    ensures BytesOf(vol, inode) == Laid(old(BytesOf(vol, inode)), pos, data[..w])
    ensures Apart(old(inode.tree), inode.tree, old(vol.used), vol.used, old(vol.disk), vol.disk)
    ensures w == |data| > 0 && Accounted(old(inode.iblocks), old(inode.tree), vol.Spb()) ==>
              Accounted(inode.iblocks, inode.tree, vol.Spb())
  {
    var bs := vol.blockSize;
    ghost var disk0, t0, size0 := vol.disk, inode.tree, inode.size;
    HoleFreeFillable(inode.tree, inode.size, pos, |data|, bs);
    if |data| > 0 {
      QuotientBelow(pos + |data| - 1, U32 - 1, bs);
    }
    var rc := FileWrite(vol, inode, pos, data);
    w := if rc > 0 then rc else 0;
    HoleFreeKept(t0, inode.tree, size0, pos, w, bs);
    LaidOver(disk0, t0, vol.disk, inode.tree, bs, size0, inode.size, pos, data[..w]);
  }

  /** Read the whole file. */
  method GetAll(vol: Volume, inode: Inode) returns (r: seq<Byte>)
    requires FileOk(vol, inode)
    ensures r == BytesOf(vol, inode)
  {
    r := FileRead(vol, inode, 0, inode.size);
  }

  /** A write followed by a read of the whole file gives the old bytes overlaid with what was written. */
  method PutThenGet(vol: Volume, inode: Inode, pos: nat, data: seq<Byte>) returns (w: nat, r: seq<Byte>)
    requires FileOk(vol, inode) && pos <= inode.size && pos + |data| <= (U32 - 1) * vol.blockSize
    modifies vol, inode
    ensures FileOk(vol, inode) && w <= |data| && (w < |data| ==> NoRoom(vol, inode.root.depth))
    ensures r == Laid(old(BytesOf(vol, inode)), pos, data[..w])
  {
    w := Put(vol, inode, pos, data);
    r := GetAll(vol, inode);
  }

  lemma HoleFreeCut(t0: Tree, t: Tree, size: nat, length: nat, bs: nat)
    requires bs > 0 && HoleFree(t0, size, bs) && length <= size && Restricts(t0, t, Ceil(length, bs))
    ensures HoleFree(t, length, bs)
  {
    CeilOf(length, bs);
    forall b: nat ensures Blk(t, b) != 0 <==> b * bs < length {
      assert Blk(t0, b) != 0 <==> b * bs < size;
    }
  }

  /** Cutting a file keeps the bytes before the cut and leaves it free of holes. */
  method Shorten(vol: Volume, inode: Inode, length: nat)
    requires FileOk(vol, inode) && length <= inode.size && length <= (U32 - 1) * vol.blockSize
    modifies vol, inode
    ensures FileOk(vol, inode) && BytesOf(vol, inode) == old(BytesOf(vol, inode))[..length]
    ensures Accounted(old(inode.iblocks), old(inode.tree), vol.Spb()) ==>
              Accounted(inode.iblocks, inode.tree, vol.Spb())
  {
    ghost var t0, size0, disk0 := inode.tree, inode.size, vol.disk;
    CeilWithin(length, vol.blockSize);
    FileTruncate(vol, inode, length);
    ShorterBytes(disk0, t0, vol.disk, inode.tree, vol.blockSize, size0, length);
  }

  lemma CeilWithin(length: nat, bs: nat)
    requires bs > 0 && length <= (U32 - 1) * bs
    ensures Ceil(length, bs) < U32 && NewBlocks(length, bs) == Ceil(length, bs)
  {
    CeilOf(length, bs);
  }

  lemma ShorterBytes(disk0: Disk, t0: Tree, disk: Disk, t: Tree, bs: nat, size: nat, length: nat)
    requires bs > 0 && HoleFree(t0, size, bs) && length <= size && Restricts(t0, t, Ceil(length, bs))
    requires forall i: nat :: i < length ==> Raw(disk, t, bs, i) == Raw(disk0, t0, bs, i)
    ensures HoleFree(t, length, bs) && Contents(disk, t, bs, length) == Contents(disk0, t0, bs, size)[..length]
  {
    HoleFreeCut(t0, t, size, length, bs);
  }

  // ----- any sequence of writes ------------------------------------------------------------------------------------

  datatype Patch = Patch(pos: nat, data: seq<Byte>)

  function Patched(s: seq<Byte>, p: Patch): seq<Byte> { if p.pos <= |s| then Laid(s, p.pos, p.data) else s }

  /** The bytes after the first k patches. */
  function After(s: seq<Byte>, ps: seq<Patch>, k: nat): seq<Byte>
    requires k <= |ps|
  { Fold(Patched, s, ps[..k]) }

  /** Every patch starts within, or right behind, what the ones before it leave. */
  ghost predicate InOrder(s: seq<Byte>, ps: seq<Patch>, limit: nat) {
    forall k: nat :: k < |ps| ==> ps[k].pos <= |After(s, ps, k)| && ps[k].pos + |ps[k].data| <= limit
  }

  /** Any sequence of writes lays its data over the file in order, up to the first that finds no room;
      the file stays free of holes and nothing outside it changes. */
  method PutAll(vol: Volume, inode: Inode, ps: seq<Patch>) returns (k: nat, w: nat)
    requires FileOk(vol, inode) && InOrder(BytesOf(vol, inode), ps, (U32 - 1) * vol.blockSize)
    modifies vol, inode
    ensures FileOk(vol, inode) && k <= |ps| && (k < |ps| ==> w < |ps[k].data| && NoRoom(vol, inode.root.depth))
    ensures var s := After(old(BytesOf(vol, inode)), ps, k);
            BytesOf(vol, inode) == if k == |ps| then s else Patched(s, Patch(ps[k].pos, ps[k].data[..w]))
    ensures Apart(old(inode.tree), inode.tree, old(vol.used), vol.used, old(vol.disk), vol.disk)
  {
    ghost var s0, t0, used0, disk0 := BytesOf(vol, inode), inode.tree, vol.used, vol.disk;
    k, w := 0, 0;
    while k < |ps|
      invariant k <= |ps| && FileOk(vol, inode) && BytesOf(vol, inode) == After(s0, ps, k)
      invariant Apart(t0, inode.tree, used0, vol.used, disk0, vol.disk)
    {
      ghost var t1, used1, disk1 := inode.tree, vol.used, vol.disk;
      w := Put(vol, inode, ps[k].pos, ps[k].data);
      ApartAfter(t0, t1, inode.tree, used0, used1, vol.used, disk0, disk1, vol.disk);
      if w < |ps[k].data| {
        return;
      }
      assert ps[k].data[..w] == ps[k].data;
      FoldMore(Patched, s0, ps, k);
      k := k + 1;
    }
  }

  // ----- another file ------------------------------------------------------------------------------------------------

  /** The two files share no block. */
  ghost predicate Disjoint(t: Tree, y: Tree) { forall b :: Refs(y, b) > 0 ==> Refs(t, b) == 0 }

  /** A file that shares no block with the one written keeps its bytes. */
  lemma BystanderBytes(t0: Tree, t: Tree, used0: set<nat>, used: set<nat>, disk0: Disk, disk: Disk,
                       root: Node, y: Tree, cap: nat, bs: nat, size: nat)
    requires bs > 0 && Apart(t0, t, used0, used, disk0, disk) && TreeOk(disk0, used0, root, y, cap) && Disjoint(t0, y)
    requires DataOk(disk0, y, bs)
    ensures TreeOk(disk, used, root, y, cap) && Disjoint(t, y) && DataOk(disk, y, bs)
    ensures Contents(disk, y, bs, size) == Contents(disk0, y, bs, size)
  {
    BystanderOk(t0, t, used0, used, disk0, disk, root, y, cap);
    forall b: nat | Blk(y, b) != 0
      ensures Blk(y, b) in disk && disk[Blk(y, b)] == disk0[Blk(y, b)]
    {
      DataBlockOf(disk0, used0, root, y, cap, b);
      MappedIsRef(Flat(y), b);
    }
    forall i: nat | i < size ensures Raw(disk, y, bs, i) == Raw(disk0, y, bs, i) {
      assert Blk(y, Div(i, bs)) != 0 ==> disk[Blk(y, Div(i, bs))] == disk0[Blk(y, Div(i, bs))];
    }
  }

  /** Writing one file leaves another, on the same volume, as it was. */
  method PutBeside(vol: Volume, inode: Inode, other: Inode, pos: nat, data: seq<Byte>) returns (w: nat)
    requires FileOk(vol, inode) && FileOk(vol, other) && inode != other && Disjoint(inode.tree, other.tree)
    requires pos <= inode.size && pos + |data| <= (U32 - 1) * vol.blockSize
    modifies vol, inode
    ensures FileOk(vol, inode) && FileOk(vol, other) && Disjoint(inode.tree, other.tree) && w <= |data|
    ensures BytesOf(vol, inode) == Laid(old(BytesOf(vol, inode)), pos, data[..w])
    ensures BytesOf(vol, other) == old(BytesOf(vol, other))
  {
    ghost var t0, used0, disk0 := inode.tree, vol.used, vol.disk;
    w := Put(vol, inode, pos, data);
    BystanderBytes(t0, inode.tree, used0, vol.used, disk0, vol.disk, other.root, other.tree, vol.Cap(), vol.blockSize,
                   other.size);
  }
}
