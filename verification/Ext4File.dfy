/** Reading and writing a file through its extent tree. */
module Ext4File {
  import opened RawBytes
  import opened Division
  import opened Ext4Extents
  import opened Ext4Tree
  import opened Ext4Volume
  import opened Ext4Levels
  import opened Ext4ExtentOps
  import opened Ext4Insert
  import opened Ext4Map
  import opened Ext4Append
  import opened Ext4Truncate

  // ----- bytes ---------------------------------------------------------------------------------------

  lemma BlockOf(i: nat, b: nat, bs: nat)
    requires bs > 0
    ensures Div(i, bs) == b <==> b * bs <= i < b * bs + bs
    ensures i == Div(i, bs) * bs + Mod(i, bs)
  {
    DivMod(i, bs);
    if b < Div(i, bs) {
      GroupStep(b, Div(i, bs), bs);
    } else if Div(i, bs) < b {
      GroupStep(Div(i, bs), b, bs);
    }
  }

  ghost predicate IsData(disk: Disk, p: nat, bs: nat) {
    p in disk && disk[p].DataBlock? && |disk[p].bytes| == bs
  }

  /** The physical block of logical block `b`, 0 if none. */
  ghost function Blk(t: Tree, b: nat): nat { At(Flat(t), b) }

  /** The data blocks of the tree are the same on both disks. */
  ghost predicate SameData(disk: Disk, disk1: Disk, t: Tree, bs: nat) {
    forall b: nat :: Blk(t, b) != 0 ==>
      (IsData(disk, Blk(t, b), bs) <==> IsData(disk1, Blk(t, b), bs)) &&
      (IsData(disk, Blk(t, b), bs) && IsData(disk1, Blk(t, b), bs) ==> disk1[Blk(t, b)] == disk[Blk(t, b)])
  }

  /** The byte at offset `i` as the blocks hold it; 0 where no block is mapped. */
  ghost function Raw(disk: Disk, t: Tree, bs: nat, i: nat): Byte
    requires bs > 0
  {
    ByteIn(disk, t, bs, Div(i, bs), Mod(i, bs))
  }

  /** Byte `j` of logical block `b`. */
  ghost function ByteIn(disk: Disk, t: Tree, bs: nat, b: nat, j: nat): Byte
    requires j < bs
  {
    var p := At(Flat(t), b);
    if p != 0 && IsData(disk, p, bs) then disk[p].bytes[j] else 0
  }

  /** Every mapped block holds data. */
  ghost predicate DataOk(disk: Disk, t: Tree, bs: nat) {
    forall b: nat :: Blk(t, b) != 0 ==> IsData(disk, Blk(t, b), bs)
  }

  // ----- physical blocks of a file are distinct ---------------------------------------------------------

  lemma {:induction false} MappedIsRef(s: seq<Extent>, b: nat)
    requires At(s, b) != 0
    ensures DataRefs(s, At(s, b)) >= 1
  {
    if !s[0].Covers(b) {
      MappedIsRef(s[1..], b);
    }
  }

  lemma {:induction false} MappedDistinct(s: seq<Extent>, b: nat, c: nat)
    requires At(s, b) != 0 && At(s, b) == At(s, c) && DataRefs(s, At(s, b)) <= 1
    ensures b == c
  {
    if s[0].Covers(b) {
      if !s[0].Covers(c) {
        MappedIsRef(s[1..], c);
      }
    } else if s[0].Covers(c) {
      MappedIsRef(s[1..], b);
    } else {
      MappedDistinct(s[1..], b, c);
    }
  }

  lemma DataBlockOf(disk: Disk, used: set<nat>, root: Node, t: Tree, cap: nat, b: nat)
    requires TreeOk(disk, used, root, t, cap) && At(Flat(t), b) != 0
    ensures NodeRefs(t, At(Flat(t), b)) == 0 && At(Flat(t), b) in used
    ensures forall c: nat :: At(Flat(t), c) == At(Flat(t), b) ==> c == b
  {
    var p := At(Flat(t), b);
    MappedIsRef(Flat(t), b);
    assert Refs(t, p) <= 1;
    forall c: nat | At(Flat(t), c) == p ensures c == b {
      MappedDistinct(Flat(t), b, c);
    }
  }

  /** Writing a data block of the file leaves the tree as it is. */
  lemma DataWriteKeeps(disk: Disk, used: set<nat>, root: Node, t: Tree, cap: nat, p: nat, z: Block)
    requires TreeOk(disk, used, root, t, cap) && NodeRefs(t, p) == 0
    ensures TreeOk(disk[p := z], used, root, t, cap)
  {
    if t.Index? {
      assert AgreeOn(disk, disk[p := z], t.kids);
      StoredFrame(disk, disk[p := z], t.kids, root.depth - 1, cap);
    }
  }

  // ----- reading ---------------------------------------------------------------------------------------

  method ReadBlock(vol: Volume, p: nat) returns (bytes: seq<Byte>)
    requires vol.Valid()
    ensures |bytes| == vol.blockSize && (IsData(vol.disk, p, vol.blockSize) ==> bytes == vol.disk[p].bytes)
  {
    if p in vol.disk && vol.disk[p].DataBlock? {
      bytes := vol.disk[p].bytes;
    } else {
      bytes := seq(vol.blockSize, _ => 0);
    }
  }

  lemma BlockIn32(p: nat, bs: nat)
    requires bs > 0
    ensures p < U32 * bs <==> Div(p, bs) < U32
  {
    BlockOf(p, Div(p, bs), bs);
    if Div(p, bs) < U32 {
      GroupStep(Div(p, bs), U32, bs);
    } else if U32 < Div(p, bs) {
      GroupStep(U32, Div(p, bs), bs);
    }
  }

  lemma RawIn(disk: Disk, t: Tree, bs: nat, p: nat, k: nat)
    requires bs > 0 && Mod(p, bs) + k < bs
    ensures Raw(disk, t, bs, p + k) == ByteIn(disk, t, bs, Div(p, bs), Mod(p, bs) + k)
  {
    InBlock(p, k, bs);
  }

  /** Bytes `off`.. of logical block `lblk`. */
  method ReadChunk(vol: Volume, inode: Inode, lblk: nat, off: nat, chunk: nat) returns (part: seq<Byte>)
    requires vol.Valid() && inode.Ok(vol) && DataOk(vol.disk, inode.tree, vol.blockSize)
    requires off + chunk <= vol.blockSize
    ensures |part| == chunk
    ensures forall k :: 0 <= k < chunk ==> part[k] == ByteIn(vol.disk, inode.tree, vol.blockSize, lblk, off + k)
  {
    var phys := Find(vol, inode, lblk);
    assert Blk(inode.tree, lblk) == phys;
    if phys == 0 {
      part := seq(chunk, _ => 0);
    } else {
      var bytes := ReadBlock(vol, phys);
      part := bytes[off..off + chunk];
    }
  }

  /** Read up to `count` bytes at `pos`: as many as the size allows, each the byte
      its block holds, zeros in holes. */
  method FileRead(vol: Volume, inode: Inode, pos: nat, count: nat) returns (r: seq<Byte>)
    requires vol.Valid() && inode.Ok(vol) && DataOk(vol.disk, inode.tree, vol.blockSize)
    requires inode.size <= U32 * vol.blockSize
    ensures |r| == if pos >= inode.size then 0 else if pos + count > inode.size then inode.size - pos else count
    ensures forall k :: 0 <= k < |r| ==> r[k] == Raw(vol.disk, inode.tree, vol.blockSize, pos + k)
  {
    r := [];
    if pos >= inode.size { return; }
    var n := if pos + count > inode.size then inode.size - pos else count;
    var bs := vol.blockSize;
    while |r| < n
      invariant |r| <= n
      invariant forall k :: 0 <= k < |r| ==> r[k] == Raw(vol.disk, inode.tree, bs, pos + k)
      decreases n - |r|
    {
      var p := pos + |r|;
      BlockIn32(p, bs);
      var lblk, off := Wrap(Div(p, bs)), Mod(p, bs);
      var chunk := if n - |r| > bs - off then bs - off else n - |r|;
      var part := ReadChunk(vol, inode, lblk, off, chunk);
      forall k | 0 <= k < chunk ensures part[k] == Raw(vol.disk, inode.tree, bs, p + k) {
        RawIn(vol.disk, inode.tree, bs, p, k);
      }
      r := r + part;
    }
  }

  lemma InBlock(p: nat, k: nat, bs: nat)
    requires bs > 0 && Mod(p, bs) + k < bs
    ensures Div(p + k, bs) == Div(p, bs) && Mod(p + k, bs) == Mod(p, bs) + k
  {
    DivMod(p, bs);
    DivUnique(p + k, Div(p, bs), Mod(p, bs) + k, bs);
  }

  // ----- writing ----------------------------------------------------------------------------------------


  /** The byte at `i` once `data` has been laid over the file at `pos`. */
  ghost function Overlay(disk: Disk, t: Tree, bs: nat, pos: nat, data: seq<Byte>, i: nat): Byte
    requires bs > 0
  {
    if pos <= i < pos + |data| then data[i - pos] else Raw(disk, t, bs, i)
  }

  /** In blocks `lo`..`hi` a hole is followed by holes only. */
  ghost predicate Unfilled(t: Tree, lo: nat, hi: nat) {
    forall b: nat, c: nat :: lo <= b < c <= hi && Blk(t, b) == 0 ==> Blk(t, c) == 0
  }

  /** The last block of the write either holds file data already, or gets a run of
      its own, or its bytes past the write are past the end of the file. */
  ghost predicate TailSafe(t: Tree, size: nat, pos: nat, end: nat, bs: nat)
    requires bs > 0 && end > 0
  {
    var last := Div(end - 1, bs);
    end >= size || Mod(end, bs) == 0 || Blk(t, last) != 0 || last <= Div(pos, bs) || Blk(t, last - 1) != 0
  }

  /** Writes carried out faithfully whatever runs of blocks happen to be free: no hole before
      mapped blocks in the range, and a safe tail. Of other writes nothing is claimed. */
  ghost predicate Fillable(t: Tree, size: nat, pos: nat, count: nat, bs: nat)
    requires bs > 0
  {
    count > 0 ==> Unfilled(t, Div(pos, bs), Div(pos + count - 1, bs)) && TailSafe(t, size, pos, pos + count, bs)
  }

  /** A file without holes can be written anywhere up to its end. */
  lemma HoleFreeFillable(t: Tree, size: nat, pos: nat, count: nat, bs: nat)
    requires bs > 0 && pos <= size
    requires HoleFree(t, size, bs)
    ensures Fillable(t, size, pos, count, bs)
  {
    if count > 0 {
      var first, last := Div(pos, bs), Div(pos + count - 1, bs);
      forall b: nat, c: nat | first <= b < c <= last && Blk(t, b) == 0 ensures Blk(t, c) == 0 {
        GroupStep(b, c, bs);
      }
      if pos + count < size {
        BlockOf(pos + count - 1, last, bs);
        assert Blk(t, last) != 0;
      }
    }
  }

  function Ceil(pos: nat, bs: nat): nat
    requires bs > 0
  {
    Div(pos + bs - 1, bs)
  }

  lemma CeilOf(pos: nat, bs: nat)
    requires bs > 0
    ensures Ceil(pos, bs) == if Mod(pos, bs) == 0 then Div(pos, bs) else Div(pos, bs) + 1
    ensures forall b: nat {:trigger b * bs} :: pos <= b * bs <==> Ceil(pos, bs) <= b
  {
    CeilIs(pos, bs);
    forall b: nat ensures pos <= b * bs <==> Ceil(pos, bs) <= b {
      CeilBound(pos, bs, b);
    }
  }

  lemma CeilIs(pos: nat, bs: nat)
    requires bs > 0
    ensures Ceil(pos, bs) == if Mod(pos, bs) == 0 then Div(pos, bs) else Div(pos, bs) + 1
  {
    var q, r := Div(pos, bs), Mod(pos, bs);
    DivMod(pos, bs);
    if r == 0 {
      DivUnique(pos + bs - 1, q, bs - 1, bs);
    } else {
      GroupAfter(q, bs);
      DivUnique(pos + bs - 1, q + 1, r - 1, bs);
    }
  }

  lemma CeilBound(pos: nat, bs: nat, b: nat)
    requires bs > 0
    ensures pos <= b * bs <==> Ceil(pos, bs) <= b
  {
    CeilIs(pos, bs);
    DivMod(pos, bs);
    if b < Div(pos, bs) {
      GroupStep(b, Div(pos, bs), bs);
    } else if Div(pos, bs) < b {
      GroupStep(Div(pos, bs), b, bs);
    }
  }

  /** A block of the range that this write mapped and has not written yet: it
      starts at or after the current position, in block `next`. */
  ghost predicate Pending(t0: Tree, t: Tree, next: nat, last: nat, b: nat) {
    Blk(t0, b) == 0 && Blk(t, b) != 0 && next <= b <= last
  }

  ghost predicate AfterHole(t0: Tree, first: nat, b: nat) {
    first < b && Blk(t0, b - 1) == 0
  }

  /** Which blocks are mapped, and which of them hold data (block `cur`, the one at
      hand, aside). */
  ghost predicate Mapping(t0: Tree, disk: Disk, t: Tree, bs: nat, first: nat, last: nat, lo: nat, next: nat, cur: int) {
    && Unfilled(t, lo, last)
    && (forall b: nat :: b != cur && Blk(t, b) != 0 && !Pending(t0, t, next, last, b) ==> IsData(disk, Blk(t, b), bs))
    && (forall b: nat :: Blk(t0, b) != 0 ==> Blk(t, b) == Blk(t0, b))
    && (forall b: nat :: b != cur && Pending(t0, t, next, last, b) ==> AfterHole(t0, first, b))
  }

  /** The bytes outside what is still to be written are already the final ones
      (those of block `cur` aside). */
  ghost predicate Bytes(disk0: Disk, t0: Tree, size0: nat, disk: Disk, t: Tree, bs: nat, pos0: nat, data: seq<Byte>,
                        pos: nat, cur: int)
    requires bs > 0
  {
    forall i: nat :: i < Max(size0, pos) && !(pos <= i < pos0 + |data|) && Div(i, bs) != cur ==>
      Raw(disk, t, bs, i) == Overlay(disk0, t0, bs, pos0, data, i)
  }

  /** What the rest of block `cur` must hold. */
  ghost predicate BaseOk(disk0: Disk, t0: Tree, size0: nat, bs: nat, pos0: nat, data: seq<Byte>,
                         pos: nat, chunk: nat, cur: nat, base: seq<Byte>)
    requires bs > 0
  {
    && |base| == bs
    && forall i: nat :: Div(i, bs) == cur && i < Max(size0, pos + chunk) && !(pos <= i < pos0 + |data|) ==>
         base[Mod(i, bs)] == Overlay(disk0, t0, bs, pos0, data, i)
  }

  /** Blocks are mapped in addition only in `first`..`last`, and all of
      `first`..`upto - 1` are mapped. */
  ghost predicate Spread(t0: Tree, t: Tree, first: nat, last: nat, upto: nat) {
    && (forall b: nat :: Blk(t, b) != 0 && Blk(t0, b) == 0 ==> first <= b <= last)
    && (forall b: nat :: first <= b < upto ==> Blk(t, b) != 0)
  }

  /** The block after the last one written. */
  function Upto(pos0: nat, w: nat, bs: nat): nat
    requires bs > 0
  { if w == 0 then Div(pos0, bs) else Ceil(pos0 + w, bs) }

  lemma UptoCur(pos0: nat, w: nat, bs: nat)
    requires bs > 0 && (w == 0 || Mod(pos0 + w, bs) == 0)
    ensures Upto(pos0, w, bs) == Div(pos0 + w, bs)
  {
    CeilOf(pos0 + w, bs);
  }

  /** The state of a write into blocks `first`..`last` that reached `pos`, in
      block `lo`. */
  ghost predicate FillingAt(disk0: Disk, t0: Tree, size0: nat, disk: Disk, t: Tree, bs: nat, pos0: nat, data: seq<Byte>,
                            pos: nat, first: nat, last: nat, lo: nat, next: nat, upto: nat)
    requires bs > 0
  {
    && Mapping(t0, disk, t, bs, first, last, lo, next, -1)
    && Bytes(disk0, t0, size0, disk, t, bs, pos0, data, pos, -1)
    && Spread(t0, t, first, last, upto)
  }

  ghost predicate Filling(disk0: Disk, t0: Tree, size0: nat, disk: Disk, t: Tree, bs: nat, pos0: nat, data: seq<Byte>,
                          w: nat)
    requires bs > 0
  {
    && 0 < |data| && w <= |data| && (w == 0 || w == |data| || Mod(pos0 + w, bs) == 0)
    && FillingAt(disk0, t0, size0, disk, t, bs, pos0, data, pos0 + w, Div(pos0, bs), Div(pos0 + |data| - 1, bs),
                 Div(pos0 + w, bs), Ceil(pos0 + w, bs), Upto(pos0, w, bs))
  }

  lemma FillStart(disk: Disk, t: Tree, size: nat, bs: nat, pos: nat, data: seq<Byte>)
    requires bs > 0 && 0 < |data| && DataOk(disk, t, bs) && Unfilled(t, Div(pos, bs), Div(pos + |data| - 1, bs))
    ensures Filling(disk, t, size, disk, t, bs, pos, data, 0)
  {
  }

  /** Only logical block `b` is kept at its physical block. */
  ghost predicate Sole(t: Tree, b: nat) {
    Blk(t, b) != 0 && forall c: nat :: Blk(t, c) == Blk(t, b) ==> c == b
  }

  /** The block's new contents: `base` with the chunk laid over it. */
  ghost predicate Patched(buf: seq<Byte>, base: seq<Byte>, data: seq<Byte>, w: nat, boff: nat, chunk: nat) {
    && |buf| == |base| && boff + chunk <= |base| && w + chunk <= |data|
    && forall j :: 0 <= j < |buf| ==> buf[j] == if boff <= j < boff + chunk then data[w + (j - boff)] else base[j]
  }

  lemma ByteAfter(disk: Disk, t: Tree, bs: nat, cur: nat, buf: seq<Byte>, disk2: Disk, b: nat, j: nat)
    requires Sole(t, cur) && |buf| == bs && j < bs && disk2 == disk[Blk(t, cur) := DataBlock(buf)]
    ensures ByteIn(disk2, t, bs, b, j) == if b == cur then buf[j] else ByteIn(disk, t, bs, b, j)
  {
    if b != cur {
      assert Blk(t, b) != Blk(t, cur);
    }
  }

  lemma WrittenByte(disk0: Disk, t0: Tree, size0: nat, disk: Disk, t: Tree, bs: nat, pos0: nat, data: seq<Byte>, w: nat,
                    chunk: nat, cur: nat, base: seq<Byte>, buf: seq<Byte>, disk2: Disk, i: nat)
    requires bs > 0 && cur == Div(pos0 + w, bs) && Bytes(disk0, t0, size0, disk, t, bs, pos0, data, pos0 + w, cur)
    requires BaseOk(disk0, t0, size0, bs, pos0, data, pos0 + w, chunk, cur, base) && Sole(t, cur)
    requires 0 < chunk && Patched(buf, base, data, w, Mod(pos0 + w, bs), chunk)
    requires disk2 == disk[Blk(t, cur) := DataBlock(buf)]
    requires i < Max(size0, pos0 + w + chunk) && !(pos0 + w + chunk <= i < pos0 + |data|)
    ensures Raw(disk2, t, bs, i) == Overlay(disk0, t0, bs, pos0, data, i)
  {
    var pos, ov := pos0 + w, Overlay(disk0, t0, bs, pos0, data, i);
    ByteAfter(disk, t, bs, cur, buf, disk2, Div(i, bs), Mod(i, bs));
    if Div(i, bs) == cur {
      PatchedByte(buf, base, data, w, pos0, bs, chunk, i);
      if !(pos <= i < pos + chunk) {
        assert base[Mod(i, bs)] == ov;
      }
    } else {
      OutsideChunk(pos, chunk, bs, i);
      assert Raw(disk, t, bs, i) == ov;
    }
  }

  lemma PatchedByte(buf: seq<Byte>, base: seq<Byte>, data: seq<Byte>, w: nat, pos0: nat, bs: nat, chunk: nat, i: nat)
    requires bs > 0 && |base| == bs && Patched(buf, base, data, w, Mod(pos0 + w, bs), chunk)
             && Div(i, bs) == Div(pos0 + w, bs)
    ensures buf[Mod(i, bs)] == if pos0 + w <= i < pos0 + w + chunk then data[i - pos0] else base[Mod(i, bs)]
  {
    var pos := pos0 + w;
    DivMod(pos, bs);
    DivMod(i, bs);
  }

  lemma OutsideChunk(pos: nat, chunk: nat, bs: nat, i: nat)
    requires bs > 0 && Mod(pos, bs) + chunk <= bs && Div(i, bs) != Div(pos, bs)
    ensures !(pos <= i < pos + chunk)
  {
    if pos <= i < pos + chunk {
      InBlock(pos, i - pos, bs);
    }
  }

  lemma WrittenBytes(disk0: Disk, t0: Tree, size0: nat, disk: Disk, t: Tree, bs: nat, pos0: nat, data: seq<Byte>,
                     w: nat,
                     chunk: nat, cur: nat, base: seq<Byte>, buf: seq<Byte>, disk2: Disk)
    requires bs > 0 && cur == Div(pos0 + w, bs) && Bytes(disk0, t0, size0, disk, t, bs, pos0, data, pos0 + w, cur)
    requires BaseOk(disk0, t0, size0, bs, pos0, data, pos0 + w, chunk, cur, base) && Sole(t, cur)
    requires 0 < chunk && Patched(buf, base, data, w, Mod(pos0 + w, bs), chunk)
    requires disk2 == disk[Blk(t, cur) := DataBlock(buf)]
    ensures Bytes(disk0, t0, size0, disk2, t, bs, pos0, data, pos0 + w + chunk, -1)
  {
    forall i: nat | i < Max(size0, pos0 + w + chunk) && !(pos0 + w + chunk <= i < pos0 + |data|)
      ensures Raw(disk2, t, bs, i) == Overlay(disk0, t0, bs, pos0, data, i)
    {
      WrittenByte(disk0, t0, size0, disk, t, bs, pos0, data, w, chunk, cur, base, buf, disk2, i);
    }
  }

  lemma WrittenMapping(t0: Tree, disk: Disk, t: Tree, bs: nat, first: nat, last: nat, lo: nat, next: nat, lo': nat,
                       next': nat,
                       buf: seq<Byte>, disk2: Disk)
    requires Mapping(t0, disk, t, bs, first, last, lo, next, lo) && Sole(t, lo) && |buf| == bs
    requires lo <= lo' && lo <= next <= next' == lo + 1
    requires disk2 == disk[Blk(t, lo) := DataBlock(buf)]
    ensures Mapping(t0, disk2, t, bs, first, last, lo', next', -1)
  {
    forall b: nat | Blk(t, b) != 0 && !Pending(t0, t, next', last, b) ensures IsData(disk2, Blk(t, b), bs) {
      if b != lo {
        assert Blk(t, b) != Blk(t, lo);
        assert !Pending(t0, t, next, last, b) || next <= b < lo + 1;
      }
    }
  }

  /** Where the position goes when a chunk of the block at hand is written. */
  lemma Advance(pos: nat, chunk: nat, bs: nat)
    requires bs > 0 && 0 < chunk && Mod(pos, bs) + chunk <= bs
    ensures Div(pos, bs) <= Div(pos + chunk, bs) && Ceil(pos + chunk, bs) == Div(pos, bs) + 1
    ensures Div(pos, bs) <= Ceil(pos, bs) <= Div(pos, bs) + 1
    ensures chunk == bs - Mod(pos, bs) ==> Mod(pos + chunk, bs) == 0
  {
    CeilOf(pos, bs);
    CeilOf(pos + chunk, bs);
    var q, r := Div(pos, bs), Mod(pos, bs);
    DivMod(pos, bs);
    if r + chunk == bs {
      GroupAfter(q, bs);
      DivUnique(pos + chunk, q + 1, 0, bs);
    } else {
      DivUnique(pos + chunk, q, r + chunk, bs);
    }
  }

  /** Block `cur`, the one at `pos0 + w`, is mapped and the rest of the state is as
      it was; `base` is what the block will hold outside the chunk. */
  ghost predicate AtBlock(disk0: Disk, t0: Tree, size0: nat, disk: Disk, t: Tree, bs: nat, pos0: nat, data: seq<Byte>,
                          w: nat,
                          cur: nat, chunk: nat, base: seq<Byte>)
    requires bs > 0
  {
    && 0 < chunk && w + chunk <= |data| && cur == Div(pos0 + w, bs) && Sole(t, cur)
    && Mapping(t0, disk, t, bs, Div(pos0, bs), Div(pos0 + |data| - 1, bs), cur, Ceil(pos0 + w, bs), cur)
    && Bytes(disk0, t0, size0, disk, t, bs, pos0, data, pos0 + w, cur)
    && BaseOk(disk0, t0, size0, bs, pos0, data, pos0 + w, chunk, cur, base)
    && Spread(t0, t, Div(pos0, bs), Div(pos0 + |data| - 1, bs), cur)
  }

  lemma SpreadNext(t0: Tree, t: Tree, first: nat, last: nat, cur: nat)
    requires Spread(t0, t, first, last, cur) && Blk(t, cur) != 0
    ensures Spread(t0, t, first, last, cur + 1)
  {
  }

  /** Writing the block at hand carries the state from `w` to `w + chunk`. */
  lemma FillStep(disk0: Disk, t0: Tree, size0: nat, disk: Disk, t: Tree, bs: nat, pos0: nat, data: seq<Byte>, w: nat,
                 cur: nat, chunk: nat, base: seq<Byte>, buf: seq<Byte>, disk2: Disk)
    requires bs > 0 && AtBlock(disk0, t0, size0, disk, t, bs, pos0, data, w, cur, chunk, base)
    requires Patched(buf, base, data, w, Mod(pos0 + w, bs), chunk)
    requires chunk == bs - Mod(pos0 + w, bs) || chunk == |data| - w
    requires disk2 == disk[Blk(t, cur) := DataBlock(buf)]
    ensures Filling(disk0, t0, size0, disk2, t, bs, pos0, data, w + chunk)
  {
    Advance(pos0 + w, chunk, bs);
    FillStepAt(disk0, t0, size0, disk, t, bs, pos0, data, w, cur, chunk, base, buf, disk2, Div(pos0, bs),
               Div(pos0 + |data| - 1, bs), Ceil(pos0 + w, bs), Div(pos0 + w + chunk, bs), Ceil(pos0 + w + chunk, bs));
    assert Upto(pos0, w + chunk, bs) == cur + 1;
  }

  lemma FillStepAt(disk0: Disk, t0: Tree, size0: nat, disk: Disk, t: Tree, bs: nat, pos0: nat, data: seq<Byte>, w: nat,
                   cur: nat, chunk: nat, base: seq<Byte>, buf: seq<Byte>, disk2: Disk,
                   first: nat, last: nat, next: nat, lo': nat, next': nat)
    requires bs > 0 && cur == Div(pos0 + w, bs) && 0 < chunk && Sole(t, cur)
    requires Mapping(t0, disk, t, bs, first, last, cur, next, cur) && Spread(t0, t, first, last, cur)
    requires Bytes(disk0, t0, size0, disk, t, bs, pos0, data, pos0 + w, cur)
    requires BaseOk(disk0, t0, size0, bs, pos0, data, pos0 + w, chunk, cur, base)
    requires Patched(buf, base, data, w, Mod(pos0 + w, bs), chunk) && |buf| == bs
    requires disk2 == disk[Blk(t, cur) := DataBlock(buf)]
    requires cur <= lo' && cur <= next <= next' == cur + 1
    ensures FillingAt(disk0, t0, size0, disk2, t, bs, pos0, data, pos0 + w + chunk, first, last, lo', next', cur + 1)
  {
    SpreadNext(t0, t, first, last, cur);
    WrittenBytes(disk0, t0, size0, disk, t, bs, pos0, data, w, chunk, cur, base, buf, disk2);
    WrittenMapping(t0, disk, t, bs, first, last, cur, next, lo', next', buf, disk2);
  }

  // ----- the block at hand is mapped already -------------------------------------------------------------

  /** A byte at or past the end of the write lies in its last block only if the
      write does not end with the block. */
  lemma PastEnd(i: nat, end: nat, bs: nat)
    requires bs > 0 && 0 < end <= i && Div(i, bs) <= Div(end - 1, bs)
    ensures Div(i, bs) == Div(end - 1, bs) && Mod(end, bs) != 0
  {
    PastEndAt(i, end, Div(i, bs), Div(end - 1, bs), bs);
    if Mod(end, bs) == 0 {
      DivMod(end, bs);
      AtBoundary(i, end, Div(end, bs), Div(end - 1, bs), bs);
    }
  }

  lemma PastEndAt(i: nat, end: nat, b: nat, q: nat, bs: nat)
    requires bs > 0 && 0 < end <= i && b == Div(i, bs) && q == Div(end - 1, bs) && b <= q
    ensures b == q && i < q * bs + bs
  {
    BlockOf(end - 1, q, bs);
    BlockOf(i, b, bs);
    if b < q {
      GroupStep(b, q, bs);
    }
  }

  lemma AtBoundary(i: nat, end: nat, m: nat, q: nat, bs: nat)
    requires bs > 0 && 0 < end <= i && q == Div(end - 1, bs) && i < q * bs + bs
    ensures end != m * bs
  {
    BlockOf(end - 1, q, bs);
    if m <= q {
      Times(m, q, bs);
    } else {
      GroupStep(q, m, bs);
    }
  }

  lemma Times(m: nat, q: nat, bs: nat)
    requires m <= q
    ensures m * bs <= q * bs
  {
    if m < q {
      GroupStep(m, q, bs);
    }
  }

  /** A pending block's bytes past the write are past the end of the file too. */
  lemma PendingTail(t0: Tree, t: Tree, size0: nat, pos0: nat, end: nat, bs: nat, next: nat, b: nat, i: nat)
    requires bs > 0 && 0 < end && TailSafe(t0, size0, pos0, end, bs)
    requires Pending(t0, t, next, Div(end - 1, bs), b) && AfterHole(t0, Div(pos0, bs), b)
    requires Div(i, bs) == b && end <= i
    ensures size0 <= i
  {
    PastEnd(i, end, bs);
  }

  lemma KeptBase(disk0: Disk, t0: Tree, size0: nat, disk: Disk, t: Tree, bs: nat, pos0: nat, data: seq<Byte>, w: nat,
                 cur: nat, chunk: nat, base: seq<Byte>, i: nat)
    requires bs > 0 && Filling(disk0, t0, size0, disk, t, bs, pos0, data, w)
             && TailSafe(t0, size0, pos0, pos0 + |data|, bs)
    requires cur == Div(pos0 + w, bs) <= Div(pos0 + |data| - 1, bs) && Blk(t, cur) != 0 && 0 < chunk
             && w + chunk <= |data|
    requires |base| == bs && (IsData(disk, Blk(t, cur), bs) ==> base == disk[Blk(t, cur)].bytes)
    requires Div(i, bs) == cur && i < Max(size0, pos0 + w + chunk) && !(pos0 + w <= i < pos0 + |data|)
    ensures base[Mod(i, bs)] == Overlay(disk0, t0, bs, pos0, data, i)
  {
    var pos := pos0 + w;
    if IsData(disk, Blk(t, cur), bs) {
      assert Raw(disk, t, bs, i) == base[Mod(i, bs)];
    } else {
      CeilOf(pos, bs);
      BlockOf(i, cur, bs);
      BlockOf(pos, cur, bs);
      PendingTail(t0, t, size0, pos0, pos0 + |data|, bs, Ceil(pos, bs), cur, i);
      assert false;
    }
  }

  lemma KeptBlock(disk0: Disk, t0: Tree, size0: nat, disk: Disk, t: Tree, bs: nat, pos0: nat, data: seq<Byte>, w: nat,
                  cur: nat, chunk: nat, base: seq<Byte>)
    requires bs > 0 && Filling(disk0, t0, size0, disk, t, bs, pos0, data, w)
             && TailSafe(t0, size0, pos0, pos0 + |data|, bs)
    requires cur == Div(pos0 + w, bs) && Sole(t, cur) && 0 < chunk && w + chunk <= |data|
    requires |base| == bs
    requires (IsData(disk, Blk(t, cur), bs) ==> base == disk[Blk(t, cur)].bytes)
             || (Mod(pos0 + w, bs) == 0 && chunk == bs)
    ensures AtBlock(disk0, t0, size0, disk, t, bs, pos0, data, w, cur, chunk, base)
  {
    NextBlock(pos0 + w, |data| - 1 - w, bs);
    UptoCur(pos0, w, bs);
    forall i: nat | Div(i, bs) == cur && i < Max(size0, pos0 + w + chunk) && !(pos0 + w <= i < pos0 + |data|)
      ensures base[Mod(i, bs)] == Overlay(disk0, t0, bs, pos0, data, i)
    {
      WholeBlock(pos0 + w, bs, i);
      KeptBase(disk0, t0, size0, disk, t, bs, pos0, data, w, cur, chunk, base, i);
    }
  }

  lemma WholeBlock(pos: nat, bs: nat, i: nat)
    requires bs > 0 && Div(i, bs) == Div(pos, bs)
    ensures Mod(pos, bs) == 0 ==> pos <= i < pos + bs
  {
    BlockOf(i, Div(pos, bs), bs);
    BlockOf(pos, Div(pos, bs), bs);
  }

  lemma NextBlock(pos: nat, n: nat, bs: nat)
    requires bs > 0
    ensures Div(pos, bs) <= Div(pos + n, bs)
  {
    BlockOf(pos, Div(pos, bs), bs);
    BlockOf(pos + n, Div(pos + n, bs), bs);
    if Div(pos + n, bs) < Div(pos, bs) {
      GroupStep(Div(pos + n, bs), Div(pos, bs), bs);
    }
  }

  // ----- the block at hand gets a fresh run -------------------------------------------------------------

  /** The tree gained the run [cur, cur + got) -> nb and no data block changed. */
  ghost predicate RunMapped(disk: Disk, t: Tree, disk1: Disk, t1: Tree, bs: nat, cur: nat, nb: nat, got: nat) {
    && 0 < got && 0 < nb
    && (forall b: nat :: Blk(t1, b) == WithRun(Blk(t, b), b, cur, nb, got))
    && SameData(disk, disk1, t, bs)
  }

  lemma MappedMapping(t0: Tree, disk: Disk, t: Tree, disk1: Disk, t1: Tree, bs: nat, first: nat, last: nat,
                      cur: nat, next: nat, nb: nat, got: nat)
    requires Mapping(t0, disk, t, bs, first, last, cur, next, -1) && RunMapped(disk, t, disk1, t1, bs, cur, nb, got)
    requires Blk(t, cur) == 0 && first <= cur && cur + got - 1 <= last && next <= cur + 1
    ensures Mapping(t0, disk1, t1, bs, first, last, cur, next, cur)
  {
    assert forall b: nat :: cur <= b <= last ==> Blk(t, b) == 0 && Blk(t0, b) == 0;
    forall b: nat | b != cur && Blk(t1, b) != 0 && !Pending(t0, t1, next, last, b)
      ensures IsData(disk1, Blk(t1, b), bs) {
      assert Blk(t1, b) == Blk(t, b);
      assert !Pending(t0, t, next, last, b);
    }
    forall b: nat | b != cur && Pending(t0, t1, next, last, b) ensures AfterHole(t0, first, b) {
      if cur < b < cur + got {
        assert Blk(t, b - 1) == 0;
        assert Blk(t0, b - 1) == 0;
      } else {
        assert Pending(t0, t, next, last, b);
      }
    }
    forall b: nat, c: nat | cur <= b < c <= last && Blk(t1, b) == 0 ensures Blk(t1, c) == 0 {
      assert Blk(t, b) == 0;
      assert Blk(t, c) == 0;
    }
  }

  lemma MappedSpread(disk: Disk, t0: Tree, t: Tree, disk1: Disk, t1: Tree, bs: nat, first: nat, last: nat, cur: nat,
                     nb: nat, got: nat)
    requires Spread(t0, t, first, last, cur) && RunMapped(disk, t, disk1, t1, bs, cur, nb, got)
    requires first <= cur && cur + got - 1 <= last
    ensures Spread(t0, t1, first, last, cur)
  {
    forall b: nat | Blk(t1, b) != 0 && Blk(t0, b) == 0 ensures first <= b <= last {
      assert Blk(t1, b) == Blk(t, b) || cur <= b < cur + got;
    }
    forall b: nat | first <= b < cur ensures Blk(t1, b) != 0 {
      assert Blk(t, b) != 0;
    }
  }

  lemma MappedByte(disk0: Disk, t0: Tree, size0: nat, disk: Disk, t: Tree, disk1: Disk, t1: Tree, bs: nat,
                   pos0: nat, data: seq<Byte>, w: nat, cur: nat, nb: nat, got: nat, i: nat)
    requires bs > 0 && Filling(disk0, t0, size0, disk, t, bs, pos0, data, w)
             && TailSafe(t0, size0, pos0, pos0 + |data|, bs)
    requires cur == Div(pos0 + w, bs) && RunMapped(disk, t, disk1, t1, bs, cur, nb, got) && Blk(t, cur) == 0
    requires Div(pos0, bs) <= cur && cur + got - 1 <= Div(pos0 + |data| - 1, bs)
    requires i < Max(size0, pos0 + w) && !(pos0 + w <= i < pos0 + |data|) && Div(i, bs) != cur
    ensures Raw(disk1, t1, bs, i) == Overlay(disk0, t0, bs, pos0, data, i)
  {
    OutsideRun(disk0, t0, size0, disk, t, disk1, t1, bs, pos0, data, w, cur, nb, got, i);
    assert Blk(t1, Div(i, bs)) == Blk(t, Div(i, bs));
    assert Raw(disk1, t1, bs, i) == Raw(disk, t, bs, i);
  }

  /** A byte of the file outside the write is in none of the blocks mapped ahead. */
  lemma OutsideRun(disk0: Disk, t0: Tree, size0: nat, disk: Disk, t: Tree, disk1: Disk, t1: Tree, bs: nat,
                   pos0: nat, data: seq<Byte>, w: nat, cur: nat, nb: nat, got: nat, i: nat)
    requires bs > 0 && Filling(disk0, t0, size0, disk, t, bs, pos0, data, w)
             && TailSafe(t0, size0, pos0, pos0 + |data|, bs)
    requires cur == Div(pos0 + w, bs) && RunMapped(disk, t, disk1, t1, bs, cur, nb, got) && Blk(t, cur) == 0
    requires Div(pos0, bs) <= cur && cur + got - 1 <= Div(pos0 + |data| - 1, bs)
    requires i < Max(size0, pos0 + w) && !(pos0 + w <= i < pos0 + |data|)
    ensures !(cur < Div(i, bs) < cur + got)
  {
    var b := Div(i, bs);
    if cur < b < cur + got {
      BlockOf(i, b, bs);
      BlockOf(pos0 + w, cur, bs);
      GroupStep(cur, b, bs);
      assert Blk(t, b) == 0 && Blk(t, b - 1) == 0;
      assert Blk(t0, b) == 0 && Blk(t0, b - 1) == 0;
      PendingTail(t0, t1, size0, pos0, pos0 + |data|, bs, b, b, i);
    }
  }

  /** Nothing of an unmapped block was written or is part of the file's bytes yet. */
  lemma FreshBase(disk0: Disk, t0: Tree, size0: nat, disk: Disk, t: Tree, bs: nat, pos0: nat, data: seq<Byte>, w: nat,
                  cur: nat, i: nat)
    requires bs > 0 && Filling(disk0, t0, size0, disk, t, bs, pos0, data, w)
    requires cur == Div(pos0 + w, bs) && Blk(t, cur) == 0 && w < |data|
    requires Div(i, bs) == cur && !(pos0 + w <= i < pos0 + |data|)
    ensures Overlay(disk0, t0, bs, pos0, data, i) == 0
  {
    assert Blk(t0, cur) == 0;
    assert Raw(disk0, t0, bs, i) == 0;
    WholeBlock(pos0 + w, bs, i);
  }

  lemma MappedBlock(disk0: Disk, t0: Tree, size0: nat, disk: Disk, t: Tree, disk1: Disk, t1: Tree, bs: nat,
                    pos0: nat, data: seq<Byte>, w: nat, cur: nat, nb: nat, got: nat, chunk: nat, base: seq<Byte>)
    requires bs > 0 && Filling(disk0, t0, size0, disk, t, bs, pos0, data, w)
             && TailSafe(t0, size0, pos0, pos0 + |data|, bs)
    requires cur == Div(pos0 + w, bs) && RunMapped(disk, t, disk1, t1, bs, cur, nb, got) && Blk(t, cur) == 0
    requires Div(pos0, bs) <= cur && cur + got - 1 <= Div(pos0 + |data| - 1, bs)
    requires 0 < chunk && w + chunk <= |data| && Sole(t1, cur) && |base| == bs && forall j :: 0 <= j < bs ==>
               base[j] == 0
    ensures AtBlock(disk0, t0, size0, disk1, t1, bs, pos0, data, w, cur, chunk, base)
  {
    CeilOf(pos0 + w, bs);
    UptoCur(pos0, w, bs);
    MappedSpread(disk, t0, t, disk1, t1, bs, Div(pos0, bs), Div(pos0 + |data| - 1, bs), cur, nb, got);
    MappedMapping(t0, disk, t, disk1, t1, bs, Div(pos0, bs), Div(pos0 + |data| - 1, bs), cur, Ceil(pos0 + w, bs), nb,
                  got);
    forall i: nat | i < Max(size0, pos0 + w) && !(pos0 + w <= i < pos0 + |data|) && Div(i, bs) != cur
      ensures Raw(disk1, t1, bs, i) == Overlay(disk0, t0, bs, pos0, data, i)
    {
      MappedByte(disk0, t0, size0, disk, t, disk1, t1, bs, pos0, data, w, cur, nb, got, i);
    }
    forall i: nat | Div(i, bs) == cur && i < Max(size0, pos0 + w + chunk) && !(pos0 + w <= i < pos0 + |data|)
      ensures base[Mod(i, bs)] == Overlay(disk0, t0, bs, pos0, data, i)
    {
      FreshBase(disk0, t0, size0, disk, t, bs, pos0, data, w, cur, i);
    }
  }

  // ----- stopping -----------------------------------------------------------------------------------------

  /** Rebuilding the tree around the same extents, without touching data, changes
      nothing of the state. */
  lemma FillingKept(disk0: Disk, t0: Tree, size0: nat, disk: Disk, t: Tree, disk1: Disk, t1: Tree, bs: nat,
                    pos0: nat, data: seq<Byte>, w: nat)
    requires bs > 0 && Filling(disk0, t0, size0, disk, t, bs, pos0, data, w) && Flat(t1) == Flat(t)
    requires SameData(disk, disk1, t, bs)
    ensures Filling(disk0, t0, size0, disk1, t1, bs, pos0, data, w)
  {
    FillingAtKept(disk0, t0, size0, disk, t, disk1, t1, bs, pos0, data, pos0 + w, Div(pos0, bs),
                  Div(pos0 + |data| - 1, bs),
                  Div(pos0 + w, bs), Ceil(pos0 + w, bs), Upto(pos0, w, bs));
  }

  lemma FillingAtKept(disk0: Disk, t0: Tree, size0: nat, disk: Disk, t: Tree, disk1: Disk, t1: Tree, bs: nat,
                      pos0: nat, data: seq<Byte>, pos: nat, first: nat, last: nat, lo: nat, next: nat, upto: nat)
    requires bs > 0 && FillingAt(disk0, t0, size0, disk, t, bs, pos0, data, pos, first, last, lo, next, upto)
    requires SameData(disk, disk1, t, bs) && Flat(t1) == Flat(t)
    ensures FillingAt(disk0, t0, size0, disk1, t1, bs, pos0, data, pos, first, last, lo, next, upto)
  {
    assert forall b: nat :: Blk(t1, b) == Blk(t, b);
    KeptBytes(disk0, t0, size0, disk, t, disk1, t1, bs, pos0, data, pos);
    KeptMapping(t0, disk, t, disk1, t1, bs, first, last, lo, next);
    KeptSpread(t0, t, t1, first, last, upto);
  }

  lemma KeptBytes(disk0: Disk, t0: Tree, size0: nat, disk: Disk, t: Tree, disk1: Disk, t1: Tree, bs: nat,
                  pos0: nat, data: seq<Byte>, pos: nat)
    requires bs > 0 && Bytes(disk0, t0, size0, disk, t, bs, pos0, data, pos, -1)
    requires SameData(disk, disk1, t, bs) && forall b: nat :: Blk(t1, b) == Blk(t, b)
    ensures Bytes(disk0, t0, size0, disk1, t1, bs, pos0, data, pos, -1)
  {
    forall i: nat ensures Raw(disk1, t1, bs, i) == Raw(disk, t, bs, i) {
      assert Blk(t1, Div(i, bs)) == Blk(t, Div(i, bs));
    }
  }

  lemma KeptSpread(t0: Tree, t: Tree, t1: Tree, first: nat, last: nat, upto: nat)
    requires Spread(t0, t, first, last, upto) && forall b: nat :: Blk(t1, b) == Blk(t, b)
    ensures Spread(t0, t1, first, last, upto)
  {
    forall b: nat | first <= b < upto ensures Blk(t1, b) != 0 {
      assert Blk(t, b) != 0;
    }
  }

  lemma KeptMapping(t0: Tree, disk: Disk, t: Tree, disk1: Disk, t1: Tree, bs: nat, first: nat, last: nat, lo: nat,
                    next: nat)
    requires Mapping(t0, disk, t, bs, first, last, lo, next, -1) && forall b: nat :: Blk(t1, b) == Blk(t, b)
    requires SameData(disk, disk1, t, bs)
    ensures Mapping(t0, disk1, t1, bs, first, last, lo, next, -1)
  {
    forall b: nat | Blk(t1, b) != 0 && !Pending(t0, t1, next, last, b) ensures IsData(disk1, Blk(t1, b), bs) {
      assert !Pending(t0, t, next, last, b);
    }
    forall b: nat | Pending(t0, t1, next, last, b) ensures AfterHole(t0, first, b) {
      assert Pending(t0, t, next, last, b);
    }
    forall b: nat, c: nat | lo <= b < c <= last && Blk(t1, b) == 0 ensures Blk(t1, c) == 0 {
      assert Blk(t, b) == 0;
      assert Blk(t, c) == 0;
    }
  }

  lemma NonePending(t0: Tree, disk: Disk, t: Tree, bs: nat, first: nat, last: nat, lo: nat, next: nat)
    requires Mapping(t0, disk, t, bs, first, last, lo, next, -1) && (last < next || (lo <= next && Blk(t, lo) == 0))
    ensures DataOk(disk, t, bs)
  {
    forall b: nat | Blk(t, b) != 0 ensures IsData(disk, Blk(t, b), bs) {
      if Pending(t0, t, next, last, b) {
        assert b == lo || Blk(t, b) == 0;
      }
    }
  }

  /** When the write stops at `w` - at its end, or at a block that cannot be mapped -
      the file is the old one overlaid with the first `w` bytes, and every mapped
      block holds data. */
  lemma FillEnd(disk0: Disk, t0: Tree, size0: nat, disk: Disk, t: Tree, bs: nat, pos0: nat, data: seq<Byte>, w: nat)
    requires bs > 0 && Filling(disk0, t0, size0, disk, t, bs, pos0, data, w)
    requires w == |data| || Blk(t, Div(pos0 + w, bs)) == 0
    ensures DataOk(disk, t, bs)
    ensures forall i: nat :: i < Max(size0, pos0 + w) ==>
              Raw(disk, t, bs, i) == Overlay(disk0, t0, bs, pos0, data[..w], i)
  {
    StoppedData(disk0, t0, size0, disk, t, bs, pos0, data, w);
    forall i: nat | i < Max(size0, pos0 + w) ensures Raw(disk, t, bs, i) == Overlay(disk0, t0, bs, pos0, data[..w], i) {
      if pos0 + w <= i < pos0 + |data| {
        UnreachedByte(disk0, t0, size0, disk, t, bs, pos0, data, w, i);
      }
    }
  }

  lemma StoppedData(disk0: Disk, t0: Tree, size0: nat, disk: Disk, t: Tree, bs: nat, pos0: nat, data: seq<Byte>, w: nat)
    requires bs > 0 && Filling(disk0, t0, size0, disk, t, bs, pos0, data, w)
    requires w == |data| || Blk(t, Div(pos0 + w, bs)) == 0
    ensures DataOk(disk, t, bs)
  {
    StopAt(pos0, |data|, w, bs);
    NonePending(t0, disk, t, bs, Div(pos0, bs), Div(pos0 + |data| - 1, bs), Div(pos0 + w, bs), Ceil(pos0 + w, bs));
  }

  lemma StopAt(pos0: nat, n: nat, w: nat, bs: nat)
    requires bs > 0 && 0 < n && w <= n
    ensures Div(pos0 + w, bs) <= Ceil(pos0 + w, bs) && (w == n ==> Div(pos0 + n - 1, bs) < Ceil(pos0 + w, bs))
  {
    CeilOf(pos0 + w, bs);
    if w == n {
      PastLast(pos0 + w, bs);
    }
  }

  /** Bytes of the range from an unmapped block on are in holes, before and after. */
  lemma UnreachedByte(disk0: Disk, t0: Tree, size0: nat, disk: Disk, t: Tree, bs: nat, pos0: nat, data: seq<Byte>,
                      w: nat, i: nat)
    requires bs > 0 && Filling(disk0, t0, size0, disk, t, bs, pos0, data, w) && Blk(t, Div(pos0 + w, bs)) == 0
    requires pos0 + w <= i < pos0 + |data|
    ensures Raw(disk, t, bs, i) == 0 == Raw(disk0, t0, bs, i)
  {
    NextBlock(pos0 + w, i - (pos0 + w), bs);
    NextBlock(i, pos0 + |data| - 1 - i, bs);
    assert Blk(t, Div(i, bs)) == 0;
    assert Blk(t0, Div(i, bs)) == 0;
  }

  lemma PastLast(end: nat, bs: nat)
    requires bs > 0 && 0 < end
    ensures Div(end - 1, bs) < Ceil(end, bs)
  {
    CeilOf(end, bs);
    var q := Div(end - 1, bs);
    BlockOf(end - 1, q, bs);
    assert q * bs < end;
  }

  /** After a write of `w` bytes the blocks mapped are those mapped before and
      those written. */
  lemma StoppedBlocks(disk0: Disk, t0: Tree, size0: nat, disk: Disk, t: Tree, bs: nat, pos0: nat, data: seq<Byte>,
                      w: nat)
    requires bs > 0 && Filling(disk0, t0, size0, disk, t, bs, pos0, data, w)
    requires w == |data| || Blk(t, Div(pos0 + w, bs)) == 0
    ensures MapsAlso(t0, t, pos0, w, bs)
  {
    var first, last, next := Div(pos0, bs), Div(pos0 + |data| - 1, bs), Ceil(pos0 + w, bs);
    CeilOf(pos0 + w, bs);
    if w > 0 {
      LastOf(pos0 + w, bs);
    }
    forall b: nat ensures Blk(t, b) != 0 <==> Blk(t0, b) != 0 || Wrote(pos0, w, bs, b) {
      if Blk(t, b) != 0 && Blk(t0, b) == 0 {
        NotPending(t0, disk, t, bs, first, last, Div(pos0 + w, bs), next, b);
      }
    }
  }

  lemma NotPending(t0: Tree, disk: Disk, t: Tree, bs: nat, first: nat, last: nat, lo: nat, next: nat, b: nat)
    requires Mapping(t0, disk, t, bs, first, last, lo, next, -1) && lo <= next
    requires Blk(t, b) != 0 && Blk(t0, b) == 0 && b <= last && (last < next || Blk(t, lo) == 0)
    ensures b < next && (Blk(t, lo) == 0 ==> b != lo)
  {
    assert lo < b <= last && Blk(t, lo) == 0 ==> Blk(t, b) == 0;
  }

  /** Block `b` holds a byte of the `w` written at `pos`. */
  predicate Wrote(pos: nat, w: nat, bs: nat, b: nat)
    requires bs > 0
  {
    w > 0 && Div(pos, bs) <= b <= Div(pos + w - 1, bs)
  }

  ghost predicate MapsAlso(t0: Tree, t: Tree, pos: nat, w: nat, bs: nat)
    requires bs > 0
  {
    forall b: nat :: Blk(t, b) != 0 <==> Blk(t0, b) != 0 || Wrote(pos, w, bs, b)
  }

  lemma LastOf(end: nat, bs: nat)
    requires bs > 0 && 0 < end
    ensures Ceil(end, bs) == Div(end - 1, bs) + 1
  {
    PastLast(end, bs);
    CeilOf(end, bs);
    var q := Div(end - 1, bs);
    BlockOf(end - 1, q, bs);
    assert (q + 1) * bs == q * bs + bs;
  }

  /** Exactly the blocks below the size are mapped. */
  ghost predicate HoleFree(t: Tree, size: nat, bs: nat) {
    forall b: nat :: Blk(t, b) != 0 <==> b * bs < size
  }

  /** Writing anywhere up to the end keeps a file free of holes. */
  lemma HoleFreeKept(t0: Tree, t: Tree, size: nat, pos: nat, w: nat, bs: nat)
    requires bs > 0 && HoleFree(t0, size, bs) && pos <= size && MapsAlso(t0, t, pos, w, bs)
    ensures HoleFree(t, Max(size, if w == 0 then 0 else pos + w), bs)
  {
    if w > 0 {
      LastOf(pos + w, bs);
      CeilOf(pos + w, bs);
      CeilOf(size, bs);
      CeilOf(pos, bs);
      forall b: nat ensures Blk(t, b) != 0 <==> b * bs < Max(size, pos + w) {
        assert Blk(t0, b) != 0 <==> b < Ceil(size, bs);
        assert Wrote(pos, w, bs, b) <==> Div(pos, bs) <= b < Ceil(pos + w, bs);
        NextBlock(pos, size - pos, bs);
      }
    }
  }
}
