/** A file the insertion cannot extend: every other block mapped, full leaves under a full node. */
module Ext4Stuck {
  import opened RawBytes
  import opened Division
  import opened Ext4Extents
  import opened Ext4Tree
  import opened Ext4Volume
  import opened Ext4ExtentOps
  import opened Ext4Insert
  import opened Ext4Map

  /** Extents of one block each, on every other logical block from `2 * lo` on. */
  function Comb(lo: nat, n: nat): (s: seq<Extent>)
    ensures |s| == n && forall i :: 0 <= i < n ==> s[i] == Extent(2 * (lo + i), 1, lo + i + 1)
  {
    if n == 0 then [] else Comb(lo, n - 1) + [Extent(2 * (lo + n - 1), 1, lo + n)]
  }

  /** `n` full leaves of a comb, in blocks `base`... */
  function CombKids(n: nat, cap: nat, base: nat): (kids: seq<Kid>)
    ensures |kids| == n
    ensures forall i: nat :: i < n ==> kids[i] == Kid(2 * (i * cap), base + i, Leaf(Comb(i * cap, cap)))
  {
    if n == 0 then []
    else CombKids(n - 1, cap, base) + [Kid(2 * ((n - 1) * cap), base + n - 1, Leaf(Comb((n - 1) * cap, cap)))]
  }

  lemma {:induction false} CombFlat(n: nat, cap: nat, base: nat)
    ensures FlatKids(CombKids(n, cap, base)) == Comb(0, n * cap)
  {
    if n > 0 {
      CombFlat(n - 1, cap, base);
      var k := CombKids(n, cap, base)[n - 1];
      FlatConcat(CombKids(n - 1, cap, base), [k]);
      FlatOne(k);
      assert n * cap == (n - 1) * cap + cap;
    }
  }

  lemma CombKidsOk(n: nat, cap: nat, base: nat)
    requires 1 <= cap && 1 <= base
    ensures KidsOk(CombKids(n, cap, base), 0, cap)
  {
    var kids := CombKids(n, cap, base);
    forall i: nat | i < n ensures KidOk(kids[i], 0, cap) {
      assert kids[i] == Kid(2 * (i * cap), base + i, Leaf(Comb(i * cap, cap)));
      assert Comb(i * cap, cap)[0].block == 2 * (i * cap + 0);
    }
  }

  function CombTree(cap: nat, base: nat): Tree {
    Index([Kid(0, base, Index(CombKids(cap, cap, base + 1)))])
  }

  lemma CombWellFormed(cap: nat, base: nat)
    requires 1 <= cap && 2 * (cap * cap) < U32 && 1 <= base
    ensures WellFormed(CombTree(cap, base), 2, cap) && Flat(CombTree(cap, base)) == Comb(0, cap * cap)
  {
    var kids, n := CombKids(cap, cap, base + 1), cap * cap;
    CombFlat(cap, cap, base + 1);
    CombKidsOk(cap, cap, base + 1);
    assert n >= 1;
    CombTop(kids, cap, base, n);
  }

  lemma CombTop(kids: seq<Kid>, cap: nat, base: nat, n: nat)
    requires 1 <= cap && 1 <= n && 2 * n < U32 && 1 <= base && |kids| == cap && KidsOk(kids, 0, cap)
             && FlatKids(kids) == Comb(0, n)
    ensures WellFormed(Index([Kid(0, base, Index(kids))]), 2, cap)
            && Flat(Index([Kid(0, base, Index(kids))])) == Comb(0, n)
  {
    var k := Kid(0, base, Index(kids));
    FlatOne(k);
    assert Shape(Index(kids), 1, cap, cap);
    assert KidOk(k, 1, cap);
  }

  lemma CombCrowded(cap: nat, base: nat, start: nat)
    requires 1 <= cap && start > 2
    ensures Crowded(CombTree(cap, base), cap, 1, start, 1)
  {
    var kids := CombKids(cap, cap, base + 1);
    assert kids[0] == Kid(2 * (0 * cap), base + 1, Leaf(Comb(0 * cap, cap)));
    var s := Comb(0, cap);
    assert s[0] == Extent(0, 1, 1) && (cap > 1 ==> s[1] == Extent(2, 1, 2));
    assert Position(s, 1) == 1;
    assert !Coalesces(s, 1, start, 1);
    assert Crowded(Index(kids), cap, 1, start, 1);
  }

  // ----- its blocks, each used once ---------------------------------------------------------------------------

  lemma {:induction false} CombData(n: nat, x: nat)
    ensures DataRefs(Comb(0, n), x) == InRun(1, n, x)
  {
    if n > 0 {
      CombData(n - 1, x);
      var e := Extent(2 * (n - 1), 1, n);
      DataConcat(Comb(0, n - 1), [e]);
      assert Comb(0, n) == Comb(0, n - 1) + [e];
      One(e);
    }
  }

  lemma {:induction false} CombNodes(n: nat, cap: nat, base: nat, x: nat)
    ensures NodeRefsKids(CombKids(n, cap, base), x) == InRun(base, n, x)
  {
    if n > 0 {
      CombNodes(n - 1, cap, base, x);
      var k := Kid(2 * ((n - 1) * cap), base + n - 1, Leaf(Comb((n - 1) * cap, cap)));
      assert KidRefs(k, x) == InRun(base + n - 1, 1, x);
      RefsConcat(CombKids(n - 1, cap, base), [k]);
      RefsOne(k);
      assert CombKids(n, cap, base) == CombKids(n - 1, cap, base) + [k];
    }
  }

  lemma CombTopRefs(kids: seq<Kid>, cap: nat, base: nat, x: nat)
    requires kids == CombKids(cap, cap, base + 1)
    ensures NodeRefs(Index([Kid(0, base, Index(kids))]), x) == InRun(base, cap + 1, x)
  {
    var k := Kid(0, base, Index(kids));
    CombNodes(cap, cap, base + 1, x);
    RefsOne(k);
    assert KidRefs(k, x) == (if base == x then 1 else 0) + NodeRefsKids(kids, x);
  }

  lemma CombRefs(cap: nat, base: nat, x: nat)
    requires 1 <= cap && 2 * (cap * cap) < U32 && cap * cap < base
    ensures Refs(CombTree(cap, base), x) == InRun(1, cap * cap, x) + InRun(base, cap + 1, x)
  {
    var t, n := CombTree(cap, base), cap * cap;
    assert Flat(t) == Comb(0, n) by {
      CombWellFormed(cap, base);
    }
    CombData(n, x);
    CombTopRefs(CombKids(cap, cap, base + 1), cap, base, x);
  }

  /** What block x holds: a node of the tree, or data. */
  function CombBlock(cap: nat, base: nat, bs: nat, x: nat): Block {
    var kids := CombKids(cap, cap, base + 1);
    if x == base then NodeBlock(NodeOf(Index(kids), 1, cap))
    else if base < x <= base + cap then NodeBlock(NodeOf(kids[x - base - 1].sub, 0, cap))
    else DataBlock(Zeros(bs))
  }

  function CombDisk(cap: nat, base: nat, bs: nat, limit: nat): Disk {
    map x: nat | 0 <= x < limit :: CombBlock(cap, base, bs, x)
  }

  lemma CombContents(cap: nat, base: nat, bs: nat, limit: nat)
    ensures forall x: nat :: x < limit ==> x in CombDisk(cap, base, bs, limit)
    ensures forall x :: x in CombDisk(cap, base, bs, limit) && CombDisk(cap, base, bs, limit)[x].DataBlock? ==>
              |CombDisk(cap, base, bs, limit)[x].bytes| == bs
  { }

  lemma CombStored(cap: nat, base: nat, bs: nat, limit: nat)
    requires base + cap < limit
    ensures Ext4Tree.Stored(CombDisk(cap, base, bs, limit), CombTree(cap, base), 2, cap)
  {
    var kids, disk := CombKids(cap, cap, base + 1), CombDisk(cap, base, bs, limit);
    forall i: nat | i < cap ensures KidStored(disk, kids[i], 0, cap) {
      assert kids[i] == Kid(2 * (i * cap), base + 1 + i, Leaf(Comb(i * cap, cap)));
      assert disk[base + 1 + i] == CombBlock(cap, base, bs, base + 1 + i);
    }
    assert KidStored(disk, CombTree(cap, base).kids[0], 1, cap);
  }

  /** For every node capacity the tree lies on a disk, each block used once, with block 1 unmapped and a
      free run for it, so that its insertion may be asked for; and it cannot succeed however many blocks are free. */
  lemma StuckExample(cap: nat, base: nat, start: nat, bs: nat, limit: nat)
    requires 1 <= cap && 2 * (cap * cap) < U32 && cap * cap < base && base + cap < start < limit <= U32
    ensures var t, disk, used := CombTree(cap, base), CombDisk(cap, base, bs, limit), Range(1, start);
            && TreeOk(disk, used, NodeOf(t, 2, ROOT_MAX), t, cap) && RunFree(t, used, start, 1)
            && RunOk(1, start, 1) && Unmapped(Flat(t), 1, 1) && Stuck(t, 2, cap, 1, start, 1)
  {
    var t := CombTree(cap, base);
    CombWellFormed(cap, base);
    CombCrowded(cap, base, start);
    CombStored(cap, base, bs, limit);
    forall x: nat ensures Refs(t, x) == InRun(1, cap * cap, x) + InRun(base, cap + 1, x) {
      CombRefs(cap, base, x);
    }
    CombHole(cap * cap);
  }

  lemma SetupFits(cap: nat, n: nat, base: nat, start: nat, bs: nat, limit: nat)
    requires 1 <= cap && n == cap * cap && base == n + 1 && start == base + cap + 1 && start < limit < 0x1_0001
    ensures var t, disk, used := CombTree(cap, base), CombDisk(cap, base, bs, limit), Range(1, start);
            && TreeOk(disk, used, NodeOf(t, 2, ROOT_MAX), t, cap) && RunFree(t, used, start, 1)
            && RunOk(1, start, 1) && Stuck(t, 2, cap, 1, start, 1) && Flat(t) == Comb(0, n)
  {
    StuckExample(cap, base, start, bs, limit);
    CombWellFormed(cap, base);
  }

  /** The file on a fresh volume of one group, with a block in use but in no file for the insertion. */
  method Setup(bs: nat, bpg: nat, cap: nat, n: nat) returns (vol: Volume, inode: Inode, start: nat)
    requires 1024 <= bs && cap == (bs - 12) / 12 && n == cap * cap && n + cap + 2 < bpg < 0x1_0000
    ensures fresh(vol) && fresh(inode) && vol.Valid() && vol.blockSize == bs && inode.Ok(vol) && inode.iblocks < U32
    ensures inode.root.magic == EXTENT_MAGIC && Flat(inode.tree) == Comb(0, n)
            && RunFree(inode.tree, vol.used, start, 1)
    ensures RunOk(1, start, 1) && Stuck(inode.tree, inode.root.depth, vol.Cap(), 1, start, 1)
    ensures vol.used == Range(1, start) && start < bpg
  {
    var base, limit := n + 1, bpg + 1;
    start := base + cap + 1;
    CombContents(cap, base, bs, limit);
    SetupFits(cap, n, base, start, bs, limit);
    vol := new Volume.Prefix(bs, bpg, 1, start, CombDisk(cap, base, bs, limit));
    inode := new Inode.Empty();
    var t := CombTree(cap, base);
    inode.root := NodeOf(t, 2, ROOT_MAX);
    inode.tree := t;
    assert vol.Cap() == cap;
    assert inode.root.depth == 2;
  }

  /** On a fresh volume with any number of blocks free the insertion of block 1 into this file
      fails, and block 1 stays unmapped. */
  method StuckCall(bs: nat, bpg: nat, cap: nat, n: nat) returns (vol: Volume, inode: Inode, rc: int)
    requires 1024 <= bs && cap == (bs - 12) / 12 && n == cap * cap && n + cap + 2 < bpg < 0x1_0000
    ensures rc == -1 && vol.Valid() && inode.Ok(vol) && Flat(inode.tree) == Comb(0, n)
            && Unmapped(Flat(inode.tree), 1, 1)
  {
    var start;
    vol, inode, start := Setup(bs, bpg, cap, n);
    CombHole(n);
    rc := ExtentMap(vol, inode, 1, start, 1);
  }

  lemma CombHole(n: nat)
    ensures Unmapped(Comb(0, n), 1, 1)
  {
    if At(Comb(0, n), 1) != 0 {
      var i := MappedSomewhere(Comb(0, n), 1);
    }
  }
}
