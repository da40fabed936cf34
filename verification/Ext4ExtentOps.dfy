/** The operations on an inode's extent tree: lookup, the rightmost end, depth
    growth, appending a run at the end and inserting one before it. */
module Ext4ExtentOps {
  import opened Ext4Extents
  import opened Ext4Tree
  import opened Ext4Volume
  import opened Ext4Levels

  /** The root node and the disk hold a well-formed tree whose blocks are all in
      use and none used twice. */
  ghost predicate TreeOk(disk: Disk, used: set<nat>, root: Node, t: Tree, cap: nat) {
    && root == NodeOf(t, root.depth, ROOT_MAX)
    && WellFormed(t, root.depth, cap) && Stored(disk, t, root.depth, cap)
    && Distinct(t) && forall b :: Refs(t, b) > 0 ==> b in used
  }

  class Inode {
    var root: Node        // i_block
    var iblocks: nat      // i_blocks_lo, in 512-byte sectors
    var size: nat
    ghost var tree: Tree  // what the root and the blocks below it denote

    /** The map the inode stands for. */
    ghost function Phys(b: nat): nat
      reads this
    { At(Flat(tree), b) }

    ghost predicate Ok(vol: Volume)
      reads this, vol
    { TreeOk(vol.disk, vol.used, root, tree, vol.Cap()) }

    constructor Empty()
      ensures tree == Leaf([]) && size == 0 && iblocks == 0
      ensures root == Node(EXTENT_MAGIC, ROOT_MAX, 0, [], [])
    {
      root := Node(EXTENT_MAGIC, ROOT_MAX, 0, [], []);
      tree := Leaf([]);
      iblocks, size := 0, 0;
    }
  }

  lemma RootLevel(vol: Volume, inode: Inode)
    requires inode.Ok(vol)
    ensures LevelOk(vol.disk, vol.used, inode.tree, inode.root.depth, ROOT_MAX, vol.Cap())
  {
    assert forall b :: NodeRefs(inode.tree, b) <= Refs(inode.tree, b);
  }

  // ----- lookup --------------------------------------------------------------------------

  /** Scan the index entries for the last key not above `b`. */
  method ScanIndex(idxs: seq<Idx>, b: nat) returns (i: nat)
    ensures i <= |idxs| && (forall j :: 0 <= j < i ==> idxs[j].key <= b)
    ensures i < |idxs| ==> b < idxs[i].key
  {
    i := 0;
    while i < |idxs| && !(b < idxs[i].key)
      invariant i <= |idxs| && forall j :: 0 <= j < i ==> idxs[j].key <= b
    {
      i := i + 1;
    }
  }

  /** The test for a record that covers `b`; the end of the record is a 32-bit sum. */
  predicate Hits(e: Extent, b: nat) {
    e.block <= b && b < (e.block + e.len) % U32
  }

  /** A record is found at every block it covers exactly if it does not reach the
      very end of the 32-bit block space. */
  lemma HitsIff(e: Extent)
    requires 1 <= e.len <= MAX_LEN && e.block < U32 && e.End() <= U32
    ensures (forall b: nat :: Hits(e, b) <==> e.Covers(b)) <==> e.End() < U32
  {
    assert e.Covers(e.block);
    assert e.End() == U32 ==> !Hits(e, e.block);
  }

  /** Scan a leaf's records. */
  method ScanLeaf(exts: seq<Extent>, b: nat) returns (phys: nat)
    requires Good(exts)
    ensures phys == At(exts, b)
  {
    var i := 0;
    while i < |exts|
      invariant i <= |exts| && forall j :: 0 <= j < i ==> !exts[j].Covers(b)
    {
      if Hits(exts[i], b) {
        MappedAt(exts, i, b);
        return exts[i].start + (b - exts[i].block);
      }
      i := i + 1;
    }
    if At(exts, b) != 0 {
      ghost var k := MappedSomewhere(exts, b);
    }
    phys := 0;
  }

  /** Node `n` is the node of subtree `x`, which decides the block of `b`. */
  ghost predicate Decides(disk: Disk, used: set<nat>, x: Tree, n: Node, top: nat, cap: nat, b: nat, phys: nat) {
    LevelOk(disk, used, x, n.depth, top, cap) && n == NodeOf(x, n.depth, top) && At(Flat(x), b) == phys
  }

  lemma FindDown(disk: Disk, used: set<nat>, kids: seq<Kid>, i: nat, d: nat, top: nat, cap: nat, b: nat)
    requires LevelOk(disk, used, Index(kids), d + 1, top, cap) && Guides(kids, i, b) && kids[i].key <= b
    ensures LevelOk(disk, used, kids[i].sub, d, cap, cap) && At(Flat(kids[i].sub), b) == At(FlatKids(kids), b)
    ensures kids[i].blk in disk && disk[kids[i].blk] == NodeBlock(NodeOf(kids[i].sub, d, cap))
  {
    GuideLookup(kids, i, b, d, cap);
    KidLevel(disk, used, kids, i, d + 1, top, cap);
  }

  /** Descending from node `n`, whose scan for `b` stopped at entry `i`. */
  lemma FindStep(disk: Disk, used: set<nat>, x: Tree, n: Node, i: nat, top: nat, cap: nat, b: nat, phys: nat)
    requires Decides(disk, used, x, n, top, cap, b, phys) && n.depth > 0
    requires i <= |n.idxs| && (forall j :: 0 <= j < i ==> n.idxs[j].key <= b)
    requires i < |n.idxs| ==> b < n.idxs[i].key
    ensures x.Index? && |x.kids| == |n.idxs|
    ensures i == 0 ==> phys == 0
    ensures i > 0 ==> var m := NodeOf(x.kids[i - 1].sub, n.depth - 1, cap);
                      && n.idxs[i - 1].leaf in disk && disk[n.idxs[i - 1].leaf] == NodeBlock(m)
                      && m.depth == n.depth - 1 && Decides(disk, used, x.kids[i - 1].sub, m, cap, cap, b, phys)
  {
    if i == 0 {
      GuideNone(x.kids, b, n.depth - 1, cap);
    } else {
      assert n.idxs[i - 1] == Idx(x.kids[i - 1].key, x.kids[i - 1].blk);
      assert Guides(x.kids, i - 1, b);
      FindDown(disk, used, x.kids, i - 1, n.depth - 1, top, cap, b);
    }
  }

  /** The lookup agrees with the map of the tree at every logical block. */
  method Find(vol: Volume, inode: Inode, b: nat) returns (phys: nat)
    requires inode.root.magic == EXTENT_MAGIC ==> inode.Ok(vol)
    ensures phys == if inode.root.magic == EXTENT_MAGIC then inode.Phys(b) else 0
  {
    var n := inode.root;
    if n.magic != EXTENT_MAGIC { return 0; }
    ghost var x, top := inode.tree, ROOT_MAX;
    RootLevel(vol, inode);
    while n.depth > 0
      invariant Decides(vol.disk, vol.used, x, n, top, vol.Cap(), b, inode.Phys(b))
      decreases n.depth
    {
      var i := ScanIndex(n.idxs, b);
      FindStep(vol.disk, vol.used, x, n, i, top, vol.Cap(), b, inode.Phys(b));
      if i == 0 { return 0; }
      x, top := x.kids[i - 1].sub, vol.Cap();
      n := vol.disk[n.idxs[i - 1].leaf].node;
    }
    phys := ScanLeaf(n.exts, b);
  }

  ghost function EndOf(s: seq<Extent>): nat {
    if s == [] then 0 else s[|s| - 1].End()
  }

  lemma EndOfLast(kids: seq<Kid>, d: nat, cap: nat)
    requires kids != [] && KidsOk(kids, d, cap)
    ensures EndOf(FlatKids(kids)) == EndOf(Flat(kids[|kids| - 1].sub))
  {
    var i := |kids| - 1;
    FlatAround(kids, i);
    assert kids[i + 1..] == [];
    assert KidOk(kids[i], d, cap);
  }

  /** The logical end of the file is the end of its last extent. */
  method TreeEnd(vol: Volume, inode: Inode) returns (end: nat)
    requires inode.root.magic == EXTENT_MAGIC ==> inode.Ok(vol)
    ensures end == if inode.root.magic == EXTENT_MAGIC then EndOf(Flat(inode.tree)) else 0
  {
    var n := inode.root;
    if n.magic != EXTENT_MAGIC { return 0; }
    ghost var x, top := inode.tree, ROOT_MAX;
    RootLevel(vol, inode);
    while n.depth > 0
      invariant LevelOk(vol.disk, vol.used, x, n.depth, top, vol.Cap())
      invariant n == NodeOf(x, n.depth, top) && EndOf(Flat(x)) == EndOf(Flat(inode.tree))
      decreases n.depth
    {
      var i := |n.idxs| - 1;
      EndOfLast(x.kids, n.depth - 1, vol.Cap());
      KidLevel(vol.disk, vol.used, x.kids, i, n.depth, top, vol.Cap());
      x, top := x.kids[i].sub, vol.Cap();
      n := vol.disk[n.idxs[i].leaf].node;
    }
    end := if |n.exts| > 0 then (n.exts[|n.exts| - 1].block + n.exts[|n.exts| - 1].len) % U32 else 0;
  }

  // ----- accounting -------------------------------------------------------------------------

  function Wrap(x: int): nat { x % U32 }

  lemma WrapAdd(x: int, y: int)
    ensures Wrap(Wrap(x) + y) == Wrap(x + y)
  {
  }

  /** The node blocks gained are exactly the blocks allocated, and `i_blocks`
      counts their sectors. */
  ghost predicate NodesGained(t0: Tree, t1: Tree, used0: set<nat>, used1: set<nat>, ib0: nat, ib1: nat, spb: nat) {
    && used0 <= used1 && RefsGrow(t0, t1, used1 - used0)
    && ib1 == Wrap(ib0 + |used1 - used0| * spb)
  }

  lemma GainOne(t0: Tree, t1: Tree, t2: Tree, used0: set<nat>, used1: set<nat>, c: nat, ib0: nat, ib1: nat, spb: nat)
    requires NodesGained(t0, t1, used0, used1, ib0, ib1, spb) && c !in used1
    requires RefsGrow(t1, t2, {c})
    ensures NodesGained(t0, t2, used0, used1 + {c}, ib0, Wrap(ib1 + spb), spb)
  {
    var s := used1 - used0;
    assert (used1 + {c}) - used0 == s + {c};
    assert |s + {c}| == |s| + 1;
    assert (|s| + 1) * spb == |s| * spb + spb;
    WrapAdd(ib0 + |s| * spb, spb);
  }

  /** Blocks in use that are not nodes of this tree keep their contents. */
  ghost predicate OthersKept(disk0: Disk, disk1: Disk, used0: set<nat>, t0: Tree) {
    forall b :: b in used0 && b in disk0 && NodeRefs(t0, b) == 0 ==> b in disk1 && disk1[b] == disk0[b]
  }

  // ----- depth growth --------------------------------------------------------------------------

  ghost function Deeper(t: Tree, c: nat): Tree
    requires Flat(t) != []
  {
    Index([Kid(Flat(t)[0].block, c, t)])
  }

  lemma DeepenShape(disk: Disk, disk': Disk, t: Tree, c: nat, d: nat, cap: nat)
    requires WellFormed(t, d, cap) && Stored(disk, t, d, cap) && Flat(t) != [] && ROOT_MAX <= cap
    requires c > 0 && NodeRefs(t, c) == 0
    requires disk' == disk[c := NodeBlock(NodeOf(t, d, cap))]
    ensures WellFormed(Deeper(t, c), d + 1, cap) && Stored(disk', Deeper(t, c), d + 1, cap)
    ensures Flat(Deeper(t, c)) == Flat(t) && RefsGrow(t, Deeper(t, c), {c})
  {
    var k := Kid(Flat(t)[0].block, c, t);
    FlatOne(k);
    RefsOne(k);
    if t.Index? {
      assert AgreeOn(disk, disk', t.kids);
      StoredFrame(disk, disk', t.kids, d - 1, cap);
    }
    assert KidOk(k, d, cap);
    assert KidStored(disk', k, d, cap);
    assert KidsOk([k], d, cap) && KidsStored(disk', [k], d, cap);
  }

  lemma DeepenOk(disk: Disk, disk': Disk, used: set<nat>, root: Node, t: Tree, c: nat, cap: nat)
    requires TreeOk(disk, used, root, t, cap) && Flat(t) != [] && ROOT_MAX <= cap
    requires c > 0 && c !in used && disk' == disk[c := NodeBlock(root.(max := cap))]
    ensures TreeOk(disk', used + {c}, Node(EXTENT_MAGIC, ROOT_MAX, root.depth + 1, [], [Idx(FirstBlock(root), c)]),
                   Deeper(t, c), cap)
    ensures Flat(Deeper(t, c)) == Flat(t) && RefsGrow(t, Deeper(t, c), {c})
    ensures OthersKept(disk, disk', used, t)
  {
    assert Refs(t, c) == 0;
    FirstBlockIsFirst(t, root.depth, ROOT_MAX, cap, ROOT_MAX);
    DeepenShape(disk, disk', t, c, root.depth, cap);
    forall b ensures Refs(Deeper(t, c), b) == Refs(t, b) + In({c}, b) {
      assert NodeRefs(Deeper(t, c), b) == NodeRefs(t, b) + In({c}, b);
    }
  }

  /** Move the root's records into a fresh block and point the root at it: the
      map is the same, the tree one level deeper and one block larger. */
  method GrowDepth(vol: Volume, inode: Inode) returns (rc: int, ghost c: nat)
    requires vol.Valid() && inode.Ok(vol) && Flat(inode.tree) != []
    modifies vol, inode`root, inode`iblocks, inode`tree
    ensures vol.Valid() && inode.Ok(vol) && (rc == 0 || rc == -1)
    ensures rc == -1 ==> vol.Exhausted() && inode.tree == old(inode.tree) && inode.root == old(inode.root)
                         && inode.iblocks == old(inode.iblocks) && vol.used == old(vol.used)
                         && vol.disk == old(vol.disk)
    ensures rc == 0 ==> c !in old(vol.used) && vol.used == old(vol.used) + {c}
                        && inode.tree == Deeper(old(inode.tree), c)
                        && Flat(inode.tree) == old(Flat(inode.tree)) && RefsGrow(old(inode.tree), inode.tree, {c})
                        && inode.root.depth == old(inode.root.depth) + 1
                        && inode.iblocks == Wrap(old(inode.iblocks) + vol.Spb())
                        && OthersKept(old(vol.disk), vol.disk, old(vol.used), old(inode.tree))
  {
    var cblk := vol.AllocBlock();
    c := cblk;
    if cblk == 0 { return -1, c; }
    vol.WriteNode(cblk, inode.root.(max := vol.Cap()));
    DeepenOk(old(vol.disk), vol.disk, old(vol.used), inode.root, inode.tree, cblk, vol.Cap());
    inode.iblocks := Wrap(inode.iblocks + vol.Spb());
    inode.root := Node(EXTENT_MAGIC, ROOT_MAX, inode.root.depth + 1, [], [Idx(FirstBlock(inode.root), cblk)]);
    inode.tree := Deeper(inode.tree, cblk);
    rc := 0;
  }
}
