/** `ext4_extent_map`: inserting a run before the end of the file.  The map of
    the inode gains exactly the run, or on failure nothing; and the call fails
    exactly when the tree is too deep, the way to the leaf is crowded, or no
    block is free. */
module Ext4Map {
  import opened Ext4Extents
  import opened Ext4Tree
  import opened Ext4Volume
  import opened Ext4Levels
  import opened Ext4NodeBuf
  import opened Ext4ExtentOps
  import opened Ext4Insert

  /** What every insertion promises about the inode it returns on success. */
  ghost predicate Inserted(t0: Tree, t: Tree, block: nat, start: nat, len: nat) {
    Adds(Flat(t0), Flat(t), block, start, len) && UsesRun(Flat(t0), Flat(t), start, len)
  }

  /** Put the run into the leaf node `n`, which has room or coalesces, and write
      the node back unless it is the root. */
  method PutIntoLeaf(vol: Volume, n: Node, blk: nat, depth: nat, ghost x: Tree, lblk: nat, phys: nat, len: nat)
    returns (m: Node)
    requires vol.Contents() && RunOk(lblk, phys, len)
    requires AtLevel(vol.disk, vol.used, x, n, depth, depth, vol.Cap(), lblk, len)
    requires |n.exts| < Top(depth, vol.Cap()) || Coalesces(n.exts, lblk, phys, len)
    modifies vol`disk
    ensures vol.Contents() && (old(vol.Valid()) ==> vol.Valid())
    ensures Written(vol.disk, old(vol.disk), old(vol.disk), x, Leaf(Put(n.exts, lblk, phys, len)), m, blk,
                    depth, depth, vol.Cap(), lblk, phys, len, {})
  {
    var max := if depth == 0 then ROOT_MAX else vol.Cap();
    LeafGrows(vol.disk, n.exts, max, vol.Cap(), lblk, phys, len);
    var exts := PutRecords(n.exts, max, lblk, phys, len);
    m := n.(exts := exts);
    if depth > 0 {
      vol.WriteNode(blk, m);
    }
  }

  /** Carry a grown level `l` of the path up to the root and install the result. */
  method CarryUp(vol: Volume, inode: Inode, pblk: seq<nat>, phdr: seq<Node>, pidx: seq<nat>, l: nat, m: Node,
                 always: bool,
                 ghost subs: seq<Tree>, ghost disk0: Disk, ghost used0: set<nat>, ghost gd: Disk, ghost y: Tree,
                 ghost lblk: nat, ghost phys: nat, ghost len: nat, ghost added: set<nat>)
    requires vol.Contents() && RunOk(lblk, phys, len) && added !! used0 && vol.used == used0 + added
    requires TreeOk(disk0, used0, inode.root, inode.tree, vol.Cap()) && RunFree(inode.tree, used0, phys, len)
    requires PathTo(disk0, used0, subs, pidx, pblk, phdr, inode.root.depth, inode.root.depth, vol.Cap(), lblk, len)
    requires subs[0] == inode.tree && l <= inode.root.depth
    requires Written(vol.disk, disk0, gd, subs[l], y, m, pblk[l], l, inode.root.depth, vol.Cap(), lblk, phys, len,
                     added)
    modifies vol`disk, inode`root, inode`tree
    ensures vol.Contents() && (old(vol.Valid()) ==> vol.Valid()) && inode.Ok(vol)
    ensures inode.root.depth == old(inode.root.depth)
    ensures Inserted(old(inode.tree), inode.tree, lblk, phys, len) && RefsGrow(old(inode.tree), inode.tree, added)
    ensures OthersKept(disk0, vol.disk, used0, old(inode.tree))
  {
    var root;
    ghost var t;
    root, t := Propagate(vol, pblk, phdr, pidx, l, m, always, subs, disk0, used0, gd, y, lblk, phys, len, added);
    GrownOk(disk0, vol.disk, used0, inode.root, inode.tree, root, t, vol.Cap(), lblk, phys, len, added);
    inode.root := root;
    inode.tree := t;
  }

  /** The leaf at the end of the path takes the run without a new node. */
  method InsertHere(vol: Volume, inode: Inode, pblk: seq<nat>, phdr: seq<Node>, pidx: seq<nat>,
                    ghost subs: seq<Tree>, lblk: nat, phys: nat, len: nat)
    requires vol.Contents() && inode.Ok(vol) && RunOk(lblk, phys, len) && RunFree(inode.tree, vol.used, phys, len)
    requires PathTo(vol.disk, vol.used, subs, pidx, pblk, phdr, inode.root.depth, inode.root.depth, vol.Cap(), lblk,
                    len)
    requires subs[0] == inode.tree
    requires |phdr[inode.root.depth].exts| < Top(inode.root.depth, vol.Cap())
             || Coalesces(phdr[inode.root.depth].exts, lblk, phys, len)
    modifies vol`disk, inode`root, inode`tree
    ensures vol.Contents() && (old(vol.Valid()) ==> vol.Valid()) && inode.Ok(vol)
    ensures inode.root.depth == old(inode.root.depth)
    ensures Inserted(old(inode.tree), inode.tree, lblk, phys, len) && RefsGrow(old(inode.tree), inode.tree, {})
    ensures OthersKept(old(vol.disk), vol.disk, vol.used, old(inode.tree))
  {
    var depth := inode.root.depth;
    ghost var disk0 := vol.disk;
    var lh := PutIntoLeaf(vol, phdr[depth], pblk[depth], depth, subs[depth], lblk, phys, len);
    CarryUp(vol, inode, pblk, phdr, pidx, depth, lh, false, subs, disk0, vol.used, disk0,
            Leaf(Put(phdr[depth].exts, lblk, phys, len)), lblk, phys, len, {});
  }

  /** The parent's tree after its child `i` is split at `half`. */
  ghost function SplitAt(x: Tree, i: nat, half: nat, nb: nat, block: nat, start: nat, len: nat): Tree
    requires x.Index? && i < |x.kids| && x.kids[i].sub.Leaf? && half < |x.kids[i].sub.exts|
    requires LeftHalf(x.kids[i].sub.exts, half, block, start, len) != []
    requires RightHalf(x.kids[i].sub.exts, half, block, start, len) != []
  {
    var l := LeftHalf(x.kids[i].sub.exts, half, block, start, len);
    var r := RightHalf(x.kids[i].sub.exts, half, block, start, len);
    Index(Swap(x.kids, i, [Kid(l[0].block, x.kids[i].blk, Leaf(l)), Kid(r[0].block, nb, Leaf(r))]))
  }

  /** The disk holds both halves, and nothing else of it changed. */
  ghost predicate Halved(disk0: Disk, disk: Disk, k: Kid, l: Node, r: Node, nb: nat) {
    && k.blk in disk && disk[k.blk] == NodeBlock(l) && nb in disk && disk[nb] == NodeBlock(r)
    && TouchesKid(disk0, disk, k, {nb})
  }

  /** Writing both halves of a leaf and entering them in the parent grows the
      parent by the run and by one node block. */
  lemma SplitLevel(disk0: Disk, disk: Disk, used: set<nat>, x: Tree, n: Node, i: nat, l: Node, r: Node, nb: nat,
                   half: nat, d: nat, cap: nat, block: nat, start: nat, len: nat)
    requires 1 <= d && AtLevel(disk0, used, x, n, d - 1, d, cap, block, len) && Bound(x, i, block, len)
    requires x.kids[i].sub.Leaf? && 1 <= half < |x.kids[i].sub.exts| <= cap && |x.kids| < Top(d - 1, cap)
    requires nb !in used && nb > 0 && RunOk(block, start, len)
    requires l == NodeOf(Leaf(LeftHalf(x.kids[i].sub.exts, half, block, start, len)), 0, cap)
    requires r == NodeOf(Leaf(RightHalf(x.kids[i].sub.exts, half, block, start, len)), 0, cap)
    requires Halved(disk0, disk, x.kids[i], l, r, nb)
    ensures l.exts != [] && r.exts != [] && |n.idxs| == |x.kids|
    ensures Grown(disk0, disk, x, SplitAt(x, i, half, nb, block, start, len), 1, Top(d - 1, cap), cap, block, start,
                  len, {nb})
    ensures NodeOf(SplitAt(x, i, half, nb, block, start, len), 1, Top(d - 1, cap)) ==
            n.(idxs := IdxInsert(n.idxs[i := n.idxs[i].(key := FirstBlock(l))], Idx(FirstBlock(r), nb)))
  {
    KidLevel(disk0, used, x.kids, i, 1, Top(d - 1, cap), cap);
    GuideFits(x.kids, i, block, len, 0, cap);
    SplitGrows(disk0, disk, x.kids[i], nb, half, cap, block, start, len);
    ReadyFrom(disk0, used, x.kids, i, 0, Top(d - 1, cap), cap, block, len, {nb});
    var kl, kr := Kid(l.exts[0].block, x.kids[i].blk, Leaf(l.exts)), Kid(r.exts[0].block, nb, Leaf(r.exts));
    LevelUp(disk0, disk, x.kids, i, [kl, kr], 0, Top(d - 1, cap), cap, block, start, len, {nb});
    SplitEntries(x.kids, i, kl, kr, 0, cap);
  }

  /** Halve the records of leaf `n` and put the run into the half it belongs to. */
  method HalveLeaf(n: Node, cap: nat, lblk: nat, phys: nat, len: nat) returns (l: Node, r: Node)
    requires 2 <= |n.exts| <= cap && n.max == cap && n.depth == 0 && n.idxs == [] && n.magic == EXTENT_MAGIC
    ensures l == NodeOf(Leaf(LeftHalf(n.exts, |n.exts| / 2, lblk, phys, len)), 0, cap)
    ensures r == NodeOf(Leaf(RightHalf(n.exts, |n.exts| / 2, lblk, phys, len)), 0, cap)
  {
    var half := |n.exts| / 2;
    var le, re := n.exts[..half], n.exts[half..];
    if lblk < re[0].block {
      le := PutRecords(le, cap, lblk, phys, len);
    } else {
      re := PutRecords(re, cap, lblk, phys, len);
    }
    l := n.(exts := le);
    r := Node(EXTENT_MAGIC, cap, 0, re, []);
  }

  /** Split the full leaf `lf` below node `n`: its upper half moves to block `nb`,
      which is entered in `n`; both leaves and `n` (unless it is the root) are
      written. */
  method SplitLeaf(vol: Volume, n: Node, i: nat, lf: Node, blk: nat, pblk: nat, nb: nat, depth: nat,
                   lblk: nat, phys: nat, len: nat, ghost disk0: Disk, ghost used0: set<nat>, ghost x: Tree)
    returns (m: Node, ghost gd: Disk)
    requires vol.Contents() && RunOk(lblk, phys, len) && 2 <= vol.Cap() && 1 <= depth
    requires AtLevel(disk0, used0, x, n, depth - 1, depth, vol.Cap(), lblk, len) && Bound(x, i, lblk, len)
    requires x.kids[i].sub.Leaf? && x.kids[i].blk == blk && lf == NodeOf(x.kids[i].sub, 0, vol.Cap())
    requires |lf.exts| >= vol.Cap() && |n.idxs| < Top(depth - 1, vol.Cap())
    requires nb > 0 && nb !in used0 && vol.disk == disk0[nb := DataBlock(seq(vol.blockSize, _ => 0))]
    modifies vol`disk
    ensures vol.Contents() && (old(vol.Valid()) ==> vol.Valid())
    ensures 1 <= |lf.exts| / 2 < |lf.exts| && LeftHalf(lf.exts, |lf.exts| / 2, lblk, phys, len) != []
            && RightHalf(lf.exts, |lf.exts| / 2, lblk, phys, len) != []
    ensures Written(vol.disk, disk0, gd, x, SplitAt(x, i, |lf.exts| / 2, nb, lblk, phys, len), m, pblk,
                    depth - 1, depth, vol.Cap(), lblk, phys, len, {nb})
  {
    KidLevel(disk0, used0, x.kids, i, 1, Top(depth - 1, vol.Cap()), vol.Cap());
    var l, r := HalveLeaf(lf, vol.Cap(), lblk, phys, len);
    vol.WriteNode(blk, l);
    vol.WriteNode(nb, r);
    gd := vol.disk;
    SplitLevel(disk0, gd, used0, x, n, i, l, r, nb, |lf.exts| / 2, depth, vol.Cap(), lblk, phys, len);
    AddsSomething(Flat(x), Flat(SplitAt(x, i, |lf.exts| / 2, nb, lblk, phys, len)), lblk, phys, len);
    var idxs := PutEntry(n.idxs[i := n.idxs[i].(key := FirstBlock(l))], |n.idxs| + 1, FirstBlock(r), nb);
    m := n.(idxs := idxs);
    if depth - 1 > 0 {
      vol.WriteNode(pblk, m);
    }
  }

  /** Split the full leaf at the end of the path, whose parent has room, and
      carry the change up to the root. */
  method SplitInsert(vol: Volume, inode: Inode, pblk: seq<nat>, phdr: seq<Node>, pidx: seq<nat>,
                     ghost subs: seq<Tree>, lblk: nat, phys: nat, len: nat, nb: nat,
                     ghost disk0: Disk, ghost used0: set<nat>)
    requires vol.Contents() && RunOk(lblk, phys, len) && 2 <= vol.Cap()
    requires inode.root.depth >= 1 && TreeOk(disk0, used0, inode.root, inode.tree, vol.Cap())
    requires RunFree(inode.tree, used0, phys, len)
    requires PathTo(disk0, used0, subs, pidx, pblk, phdr, inode.root.depth, inode.root.depth, vol.Cap(), lblk, len)
    requires subs[0] == inode.tree
    requires |phdr[inode.root.depth].exts| >= vol.Cap()
    requires |phdr[inode.root.depth - 1].idxs| < Top(inode.root.depth - 1, vol.Cap())
    requires nb > 0 && nb !in used0 && vol.used == used0 + {nb}
    requires vol.disk == disk0[nb := DataBlock(seq(vol.blockSize, _ => 0))]
    modifies vol`disk, inode`root, inode`tree
    ensures vol.Contents() && (old(vol.Valid()) ==> vol.Valid()) && inode.Ok(vol)
    ensures inode.root.depth == old(inode.root.depth)
    ensures Inserted(old(inode.tree), inode.tree, lblk, phys, len) && RefsGrow(old(inode.tree), inode.tree, {nb})
    ensures OthersKept(disk0, vol.disk, used0, old(inode.tree))
  {
    var depth := inode.root.depth;
    ghost var x := subs[depth - 1];
    assert Link(x, pidx[depth - 1], subs[depth], pblk[depth], lblk, len);
    assert AtLevel(disk0, used0, x, phdr[depth - 1], depth - 1, depth, vol.Cap(), lblk, len);
    assert AtLevel(disk0, used0, subs[depth], phdr[depth], depth, depth, vol.Cap(), lblk, len);
    var m;
    ghost var gd;
    m, gd := SplitLeaf(vol, phdr[depth - 1], pidx[depth - 1], phdr[depth], pblk[depth], pblk[depth - 1], nb, depth,
                       lblk, phys, len, disk0, used0, x);
    CarryUp(vol, inode, pblk, phdr, pidx, depth - 1, m, true, subs, disk0, used0, gd,
            SplitAt(x, pidx[depth - 1], |phdr[depth].exts| / 2, nb, lblk, phys, len), lblk, phys, len, {nb});
  }

  // ----- the whole operation --------------------------------------------------------------------

  lemma DeeperCrowded(t: Tree, c: nat, cap: nat, block: nat, start: nat, len: nat)
    requires Flat(t) != [] && 2 <= cap
    ensures Crowded(Deeper(t, c), cap, block, start, len) <==> Crowded(t, cap, block, start, len)
  {
  }

  lemma DeeperRunFree(t: Tree, c: nat, used: set<nat>, start: nat, len: nat)
    requires Flat(t) != [] && RunFree(t, used, start, len) && c !in used && Flat(Deeper(t, c)) == Flat(t)
    requires RefsGrow(t, Deeper(t, c), {c})
    ensures RunFree(Deeper(t, c), used + {c}, start, len)
  {
    forall b | InRun(start, len, b) > 0 ensures b in used + {c} && Refs(Deeper(t, c), b) == 0 {
      assert Refs(t, b) == 0;
    }
  }

  lemma KeptTrans(disk0: Disk, disk1: Disk, disk2: Disk, used0: set<nat>, used1: set<nat>, t0: Tree, t1: Tree)
    requires OthersKept(disk0, disk1, used0, t0) && OthersKept(disk1, disk2, used1, t1)
    requires used0 <= used1 && RefsGrow(t0, t1, used1 - used0)
    ensures OthersKept(disk0, disk2, used0, t0)
  {
    forall b | b in used0 && b in disk0 && NodeRefs(t0, b) == 0 ensures b in disk2 && disk2[b] == disk0[b] {
      assert NodeRefs(t1, b) == 0;
    }
  }

  /** Everything an operation keeps while it only deepens the tree. */
  ghost predicate Deepened(t0: Tree, t: Tree, used0: set<nat>, used: set<nat>, disk0: Disk, disk: Disk,
                           ib0: nat, ib: nat, spb: nat)
  {
    && Flat(t) == Flat(t0) && NodesGained(t0, t, used0, used, ib0, ib, spb)
    && OthersKept(disk0, disk, used0, t0)
  }

  lemma DeepenedMore(t0: Tree, t: Tree, c: nat, used0: set<nat>, used: set<nat>, disk0: Disk, disk: Disk, disk': Disk,
                     ib0: nat, ib: nat, spb: nat)
    requires Deepened(t0, t, used0, used, disk0, disk, ib0, ib, spb) && Flat(t) != [] && c !in used
    requires Flat(Deeper(t, c)) == Flat(t) && RefsGrow(t, Deeper(t, c), {c}) && OthersKept(disk, disk', used, t)
    ensures Deepened(t0, Deeper(t, c), used0, used + {c}, disk0, disk', ib0, Wrap(ib + spb), spb)
  {
    GainOne(t0, t, Deeper(t, c), used0, used, c, ib0, ib, spb);
    KeptTrans(disk0, disk, disk', used0, used, t0, t);
  }

  /** The run has no way into the tree: the tree is as deep as it may be, or the leaf for the run and the index node
      above that leaf are both full, as they stay however often the root is moved down. */
  ghost predicate Stuck(t: Tree, d: nat, cap: nat, block: nat, start: nat, len: nat) {
    d + 1 >= PATH_MAX || Crowded(t, cap, block, start, len)
  }

  datatype Outcome = Done | NeedsDepth | NoBlock | TooDeep

  lemma GainNone(t: Tree, t': Tree, used: set<nat>, ib: nat, spb: nat)
    requires RefsGrow(t, t', {}) && ib < U32
    ensures NodesGained(t, t', used, used, ib, ib, spb)
  {
    assert used - used == {};
  }

  lemma GainSplit(t: Tree, t': Tree, used: set<nat>, nb: nat, ib: nat, spb: nat)
    requires RefsGrow(t, t', {nb}) && nb !in used && ib < U32
    ensures NodesGained(t, t', used, used + {nb}, ib, Wrap(ib + spb), spb)
  {
    assert (used + {nb}) - used == {nb};
  }

  /** Whether the walk found the way crowded is decided at its last two nodes. */
  lemma CrowdAtEnd(disk: Disk, used: set<nat>, subs: seq<Tree>, pidx: seq<nat>, pblk: seq<nat>, phdr: seq<Node>,
                   d: nat, cap: nat, block: nat, start: nat, len: nat)
    requires PathTo(disk, used, subs, pidx, pblk, phdr, d, d, cap, block, len) && d >= 1
    requires SameCrowd(subs, d, d, cap, block, start, len)
    requires phdr[d - 1].idxs != [] && pidx[d - 1] == GuideFrom(phdr[d - 1].idxs, block, 0)
    ensures Crowded(subs[0], cap, block, start, len) <==>
            |phdr[d - 1].idxs| >= cap && |phdr[d].exts| >= cap && !Coalesces(phdr[d].exts, block, start, len)
  {
    assert AtLevel(disk, used, subs[d - 1], phdr[d - 1], d - 1, d, cap, block, len);
    assert AtLevel(disk, used, subs[d], phdr[d], d, d, cap, block, len);
    assert Link(subs[d - 1], pidx[d - 1], subs[d], pblk[d], block, len);
    CrowdStep(disk, used, subs[d - 1], phdr[d - 1], d - 1, d, cap, block, start, len, pidx[d - 1]);
  }

  /** The run is in the tree and every block is accounted for. */
  ghost predicate Mapped(t0: Tree, t: Tree, used0: set<nat>, used: set<nat>, disk0: Disk, disk: Disk,
                         ib0: nat, ib: nat, spb: nat, block: nat, start: nat, len: nat)
  {
    && Inserted(t0, t, block, start, len) && NodesGained(t0, t, used0, used, ib0, ib, spb)
    && OthersKept(disk0, disk, used0, t0)
  }

  /** Split the full leaf if a block can be had for its upper half. */
  method TrySplit(vol: Volume, inode: Inode, pblk: seq<nat>, phdr: seq<Node>, pidx: seq<nat>,
                  ghost subs: seq<Tree>, lblk: nat, phys: nat, len: nat) returns (ok: bool)
    requires vol.Valid() && inode.Ok(vol) && inode.iblocks < U32 && inode.root.depth >= 1
    requires RunOk(lblk, phys, len) && RunFree(inode.tree, vol.used, phys, len)
    requires PathTo(vol.disk, vol.used, subs, pidx, pblk, phdr, inode.root.depth, inode.root.depth, vol.Cap(), lblk,
                    len)
    requires subs[0] == inode.tree
    requires |phdr[inode.root.depth].exts| >= vol.Cap()
    requires |phdr[inode.root.depth - 1].idxs| < Top(inode.root.depth - 1, vol.Cap())
    modifies vol, inode`root, inode`iblocks, inode`tree
    ensures vol.Valid() && inode.Ok(vol) && inode.root.depth == old(inode.root.depth) && inode.iblocks < U32
    ensures ok ==> Mapped(old(inode.tree), inode.tree, old(vol.used), vol.used, old(vol.disk), vol.disk,
                          old(inode.iblocks), inode.iblocks, vol.Spb(), lblk, phys, len)
    ensures !ok ==> vol.Exhausted() && inode.tree == old(inode.tree) && inode.iblocks == old(inode.iblocks)
                    && inode.root == old(inode.root) && vol.used == old(vol.used) && vol.disk == old(vol.disk)
  {
    ghost var disk0, used0, t0 := vol.disk, vol.used, inode.tree;
    var nb := vol.AllocBlock();
    if nb == 0 { return false; }
    SplitInsert(vol, inode, pblk, phdr, pidx, subs, lblk, phys, len, nb, disk0, used0);
    GainSplit(t0, inode.tree, used0, nb, inode.iblocks, vol.Spb());
    inode.iblocks := Wrap(inode.iblocks + vol.Spb());
    return true;
  }

  /** What one pass of the loop leaves behind. */
  ghost predicate AttemptResult(r: Outcome, t0: Tree, root: Node, cap: nat, block: nat, start: nat, len: nat) {
    && (r == TooDeep <==> root.depth + 1 >= PATH_MAX)
    && (r == Done ==> !Crowded(t0, cap, block, start, len))
    && (r == NeedsDepth ==> Flat(t0) != [] && (root.depth == 1 ==> |root.idxs| == ROOT_MAX)
                            && (root.depth >= 2 ==> Crowded(t0, cap, block, start, len)))
  }

  /** What the end of the path says about the attempt. */
  lemma AttemptDecided(disk: Disk, used: set<nat>, subs: seq<Tree>, pidx: seq<nat>, pblk: seq<nat>, phdr: seq<Node>,
                       d: nat, cap: nat, block: nat, start: nat, len: nat)
    requires PathTo(disk, used, subs, pidx, pblk, phdr, d, d, cap, block, len) && d + 1 < PATH_MAX && ROOT_MAX < cap
    requires SameCrowd(subs, d, d, cap, block, start, len)
    requires d >= 1 ==> phdr[d - 1].idxs != [] && pidx[d - 1] == GuideFrom(phdr[d - 1].idxs, block, 0)
    ensures var takes := |phdr[d].exts| < Top(d, cap) || Coalesces(phdr[d].exts, block, start, len);
            && (takes ==> AttemptResult(Done, subs[0], phdr[0], cap, block, start, len))
            && (!takes && d == 0 ==> AttemptResult(NeedsDepth, subs[0], phdr[0], cap, block, start, len))
            && (!takes && d > 0 ==>
                  if |phdr[d - 1].idxs| >= Top(d - 1, cap)
                  then AttemptResult(NeedsDepth, subs[0], phdr[0], cap, block, start, len)
                  else AttemptResult(Done, subs[0], phdr[0], cap, block, start, len))
  {
    assert AtLevel(disk, used, subs[0], phdr[0], 0, d, cap, block, len);
    if d >= 1 {
      CrowdAtEnd(disk, used, subs, pidx, pblk, phdr, d, cap, block, start, len);
      KidLevel(disk, used, subs[0].kids, 0, d, ROOT_MAX, cap);
      FlatHead(subs[0].kids, d - 1, cap);
    }
  }

  /** One pass of the loop: insert if the tree as it stands can take the run. */
  method Attempt(vol: Volume, inode: Inode, lblk: nat, phys: nat, len: nat) returns (r: Outcome)
    requires vol.Valid() && inode.Ok(vol) && inode.iblocks < U32
    requires RunOk(lblk, phys, len) && RunFree(inode.tree, vol.used, phys, len) && Unmapped(Flat(inode.tree), lblk, len)
    modifies vol, inode`root, inode`iblocks, inode`tree
    ensures vol.Valid() && inode.Ok(vol) && inode.root.depth == old(inode.root.depth) && inode.iblocks < U32
    ensures r == Done ==> Mapped(old(inode.tree), inode.tree, old(vol.used), vol.used, old(vol.disk), vol.disk,
                                 old(inode.iblocks), inode.iblocks, vol.Spb(), lblk, phys, len)
    ensures r != Done ==> inode.tree == old(inode.tree) && inode.iblocks == old(inode.iblocks)
                          && inode.root == old(inode.root) && vol.used == old(vol.used) && vol.disk == old(vol.disk)
    ensures r == NoBlock ==> vol.Exhausted()
    ensures AttemptResult(r, old(inode.tree), old(inode.root), vol.Cap(), lblk, phys, len)
  {
    var depth := inode.root.depth;
    if depth + 1 >= PATH_MAX { return TooDeep; }
    var pblk, phdr, pidx;
    ghost var subs;
    pblk, phdr, pidx, subs := WalkTo(vol, inode, lblk, phys, len);
    AttemptDecided(vol.disk, vol.used, subs, pidx, pblk, phdr, depth, vol.Cap(), lblk, phys, len);
    var leafMax := if depth == 0 then ROOT_MAX else vol.Cap();
    if |phdr[depth].exts| < leafMax || Coalesces(phdr[depth].exts, lblk, phys, len) {
      ghost var t0 := inode.tree;
      InsertHere(vol, inode, pblk, phdr, pidx, subs, lblk, phys, len);
      GainNone(t0, inode.tree, vol.used, inode.iblocks, vol.Spb());
      return Done;
    }
    if depth == 0 { return NeedsDepth; }
    var parMax := if depth == 1 then ROOT_MAX else vol.Cap();
    if |phdr[depth - 1].idxs| >= parMax { return NeedsDepth; }
    var ok := TrySplit(vol, inode, pblk, phdr, pidx, subs, lblk, phys, len);
    return if ok then Done else NoBlock;
  }

  /** Where the loop stands after `attempt` growths: nothing but depth gained, and
      a second growth happens only on a crowded way. */
  ghost predicate Retrying(attempt: nat, t0: Tree, d0: nat, t: Tree, root: Node, used: set<nat>, cap: nat,
                           block: nat, start: nat, len: nat)
  {
    && root.depth == d0 + attempt && RunFree(t, used, start, len)
    && (Crowded(t, cap, block, start, len) <==> Crowded(t0, cap, block, start, len))
    && (attempt > 0 && !Crowded(t0, cap, block, start, len) ==> attempt == 1 && d0 <= 1 && |root.idxs| == 1)
    && (attempt > 0 ==> d0 + 1 < PATH_MAX)
  }

  lemma RetryAgain(attempt: nat, t0: Tree, d0: nat, t: Tree, root: Node, root': Node, c: nat, used: set<nat>, cap: nat,
                   block: nat, start: nat, len: nat)
    requires Retrying(attempt, t0, d0, t, root, used, cap, block, start, len) && 2 <= cap && c !in used
    requires AttemptResult(NeedsDepth, t, root, cap, block, start, len)
    requires root'.depth == root.depth + 1 && |root'.idxs| == 1
    requires Flat(Deeper(t, c)) == Flat(t) && RefsGrow(t, Deeper(t, c), {c})
    ensures Retrying(attempt + 1, t0, d0, Deeper(t, c), root', used + {c}, cap, block, start, len)
  {
    DeeperRunFree(t, c, used, start, len);
    DeeperCrowded(t, c, cap, block, start, len);
  }

  /** An attempt that ends the loop decides whether the tree was stuck. */
  lemma RetryEnds(attempt: nat, r: Outcome, t0: Tree, d0: nat, t: Tree, root: Node, used: set<nat>, cap: nat,
                  block: nat, start: nat, len: nat)
    requires Retrying(attempt, t0, d0, t, root, used, cap, block, start, len)
    requires AttemptResult(r, t, root, cap, block, start, len)
    ensures r == Done ==> !Stuck(t0, d0, cap, block, start, len)
    ensures r == TooDeep ==> Stuck(t0, d0, cap, block, start, len)
  {
  }

  /** Insert the run [lblk, lblk + len) -> phys.  On success the map of the inode is
      the old one extended by exactly the run; on failure it is the old one.
      In every case the node blocks gained are the blocks allocated.  With two
      blocks free before it, the call succeeds exactly when the tree is not stuck:
      a call that fails otherwise took at most one block and left none free. */
  method ExtentMap(vol: Volume, inode: Inode, lblk: nat, phys: nat, len: nat) returns (rc: int)
    requires vol.Valid() && inode.iblocks < U32 && (inode.root.magic == EXTENT_MAGIC ==> inode.Ok(vol))
    requires 1 <= len <= MAX_LEN ==> RunOk(lblk, phys, len)
    requires RunFree(inode.tree, vol.used, phys, len) && Unmapped(Flat(inode.tree), lblk, len)
    modifies vol, inode`root, inode`iblocks, inode`tree
    ensures vol.Valid() && inode.iblocks < U32 && (rc == 0 || rc == -1)
    ensures inode.root.magic == old(inode.root.magic) && (inode.root.magic == EXTENT_MAGIC ==> inode.Ok(vol))
    ensures rc == 0 ==> Mapped(old(inode.tree), inode.tree, old(vol.used), vol.used, old(vol.disk), vol.disk,
                               old(inode.iblocks), inode.iblocks, vol.Spb(), lblk, phys, len)
    ensures rc == -1 ==> Deepened(old(inode.tree), inode.tree, old(vol.used), vol.used, old(vol.disk), vol.disk,
                                  old(inode.iblocks), inode.iblocks, vol.Spb())
    ensures old(inode.root.magic) != EXTENT_MAGIC || len == 0 || len > MAX_LEN ==> rc == -1
    ensures old(Stuck(inode.tree, inode.root.depth, vol.Cap(), lblk, phys, len)) ==> rc == -1
    ensures rc == -1 && old(inode.root.magic) == EXTENT_MAGIC && 1 <= len <= MAX_LEN ==>
              old(Stuck(inode.tree, inode.root.depth, vol.Cap(), lblk, phys, len))
              || (vol.Exhausted() && |vol.used - old(vol.used)| <= 1)
    ensures rc == -1 && old(inode.root.magic) == EXTENT_MAGIC && 1 <= len <= MAX_LEN ==>
              inode.root.depth + 1 >= PATH_MAX || vol.Exhausted()
  {
    ghost var t0, d0, ib0, used0, disk0 := inode.tree, inode.root.depth, inode.iblocks, vol.used, vol.disk;
    GainNone(t0, t0, used0, ib0, vol.Spb());
    if inode.root.magic != EXTENT_MAGIC || len == 0 || len > MAX_LEN { return -1; }
    var attempt := 0;
    while attempt < 8
      invariant attempt <= 8 && vol.Valid() && inode.Ok(vol) && inode.iblocks < U32
      invariant Deepened(t0, inode.tree, used0, vol.used, disk0, vol.disk, ib0, inode.iblocks, vol.Spb())
      invariant Retrying(attempt, t0, d0, inode.tree, inode.root, vol.used, vol.Cap(), lblk, phys, len)
      invariant |vol.used - used0| <= attempt
    {
      var more;
      rc, more := Pass(vol, inode, lblk, phys, len, attempt, t0, d0, ib0, used0, disk0);
      if !more { return; }
      attempt := attempt + 1;
    }
    rc := -1;
  }

  /** One pass: an attempt and, when it needs depth, a growth. */
  method Pass(vol: Volume, inode: Inode, lblk: nat, phys: nat, len: nat, ghost attempt: nat,
              ghost t0: Tree, ghost d0: nat, ghost ib0: nat, ghost used0: set<nat>, ghost disk0: Disk)
    returns (rc: int, more: bool)
    requires vol.Valid() && inode.Ok(vol) && inode.iblocks < U32
    requires RunOk(lblk, phys, len) && Unmapped(Flat(inode.tree), lblk, len)
    requires Deepened(t0, inode.tree, used0, vol.used, disk0, vol.disk, ib0, inode.iblocks, vol.Spb())
    requires Retrying(attempt, t0, d0, inode.tree, inode.root, vol.used, vol.Cap(), lblk, phys, len)
    requires |vol.used - used0| <= attempt
    modifies vol, inode`root, inode`iblocks, inode`tree
    ensures vol.Valid() && inode.Ok(vol) && inode.iblocks < U32 && (rc == 0 || rc == -1)
    ensures rc == 0 ==> !more && Mapped(t0, inode.tree, used0, vol.used, disk0, vol.disk,
                                        ib0, inode.iblocks, vol.Spb(), lblk, phys, len)
                        && !Stuck(t0, d0, vol.Cap(), lblk, phys, len)
    ensures rc == -1 ==> Deepened(t0, inode.tree, used0, vol.used, disk0, vol.disk, ib0, inode.iblocks, vol.Spb())
    ensures rc == -1 && !more ==>
              vol.Exhausted() || (Stuck(t0, d0, vol.Cap(), lblk, phys, len) && inode.root.depth + 1 >= PATH_MAX)
    ensures rc == -1 && !more ==>
              |vol.used - used0| <= attempt && (attempt <= 1 || Stuck(t0, d0, vol.Cap(), lblk, phys, len))
    ensures more ==> Retrying(attempt + 1, t0, d0, inode.tree, inode.root, vol.used, vol.Cap(), lblk, phys, len)
                     && |vol.used - used0| <= attempt + 1
  {
    ghost var t1, ib1, used1, disk1, root1 := inode.tree, inode.iblocks, vol.used, vol.disk, inode.root;
    var r := Attempt(vol, inode, lblk, phys, len);
    RetryEnds(attempt, r, t0, d0, t1, root1, used1, vol.Cap(), lblk, phys, len);
    if r == Done {
      MappedAfter(t0, t1, inode.tree, used0, used1, vol.used, disk0, disk1, vol.disk, ib0, ib1, inode.iblocks,
                  vol.Spb(), lblk, phys, len);
      return 0, false;
    }
    if r != NeedsDepth { return -1, false; }
    more := GrowAgain(vol, inode, lblk, phys, len, attempt, t0, d0, ib0, used0, disk0);
    return -1, more;
  }

  lemma GainedOne(used0: set<nat>, used: set<nat>, c: nat)
    ensures |(used + {c}) - used0| <= |used - used0| + 1
  {
    if c in used || c in used0 {
      assert (used + {c}) - used0 == used - used0;
    } else {
      assert (used + {c}) - used0 == (used - used0) + {c};
    }
  }

  /** Deepen the tree for the next attempt. */
  method GrowAgain(vol: Volume, inode: Inode, ghost lblk: nat, ghost phys: nat, ghost len: nat, ghost attempt: nat,
                   ghost t0: Tree, ghost d0: nat, ghost ib0: nat, ghost used0: set<nat>, ghost disk0: Disk)
    returns (ok: bool)
    requires vol.Valid() && inode.Ok(vol) && inode.iblocks < U32
    requires Deepened(t0, inode.tree, used0, vol.used, disk0, vol.disk, ib0, inode.iblocks, vol.Spb())
    requires Retrying(attempt, t0, d0, inode.tree, inode.root, vol.used, vol.Cap(), lblk, phys, len)
    requires AttemptResult(NeedsDepth, inode.tree, inode.root, vol.Cap(), lblk, phys, len)
    requires |vol.used - used0| <= attempt
    modifies vol, inode`root, inode`iblocks, inode`tree
    ensures vol.Valid() && inode.Ok(vol) && inode.iblocks < U32
    ensures |vol.used - used0| <= if ok then attempt + 1 else attempt
    ensures Deepened(t0, inode.tree, used0, vol.used, disk0, vol.disk, ib0, inode.iblocks, vol.Spb())
    ensures !ok ==> vol.Exhausted()
    ensures ok ==> Retrying(attempt + 1, t0, d0, inode.tree, inode.root, vol.used, vol.Cap(), lblk, phys, len)
  {
    ghost var t1, ib1, used1, disk1, root1 := inode.tree, inode.iblocks, vol.used, vol.disk, inode.root;
    var g;
    ghost var c;
    g, c := GrowDepth(vol, inode);
    if g < 0 { return false; }
    GainedOne(used0, used1, c);
    assert Deepened(t0, inode.tree, used0, vol.used, disk0, vol.disk, ib0, inode.iblocks, vol.Spb()) by {
      DeepenedMore(t0, t1, c, used0, used1, disk0, disk1, vol.disk, ib0, ib1, vol.Spb());
    }
    assert Retrying(attempt + 1, t0, d0, inode.tree, inode.root, vol.used, vol.Cap(), lblk, phys, len) by {
      RetryAgain(attempt, t0, d0, t1, root1, inode.root, c, used1, vol.Cap(), lblk, phys, len);
    }
    return true;
  }

  lemma GainBoth(t0: Tree, t1: Tree, t2: Tree, used0: set<nat>, used1: set<nat>, used2: set<nat>,
                 ib0: nat, ib1: nat, ib2: nat, spb: nat)
    requires NodesGained(t0, t1, used0, used1, ib0, ib1, spb) && NodesGained(t1, t2, used1, used2, ib1, ib2, spb)
    ensures NodesGained(t0, t2, used0, used2, ib0, ib2, spb)
  {
    var s, r := used1 - used0, used2 - used1;
    assert used2 - used0 == s + r && s !! r;
    SectorsAdd(ib0, |s|, |r|, spb);
    RefsGrowBoth(t0, t1, t2, s, r);
  }

  lemma RefsGrowBoth(t0: Tree, t1: Tree, t2: Tree, s: set<nat>, r: set<nat>)
    requires RefsGrow(t0, t1, s) && RefsGrow(t1, t2, r) && s !! r
    ensures RefsGrow(t0, t2, s + r)
  {
    forall b ensures NodeRefs(t2, b) == NodeRefs(t0, b) + In(s + r, b) {
      assert NodeRefs(t1, b) == NodeRefs(t0, b) + In(s, b);
    }
  }

  lemma SectorsAdd(ib: nat, n: nat, m: nat, spb: nat)
    ensures Wrap(Wrap(ib + n * spb) + m * spb) == Wrap(ib + (n + m) * spb)
  {
    assert (n + m) * spb == n * spb + m * spb;
    WrapAdd(ib + n * spb, m * spb);
  }

  lemma MappedAfter(t0: Tree, t1: Tree, t2: Tree, used0: set<nat>, used1: set<nat>, used2: set<nat>,
                    disk0: Disk, disk1: Disk, disk2: Disk, ib0: nat, ib1: nat, ib2: nat, spb: nat,
                    block: nat, start: nat, len: nat)
    requires Deepened(t0, t1, used0, used1, disk0, disk1, ib0, ib1, spb)
    requires Mapped(t1, t2, used1, used2, disk1, disk2, ib1, ib2, spb, block, start, len)
    ensures Mapped(t0, t2, used0, used2, disk0, disk2, ib0, ib2, spb, block, start, len)
  {
    GainBoth(t0, t1, t2, used0, used1, used2, ib0, ib1, ib2, spb);
    KeptTrans(disk0, disk1, disk2, used0, used1, t0, t1);
  }
}
