/** Inserting a run into an inode's extent tree: the path from the root to a
    leaf, the update travelling back up it, and the leaf split. */
module Ext4Insert {
  import opened Ext4Extents
  import opened Ext4Tree
  import opened Ext4Volume
  import opened Ext4Levels
  import opened Ext4NodeBuf
  import opened Ext4ExtentOps

  // ----- the path to a leaf ---------------------------------------------------------------

  ghost function Top(l: nat, cap: nat): nat { if l == 0 then ROOT_MAX else cap }

  /** Level `l` of a path: a well-formed subtree and the buffer holding its node. */
  ghost predicate AtLevel(disk: Disk, used: set<nat>, x: Tree, n: Node, l: nat, d: nat, cap: nat, block: nat,
                          len: nat) {
    && l <= d && LevelOk(disk, used, x, d - l, Top(l, cap), cap) && n == NodeOf(x, d - l, Top(l, cap))
    && Unmapped(Flat(x), block, len)
  }

  /** The block a path level was read from. */
  ghost predicate FromBlock(disk: Disk, used: set<nat>, x: Tree, n: Node, blk: nat) {
    && blk in used && blk > 0 && NodeRefs(x, blk) == 0 && Flat(x) != []
    && blk in disk && disk[blk] == NodeBlock(n)
  }

  ghost predicate Link(x: Tree, i: nat, y: Tree, blk: nat, block: nat, len: nat) {
    Bound(x, i, block, len) && x.kids[i].sub == y && x.kids[i].blk == blk
  }

  /** The buffers describe the first `n + 1` nodes on the way to `block`. */
  ghost predicate PathTo(disk: Disk, used: set<nat>, subs: seq<Tree>, pidx: seq<nat>, pblk: seq<nat>, phdr: seq<Node>,
                         n: nat, d: nat, cap: nat, block: nat, len: nat)
  {
    && |subs| == |pblk| == |phdr| == n + 1 && |pidx| == n && pblk[0] == 0
    && (forall l :: 0 <= l <= n ==> AtLevel(disk, used, subs[l], phdr[l], l, d, cap, block, len))
    && (forall l :: 1 <= l <= n ==> FromBlock(disk, used, subs[l], phdr[l], pblk[l]))
    && (forall l :: 1 <= l <= n ==> Link(subs[l - 1], pidx[l - 1], subs[l], pblk[l], block, len))
  }

  /** The entry an insertion descends into: scan on from entry `i`. */
  function GuideFrom(idxs: seq<Idx>, block: nat, i: nat): (r: nat)
    requires i < |idxs|
    ensures i <= r < |idxs| && (r > i ==> idxs[r].key <= block) && (r + 1 < |idxs| ==> block < idxs[r + 1].key)
    decreases |idxs| - i
  {
    if i + 1 < |idxs| && idxs[i + 1].key <= block then GuideFrom(idxs, block, i + 1) else i
  }

  method ScanGuide(idxs: seq<Idx>, block: nat) returns (ci: nat)
    requires idxs != []
    ensures ci == GuideFrom(idxs, block, 0)
  {
    ci := 0;
    while ci + 1 < |idxs| && idxs[ci + 1].key <= block
      invariant ci < |idxs| && GuideFrom(idxs, block, ci) == GuideFrom(idxs, block, 0)
    {
      ci := ci + 1;
    }
  }

  /** The leaf for the run is full and cannot absorb it, and the index node above
      that leaf has no free entry either. */
  ghost predicate Crowded(t: Tree, cap: nat, block: nat, start: nat, len: nat) {
    && t.Index? && t.kids != []
    && var k := t.kids[GuideFrom(Entries(t.kids), block, 0)];
       if k.sub.Leaf? then |t.kids| >= cap && |k.sub.exts| >= cap && !Coalesces(k.sub.exts, block, start, len)
       else Crowded(k.sub, cap, block, start, len)
  }

  lemma PathStep(disk: Disk, used: set<nat>, x: Tree, n: Node, ci: nat, l: nat, d: nat, cap: nat, block: nat, len: nat)
    requires AtLevel(disk, used, x, n, l, d, cap, block, len) && l < d && 1 <= len
    requires x.Index? && Guides(x.kids, ci, block)
    ensures Bound(x, ci, block, len) && n.idxs[ci].leaf == x.kids[ci].blk && |n.idxs| == |x.kids|
    ensures var y := x.kids[ci].sub; var m := NodeOf(y, d - l - 1, cap);
            && AtLevel(disk, used, y, m, l + 1, d, cap, block, len)
            && FromBlock(disk, used, y, m, x.kids[ci].blk)
  {
    KidLevel(disk, used, x.kids, ci, d - l, Top(l, cap), cap);
    GuideFits(x.kids, ci, block, len, d - l - 1, cap);
  }

  lemma PathExtend(disk: Disk, used: set<nat>, subs: seq<Tree>, pidx: seq<nat>, pblk: seq<nat>, phdr: seq<Node>,
                   n: nat, d: nat, cap: nat, block: nat, len: nat, i: nat, y: Tree, m: Node, blk: nat)
    requires PathTo(disk, used, subs, pidx, pblk, phdr, n, d, cap, block, len)
    requires AtLevel(disk, used, y, m, n + 1, d, cap, block, len) && FromBlock(disk, used, y, m, blk)
    requires Link(subs[n], i, y, blk, block, len)
    ensures PathTo(disk, used, subs + [y], pidx + [i], pblk + [blk], phdr + [m], n + 1, d, cap, block, len)
  {
  }

  /** The levels of the path above the leaf decide whether the way is crowded. */
  ghost predicate SameCrowd(subs: seq<Tree>, n: nat, d: nat, cap: nat, block: nat, start: nat, len: nat)
    requires |subs| == n + 1
  {
    forall l :: 0 <= l <= n && l < d ==>
      (Crowded(subs[l], cap, block, start, len) <==> Crowded(subs[0], cap, block, start, len))
  }

  lemma HasRecords(disk: Disk, used: set<nat>, subs: seq<Tree>, pidx: seq<nat>, pblk: seq<nat>, phdr: seq<Node>,
                   n: nat, d: nat, cap: nat, block: nat, len: nat)
    requires PathTo(disk, used, subs, pidx, pblk, phdr, n, d, cap, block, len) && n < d
    ensures phdr[n].idxs != []
  {
    assert AtLevel(disk, used, subs[n], phdr[n], n, d, cap, block, len);
  }

  /** The path grows by the child for `block` of its last node. */
  lemma WayExtend(disk: Disk, used: set<nat>, subs: seq<Tree>, pidx: seq<nat>, pblk: seq<nat>, phdr: seq<Node>,
                  n: nat, d: nat, cap: nat, block: nat, start: nat, len: nat, ci: nat)
    requires PathTo(disk, used, subs, pidx, pblk, phdr, n, d, cap, block, len) && n < d && 1 <= len
    requires SameCrowd(subs, n, d, cap, block, start, len)
    requires phdr[n].idxs != [] && ci == GuideFrom(phdr[n].idxs, block, 0)
    ensures var x, m := subs[n], phdr[n];
            && x.Index? && ci < |x.kids| == |m.idxs|
            && var y, child := x.kids[ci].sub, m.idxs[ci].leaf;
            && child in disk && disk[child].NodeBlock?
            && PathTo(disk, used, subs + [y], pidx + [ci], pblk + [child], phdr + [disk[child].node], n + 1, d, cap,
                      block, len)
            && SameCrowd(subs + [y], n + 1, d, cap, block, start, len)
  {
    var x, m := subs[n], phdr[n];
    assert AtLevel(disk, used, x, m, n, d, cap, block, len);
    PathStep(disk, used, x, m, ci, n, d, cap, block, len);
    var child := m.idxs[ci].leaf;
    PathExtend(disk, used, subs, pidx, pblk, phdr, n, d, cap, block, len, ci, x.kids[ci].sub, disk[child].node, child);
    CrowdStep(disk, used, x, m, n, d, cap, block, start, len, ci);
  }

  /** Read the nodes on the way from the root to the leaf for `block`. */
  method WalkTo(vol: Volume, inode: Inode, block: nat, ghost start: nat, ghost len: nat)
    returns (pblk: seq<nat>, phdr: seq<Node>, pidx: seq<nat>, ghost subs: seq<Tree>)
    requires inode.Ok(vol) && 1 <= len && Unmapped(Flat(inode.tree), block, len)
    ensures PathTo(vol.disk, vol.used, subs, pidx, pblk, phdr, inode.root.depth, inode.root.depth, vol.Cap(), block,
                   len)
    ensures subs[0] == inode.tree && phdr[0] == inode.root
    ensures SameCrowd(subs, inode.root.depth, inode.root.depth, vol.Cap(), block, start, len)
    ensures forall l :: 0 <= l < inode.root.depth ==> phdr[l].idxs != [] && pidx[l] == GuideFrom(phdr[l].idxs, block, 0)
  {
    RootLevel(vol, inode);
    pblk, phdr, pidx, subs := [0], [inode.root], [], [inode.tree];
    var lvl: nat, depth := 0, inode.root.depth;
    while lvl < depth
      invariant lvl <= depth
      invariant PathTo(vol.disk, vol.used, subs, pidx, pblk, phdr, lvl, depth, vol.Cap(), block, len)
      invariant subs[0] == inode.tree && phdr[0] == inode.root
      invariant SameCrowd(subs, lvl, depth, vol.Cap(), block, start, len)
      invariant forall l :: 0 <= l < lvl ==> phdr[l].idxs != [] && pidx[l] == GuideFrom(phdr[l].idxs, block, 0)
    {
      HasRecords(vol.disk, vol.used, subs, pidx, pblk, phdr, lvl, depth, vol.Cap(), block, len);
      var ci := ScanGuide(phdr[lvl].idxs, block);
      WayExtend(vol.disk, vol.used, subs, pidx, pblk, phdr, lvl, depth, vol.Cap(), block, start, len, ci);
      var child := phdr[lvl].idxs[ci].leaf;
      ghost var y := subs[lvl].kids[ci].sub;
      subs := subs + [y];
      pblk, phdr, pidx := pblk + [child], phdr + [vol.disk[child].node], pidx + [ci];
      lvl := lvl + 1;
    }
  }

  lemma CrowdStep(disk: Disk, used: set<nat>, x: Tree, n: Node, l: nat, d: nat, cap: nat, block: nat, start: nat,
                  len: nat, ci: nat)
    requires AtLevel(disk, used, x, n, l, d, cap, block, len) && l < d
    requires n.idxs != [] && ci == GuideFrom(n.idxs, block, 0)
    ensures x.Index? && ci < |x.kids|
    ensures l + 1 < d ==> (Crowded(x.kids[ci].sub, cap, block, start, len) <==> Crowded(x, cap, block, start, len))
    ensures l + 1 == d ==> x.kids[ci].sub.Leaf?
    ensures l + 1 == d ==> (Crowded(x, cap, block, start, len) <==>
                            |n.idxs| >= cap && |x.kids[ci].sub.exts| >= cap
                              && !Coalesces(x.kids[ci].sub.exts, block, start, len))
  {
    KidLevel(disk, used, x.kids, ci, d - l, Top(l, cap), cap);
  }

  // ----- the update travelling up ----------------------------------------------------------

  lemma EntryRefreshed(kids: seq<Kid>, i: nat, key: nat, y: Tree)
    requires i < |kids|
    ensures Entries(Swap(kids, i, [Kid(key, kids[i].blk, y)])) == Entries(kids)[i := Idx(key, kids[i].blk)]
  {
    assert Swap(kids, i, [Kid(key, kids[i].blk, y)]) == kids[i := Kid(key, kids[i].blk, y)];
  }

  lemma AddsSomething(s: seq<Extent>, t: seq<Extent>, block: nat, start: nat, len: nat)
    requires Adds(s, t, block, start, len) && RunOk(block, start, len)
    ensures t != []
  {
    assert At(t, block) == WithRun(At(s, block), block, block, start, len);
  }

  /** The tree one level up once a child has grown into `y`. */
  ghost function Above(x: Tree, i: nat, y: Tree): Tree
    requires x.Index? && i < |x.kids| && Flat(y) != []
  {
    Index(Swap(x.kids, i, [Kid(Flat(y)[0].block, x.kids[i].blk, y)]))
  }

  /** From level `l` to level `l - 1`: the child's node is in its block, and the
      parent's entry for it gets the child's first block. */
  lemma PropagateStep(disk0: Disk, disk: Disk, used: set<nat>, x: Tree, n: Node, i: nat, y: Tree, m: Node,
                      l: nat, d: nat, cap: nat, block: nat, start: nat, len: nat, added: set<nat>)
    requires 1 <= l <= d && AtLevel(disk0, used, x, n, l - 1, d, cap, block, len) && Bound(x, i, block, len)
    requires RunOk(block, start, len) && added !! used
    requires Grown(disk0, disk, x.kids[i].sub, y, d - l, cap, cap, block, start, len, added) && Flat(y) != []
    requires m == NodeOf(y, d - l, cap)
    ensures Grown(disk0, disk[x.kids[i].blk := NodeBlock(m)], x, Above(x, i, y),
                  d - l + 1, Top(l - 1, cap), cap, block, start, len, added)
    ensures Flat(Above(x, i, y)) != [] && |n.idxs| == |x.kids|
    ensures NodeOf(Above(x, i, y), d - l + 1, Top(l - 1, cap)) ==
            n.(idxs := n.idxs[i := n.idxs[i].(key := FirstBlock(m))])
  {
    Rise(disk0, disk, used, x.kids, i, y, d - l, Top(l - 1, cap), cap, block, start, len, added);
    AddsSomething(Flat(x), Flat(Above(x, i, y)), block, start, len);
    FirstBlockIsFirst(y, d - l, cap, cap, cap);
    EntryRefreshed(x.kids, i, Flat(y)[0].block, y);
  }

  /** A node whose entry did not change is still in its block. */
  lemma StillThere(disk0: Disk, disk: Disk, used: set<nat>, x: Tree, n: Node, blk: nat, added: set<nat>)
    requires FromBlock(disk0, used, x, n, blk) && TouchesOnly(disk0, disk, x, added) && added !! used
    ensures disk[blk := NodeBlock(n)] == disk
  {
  }

  /** A level has grown and its node is in its block (the root has none). */
  ghost predicate Written(now: Disk, disk0: Disk, disk: Disk, x: Tree, y: Tree, m: Node, blk: nat,
                          l: nat, d: nat, cap: nat, block: nat, start: nat, len: nat, added: set<nat>)
  {
    && l <= d && Grown(disk0, disk, x, y, d - l, Top(l, cap), cap, block, start, len, added) && Flat(y) != []
    && m == NodeOf(y, d - l, Top(l, cap))
    && now == if l == 0 then disk else disk[blk := NodeBlock(m)]
  }

  /** Refresh the entry of one node on the path after its child has grown. */
  method RefreshEntry(vol: Volume, n: Node, i: nat, blk: nat, m: Node, always: bool, pblk: nat, l: nat,
                      ghost disk0: Disk, ghost used0: set<nat>, ghost disk: Disk, ghost x: Tree, ghost y: Tree,
                      ghost d: nat, ghost block: nat, ghost start: nat, ghost len: nat, ghost added: set<nat>)
    returns (n': Node)
    requires vol.Contents() && RunOk(block, start, len) && added !! used0 && 1 <= l <= d
    requires AtLevel(disk0, used0, x, n, l - 1, d, vol.Cap(), block, len) && Bound(x, i, block, len)
    requires x.kids[i].blk == blk && (l > 1 ==> FromBlock(disk0, used0, x, n, pblk))
    requires Written(vol.disk, disk0, disk, x.kids[i].sub, y, m, blk, l, d, vol.Cap(), block, start, len, added)
    modifies vol`disk
    ensures vol.Contents() && (old(vol.Valid()) ==> vol.Valid())
    ensures Written(vol.disk, disk0, old(vol.disk), x, Above(x, i, y), n', pblk, l - 1, d, vol.Cap(), block, start, len,
                    added)
  {
    PropagateStep(disk0, disk, used0, x, n, i, y, m, l, d, vol.Cap(), block, start, len, added);
    var fb := FirstBlock(m);
    n' := n.(idxs := n.idxs[i := n.idxs[i].(key := fb)]);
    if l > 1 {
      if always || n.idxs[i].key != fb {
        vol.WriteNode(pblk, n');
      } else {
        assert n.idxs[i := n.idxs[i]] == n.idxs;
        StillThere(disk0, vol.disk, used0, x, n, pblk, added);
      }
    }
  }

  /** Refresh the entries above level `l` so that every key on the path is the
      first block of its child, writing back each node that changed (or every
      node, if `always`). */
  method Propagate(vol: Volume, pblk: seq<nat>, phdr: seq<Node>, pidx: seq<nat>, l: nat, node: Node, always: bool,
                   ghost subs: seq<Tree>, ghost disk0: Disk, ghost used0: set<nat>, ghost gd: Disk, ghost y: Tree,
                   ghost block: nat, ghost start: nat, ghost len: nat, ghost added: set<nat>)
    returns (root: Node, ghost t: Tree)
    requires vol.Contents() && RunOk(block, start, len) && added !! used0
    requires l < |phdr| && PathTo(disk0, used0, subs, pidx, pblk, phdr, |phdr| - 1, |phdr| - 1, vol.Cap(), block, len)
    requires Written(vol.disk, disk0, gd, subs[l], y, node, pblk[l], l, |phdr| - 1, vol.Cap(), block, start, len, added)
    modifies vol`disk
    ensures vol.Contents() && (old(vol.Valid()) ==> vol.Valid()) && root == NodeOf(t, |phdr| - 1, ROOT_MAX)
    ensures Grown(disk0, vol.disk, subs[0], t, |phdr| - 1, ROOT_MAX, vol.Cap(), block, start, len, added)
  {
    ghost var d, cap, disk := |phdr| - 1, vol.Cap(), gd;
    root, t := node, y;
    var lvl: nat := l;
    while lvl > 0
      invariant lvl <= l && vol.Contents() && (old(vol.Valid()) ==> vol.Valid())
      invariant Written(vol.disk, disk0, disk, subs[lvl], t, root, pblk[lvl], lvl, d, cap, block, start, len, added)
    {
      assert Link(subs[lvl - 1], pidx[lvl - 1], subs[lvl], pblk[lvl], block, len);
      assert AtLevel(disk0, used0, subs[lvl - 1], phdr[lvl - 1], lvl - 1, d, cap, block, len);
      assert lvl > 1 ==> FromBlock(disk0, used0, subs[lvl - 1], phdr[lvl - 1], pblk[lvl - 1]);
      ghost var now := vol.disk;
      root := RefreshEntry(vol, phdr[lvl - 1], pidx[lvl - 1], pblk[lvl], root, always, pblk[lvl - 1], lvl,
                           disk0, used0, disk, subs[lvl - 1], t, d, block, start, len, added);
      t, disk, lvl := Above(subs[lvl - 1], pidx[lvl - 1], t), now, lvl - 1;
    }
  }

  // ----- the new tree is an inode tree again ---------------------------------------------------

  /** The run's blocks are allocated and this tree does not use them yet. */
  ghost predicate RunFree(t: Tree, used: set<nat>, start: nat, len: nat) {
    forall b :: InRun(start, len, b) > 0 ==> b in used && Refs(t, b) == 0
  }

  lemma GrownRefs(disk0: Disk, disk: Disk, used: set<nat>, t0: Tree, t: Tree, d: nat, cap: nat,
                  block: nat, start: nat, len: nat, added: set<nat>)
    requires Grown(disk0, disk, t0, t, d, ROOT_MAX, cap, block, start, len, added)
    requires Distinct(t0) && (forall b :: Refs(t0, b) > 0 ==> b in used)
    requires RunFree(t0, used, start, len) && added !! used
    ensures Distinct(t) && forall b :: Refs(t, b) > 0 ==> b in used + added
  {
    forall b ensures Refs(t, b) <= 1 && (Refs(t, b) > 0 ==> b in used + added) {
      assert NodeRefs(t, b) == NodeRefs(t0, b) + In(added, b);
      assert DataRefs(Flat(t), b) == DataRefs(Flat(t0), b) + InRun(start, len, b);
      assert Refs(t0, b) <= 1;
    }
  }

  lemma GrownOk(disk0: Disk, disk: Disk, used: set<nat>, root0: Node, t0: Tree, root: Node, t: Tree, cap: nat,
                block: nat, start: nat, len: nat, added: set<nat>)
    requires TreeOk(disk0, used, root0, t0, cap)
    requires Grown(disk0, disk, t0, t, root0.depth, ROOT_MAX, cap, block, start, len, added)
    requires root == NodeOf(t, root0.depth, ROOT_MAX)
    requires RunFree(t0, used, start, len) && added !! used
    ensures TreeOk(disk, used + added, root, t, cap) && root.depth == root0.depth
    ensures OthersKept(disk0, disk, used, t0) && RefsGrow(t0, t, added)
  {
    GrownRefs(disk0, disk, used, t0, t, root0.depth, cap, block, start, len, added);
  }

  // ----- splitting a leaf ------------------------------------------------------------------------

  ghost function LeftHalf(exts: seq<Extent>, half: nat, block: nat, start: nat, len: nat): seq<Extent>
    requires half < |exts|
  {
    if block < exts[half].block then Put(exts[..half], block, start, len) else exts[..half]
  }

  ghost function RightHalf(exts: seq<Extent>, half: nat, block: nat, start: nat, len: nat): seq<Extent>
    requires half < |exts|
  {
    if block < exts[half].block then exts[half..] else Put(exts[half..], block, start, len)
  }

  lemma UnmappedParts(a: seq<Extent>, c: seq<Extent>, block: nat, len: nat)
    requires Good(a + c) && Unmapped(a + c, block, len)
    ensures Unmapped(a, block, len) && Unmapped(c, block, len)
  {
    GoodSplit(a, c);
    forall b | block <= b < block + len ensures At(a, b) == 0 && At(c, b) == 0 {
      assert At(a + c, b) == 0;
      AtConcat(a, c, b);
    }
  }

  lemma SplitLeft(a: seq<Extent>, c: seq<Extent>, block: nat, start: nat, len: nat)
    requires Good(a + c) && Unmapped(a + c, block, len) && RunOk(block, start, len)
    requires c != [] && block < c[0].block
    ensures Adds(a + c, Put(a, block, start, len) + c, block, start, len)
    ensures UsesRun(a + c, Put(a, block, start, len) + c, start, len)
  {
    UnmappedParts(a, c, block, len);
    GoodSplit(a, c);
    PutAdds(a, block, start, len);
    StartsAfter(c, block, len);
    var y := Put(a, block, start, len);
    assert a + c == [] + a + c && y + c == [] + y + c;
    ReplaceAdds(a + c, y + c, [], a, y, c, block, start, len);
  }

  lemma StartsAfter(c: seq<Extent>, block: nat, len: nat)
    requires Good(c) && Unmapped(c, block, len) && c != [] && block < c[0].block
    ensures StartsFrom(c, block + len)
  {
    MappedAt(c, 0, c[0].block);
    assert forall j :: 0 < j < |c| ==> c[0].End() <= c[j].block;
  }

  lemma SplitRight(a: seq<Extent>, c: seq<Extent>, block: nat, start: nat, len: nat)
    requires Good(a + c) && Unmapped(a + c, block, len) && RunOk(block, start, len)
    requires c != [] && c[0].block <= block
    ensures Adds(a + c, a + Put(c, block, start, len), block, start, len)
    ensures UsesRun(a + c, a + Put(c, block, start, len), start, len)
  {
    UnmappedParts(a, c, block, len);
    GoodSplit(a, c);
    PutAdds(c, block, start, len);
    assert EndsBy(a, block);
    var y := Put(c, block, start, len);
    assert a + c == a + c + [] && a + y == a + y + [];
    ReplaceAdds(a + c, a + y, a, c, y, [], block, start, len);
  }

  /** Halving a full leaf and putting the run into the half it belongs to adds
      exactly the run, and both halves fit and are not empty. */
  lemma SplitAdds(exts: seq<Extent>, half: nat, block: nat, start: nat, len: nat)
    requires Good(exts) && Unmapped(exts, block, len) && RunOk(block, start, len)
    requires 1 <= half < |exts|
    ensures var l, r := LeftHalf(exts, half, block, start, len), RightHalf(exts, half, block, start, len);
            && Adds(exts, l + r, block, start, len) && UsesRun(exts, l + r, start, len)
            && 1 <= |l| <= half + 1 && 1 <= |r| <= |exts| - half + 1
  {
    var a, c := exts[..half], exts[half..];
    assert exts == a + c;
    if block < exts[half].block {
      SplitLeft(a, c, block, start, len);
    } else {
      SplitRight(a, c, block, start, len);
    }
  }

  lemma SplitRefs(k: Kid, kl: Kid, kr: Kid)
    requires k.sub.Leaf? && kl.sub.Leaf? && kr.sub.Leaf? && kl.blk == k.blk
    ensures forall b :: NodeRefsKids([kl, kr], b) == KidRefs(k, b) + In({kr.blk}, b)
    ensures NodeCountKids([kl, kr]) == 1 + NodeCount(k.sub) + |{kr.blk}|
  {
    RefsTwo(kl, kr);
    forall b ensures NodeRefsKids([kl, kr], b) == KidRefs(k, b) + In({kr.blk}, b) {
      assert NodeRefs(k.sub, b) == NodeRefs(kl.sub, b) == NodeRefs(kr.sub, b) == 0;
    }
  }

  lemma SplitGrows(disk0: Disk, disk: Disk, k: Kid, nb: nat, half: nat, cap: nat, block: nat, start: nat, len: nat)
    requires k.sub.Leaf? && k.blk > 0 && nb > 0 && nb != k.blk
    requires Good(k.sub.exts) && Unmapped(k.sub.exts, block, len) && RunOk(block, start, len)
    requires 1 <= half < |k.sub.exts| <= cap
    requires var l, r := LeftHalf(k.sub.exts, half, block, start, len), RightHalf(k.sub.exts, half, block, start, len);
             && k.blk in disk && disk[k.blk] == NodeBlock(NodeOf(Leaf(l), 0, cap))
             && nb in disk && disk[nb] == NodeBlock(NodeOf(Leaf(r), 0, cap))
    requires TouchesKid(disk0, disk, k, {nb})
    ensures var l, r := LeftHalf(k.sub.exts, half, block, start, len), RightHalf(k.sub.exts, half, block, start, len);
            && l != [] && r != []
            && KidsGrown(disk0, disk, k, [Kid(l[0].block, k.blk, Leaf(l)), Kid(r[0].block, nb, Leaf(r))],
                         0, cap, block, start, len, {nb})
  {
    var l, r := LeftHalf(k.sub.exts, half, block, start, len), RightHalf(k.sub.exts, half, block, start, len);
    SplitAdds(k.sub.exts, half, block, start, len);
    TwoLeaves(disk0, disk, k, nb, l, r, cap, block, start, len);
  }

  /** Two leaves that hold the records of one and the run stand for the one with the run added. */
  lemma TwoLeaves(disk0: Disk, disk: Disk, k: Kid, nb: nat, l: seq<Extent>, r: seq<Extent>, cap: nat,
                  block: nat, start: nat, len: nat)
    requires k.sub.Leaf? && k.blk > 0 && nb > 0 && 1 <= |l| <= cap && 1 <= |r| <= cap
    requires Adds(k.sub.exts, l + r, block, start, len) && UsesRun(k.sub.exts, l + r, start, len)
    requires k.blk in disk && disk[k.blk] == NodeBlock(NodeOf(Leaf(l), 0, cap))
    requires nb in disk && disk[nb] == NodeBlock(NodeOf(Leaf(r), 0, cap)) && TouchesKid(disk0, disk, k, {nb})
    ensures KidsGrown(disk0, disk, k, [Kid(l[0].block, k.blk, Leaf(l)), Kid(r[0].block, nb, Leaf(r))],
                      0, cap, block, start, len, {nb})
  {
    var kl, kr := Kid(l[0].block, k.blk, Leaf(l)), Kid(r[0].block, nb, Leaf(r));
    FlatTwo(kl, kr);
    SplitRefs(k, kl, kr);
    assert KidOk(kl, 0, cap) && KidOk(kr, 0, cap);
    assert KidStored(disk, kl, 0, cap) && KidStored(disk, kr, 0, cap);
  }

  lemma KeysIncrease(kids: seq<Kid>, i: nat, j: nat, d: nat, cap: nat)
    requires i < j < |kids| && KidsOk(kids, d, cap) && Good(FlatKids(kids))
    ensures kids[i].key < kids[j].key
  {
    GuideBounds(kids, j, d, cap);
    FlatAround(kids[..j], i);
    assert KidOk(kids[i], d, cap);
    var a, x := FlatKids(kids[..j][..i]), Flat(kids[i].sub);
    assert FlatKids(kids[..j])[|a|] == x[0];
    FlatAround(kids, i);
    GoodParts(FlatKids(kids[..i]), x, FlatKids(kids[i + 1..]));
  }

  lemma SplitList(kids: seq<Kid>, i: nat, kl: Kid, kr: Kid)
    requires i < |kids| && kl.blk == kids[i].blk
    ensures var s := Entries(kids)[i := Idx(kl.key, kids[i].blk)];
            Entries(Swap(kids, i, [kl, kr])) == s[..i + 1] + [Idx(kr.key, kr.blk)] + s[i + 1..]
  {
  }

  lemma SplitPosition(kids: seq<Kid>, i: nat, kl: Kid, kr: Kid, d: nat, cap: nat)
    requires i < |kids|
    requires KidsOk(Swap(kids, i, [kl, kr]), d, cap) && Good(FlatKids(Swap(kids, i, [kl, kr])))
    ensures IdxPosition(Entries(kids)[i := Idx(kl.key, kids[i].blk)], kr.key) == i + 1
  {
    var ks := Swap(kids, i, [kl, kr]);
    var s := Entries(kids)[i := Idx(kl.key, kids[i].blk)];
    assert ks[i + 1] == kr;
    forall j | 0 <= j < i + 1 ensures s[j].key <= kr.key {
      assert s[j].key == ks[j].key;
      KeysIncrease(ks, j, i + 1, d, cap);
    }
    if i + 1 < |s| {
      assert s[i + 1].key == ks[i + 2].key;
      KeysIncrease(ks, i + 1, i + 2, d, cap);
    }
    IdxPositionUnique(s, kr.key, i + 1);
  }

  /** Inserting the new child's entry in key order gives the entries of the node
      with the child replaced by its two halves. */
  lemma SplitEntries(kids: seq<Kid>, i: nat, kl: Kid, kr: Kid, d: nat, cap: nat)
    requires i < |kids| && kl.blk == kids[i].blk
    requires KidsOk(Swap(kids, i, [kl, kr]), d, cap) && Good(FlatKids(Swap(kids, i, [kl, kr])))
    ensures IdxInsert(Entries(kids)[i := Idx(kl.key, kids[i].blk)],
                      Idx(kr.key, kr.blk)) == Entries(Swap(kids, i, [kl, kr]))
  {
    SplitPosition(kids, i, kl, kr, d, cap);
    SplitList(kids, i, kl, kr);
  }
}
