/** `ext4_extent_append`: adding a run at the end of the file along the
    rightmost path, with a fresh spine of nodes when the last leaf is full. */
module Ext4Append {
  import opened Ext4Extents
  import opened Ext4Tree
  import opened Ext4Volume
  import opened Ext4Levels
  import opened Ext4NodeBuf
  import opened Ext4ExtentOps
  import opened Ext4Insert
  import opened Ext4Map

  // ----- the rightmost path -----------------------------------------------------------------

  lemma EndsByEnd(s: seq<Extent>)
    requires Good(s)
    ensures EndsBy(s, EndOf(s))
  {
    if s != [] {
      assert forall i :: 0 <= i < |s| - 1 ==> s[i].End() <= s[|s| - 1].block;
    }
  }

  lemma UnmappedPastEnd(s: seq<Extent>, block: nat, len: nat)
    requires Good(s) && EndOf(s) <= block
    ensures Unmapped(s, block, len)
  {
    EndsByEnd(s);
    forall b | block <= b < block + len ensures At(s, b) == 0 {
      UnmappedAbove(s, b);
    }
  }

  lemma RightGuides(kids: seq<Kid>, d: nat, cap: nat, block: nat)
    requires kids != [] && KidsOk(kids, d, cap) && Good(FlatKids(kids)) && EndOf(FlatKids(kids)) <= block
    ensures Guides(kids, |kids| - 1, block) && EndOf(Flat(kids[|kids| - 1].sub)) <= block
  {
    var i := |kids| - 1;
    EndOfLast(kids, d, cap);
    assert KidOk(kids[i], d, cap);
    GuideBounds(kids, i, d, cap);
    EndsByEnd(Flat(kids[i].sub));
  }

  /** Every node on the path is entered by its last record. */
  ghost predicate Rightmost(pidx: seq<nat>, phdr: seq<Node>, n: nat) {
    |pidx| == n && |phdr| == n + 1 && forall l :: 0 <= l < n ==> |phdr[l].idxs| > 0 && pidx[l] == |phdr[l].idxs| - 1
  }

  ghost predicate EndBefore(subs: seq<Tree>, block: nat) {
    forall l :: 0 <= l < |subs| ==> EndOf(Flat(subs[l])) <= block
  }

  lemma RightStep(disk: Disk, used: set<nat>, x: Tree, n: Node, l: nat, d: nat, cap: nat, block: nat, len: nat)
    requires AtLevel(disk, used, x, n, l, d, cap, block, len) && l < d && 1 <= len && EndOf(Flat(x)) <= block
    ensures x.Index? && n.idxs != [] && |n.idxs| == |x.kids|
    ensures var y, child := x.kids[|x.kids| - 1].sub, n.idxs[|n.idxs| - 1].leaf;
            && child in disk && disk[child] == NodeBlock(NodeOf(y, d - l - 1, cap))
            && AtLevel(disk, used, y, disk[child].node, l + 1, d, cap, block, len)
            && FromBlock(disk, used, y, disk[child].node, child)
            && Link(x, |x.kids| - 1, y, child, block, len) && EndOf(Flat(y)) <= block
  {
    RightGuides(x.kids, d - l - 1, cap, block);
    PathStep(disk, used, x, n, |x.kids| - 1, l, d, cap, block, len);
  }

  /** The rightmost path of the tree, down to level `n`. */
  ghost predicate RightPath(disk: Disk, used: set<nat>, subs: seq<Tree>, pidx: seq<nat>, pblk: seq<nat>,
                            phdr: seq<Node>,
                            n: nat, d: nat, cap: nat, block: nat, len: nat, t: Tree, root: Node)
  {
    && PathTo(disk, used, subs, pidx, pblk, phdr, n, d, cap, block, len) && Rightmost(pidx, phdr, n)
    && EndBefore(subs, block) && subs[0] == t && phdr[0] == root
  }

  /** The path grows by the last child of its last node. */
  lemma RightExtend(disk: Disk, used: set<nat>, subs: seq<Tree>, pidx: seq<nat>, pblk: seq<nat>, phdr: seq<Node>,
                    n: nat, d: nat, cap: nat, block: nat, len: nat, t: Tree, root: Node)
    returns (last: nat, child: nat, y: Tree)
    requires RightPath(disk, used, subs, pidx, pblk, phdr, n, d, cap, block, len, t, root) && n < d && 1 <= len
    ensures last + 1 == |phdr[n].idxs| && child == phdr[n].idxs[last].leaf
    ensures child in disk && disk[child].NodeBlock?
    ensures RightPath(disk, used, subs + [y], pidx + [last], pblk + [child], phdr + [disk[child].node], n + 1, d, cap,
                      block, len, t, root)
  {
    assert AtLevel(disk, used, subs[n], phdr[n], n, d, cap, block, len);
    RightStep(disk, used, subs[n], phdr[n], n, d, cap, block, len);
    last, child := |phdr[n].idxs| - 1, phdr[n].idxs[|phdr[n].idxs| - 1].leaf;
    y := subs[n].kids[last].sub;
    PathExtend(disk, used, subs, pidx, pblk, phdr, n, d, cap, block, len, last, subs[n].kids[last].sub,
               disk[child].node, child);
  }

  /** Read the nodes on the rightmost path. */
  method WalkRight(vol: Volume, inode: Inode, ghost block: nat, ghost len: nat)
    returns (pblk: seq<nat>, phdr: seq<Node>, ghost pidx: seq<nat>, ghost subs: seq<Tree>)
    requires inode.Ok(vol) && 1 <= len && EndOf(Flat(inode.tree)) <= block
    ensures RightPath(vol.disk, vol.used, subs, pidx, pblk, phdr, inode.root.depth, inode.root.depth, vol.Cap(), block,
                      len, inode.tree, inode.root)
  {
    RootLevel(vol, inode);
    UnmappedPastEnd(Flat(inode.tree), block, len);
    pblk, phdr, pidx, subs := [0], [inode.root], [], [inode.tree];
    var lvl: nat, depth := 0, inode.root.depth;
    while lvl < depth
      invariant lvl <= depth && |phdr| == lvl + 1
      invariant RightPath(vol.disk, vol.used, subs, pidx, pblk, phdr, lvl, depth, vol.Cap(), block, len, inode.tree,
                          inode.root)
    {
      ghost var last, c, y := RightExtend(vol.disk, vol.used, subs, pidx, pblk, phdr, lvl, depth, vol.Cap(), block, len,
                                          inode.tree, inode.root);
      var child := phdr[lvl].idxs[|phdr[lvl].idxs| - 1].leaf;
      subs, pidx := subs + [y], pidx + [last];
      pblk, phdr := pblk + [child], phdr + [vol.disk[child].node];
      lvl := lvl + 1;
    }
  }

  // ----- the change seen from the root -----------------------------------------------------------

  /** When a level has grown without a new first block, the nodes above it stay
      as they are, and the tree has grown. */
  lemma {:induction false} Climb(now: Disk, disk0: Disk, disk: Disk, used0: set<nat>,
                                 subs: seq<Tree>, pidx: seq<nat>, pblk: seq<nat>, phdr: seq<Node>,
                                 l: nat, d: nat, cap: nat, y: Tree, m: Node, block: nat, start: nat, len: nat,
                                   added: set<nat>)
    returns (t: Tree)
    requires PathTo(disk0, used0, subs, pidx, pblk, phdr, d, d, cap, block, len) && l <= d
    requires RunOk(block, start, len) && added !! used0
    requires Written(now, disk0, disk, subs[l], y, m, pblk[l], l, d, cap, block, start, len, added)
    requires l > 0 ==> FirstBlock(m) == FirstBlock(phdr[l])
    ensures Grown(disk0, now, subs[0], t, d, ROOT_MAX, cap, block, start, len, added)
    ensures NodeOf(t, d, ROOT_MAX) == if l == 0 then m else phdr[0]
    decreases l
  {
    if l == 0 {
      t := y;
    } else {
      ClimbStep(now, disk0, disk, used0, subs[l - 1], phdr[l - 1], pidx[l - 1], subs[l], phdr[l], pblk[l], pblk[l - 1],
                l, d, cap, y, m, block, start, len, added);
      t := Climb(now, disk0, now, used0, subs, pidx, pblk, phdr, l - 1, d, cap,
                 Above(subs[l - 1], pidx[l - 1], y), phdr[l - 1], block, start, len, added);
    }
  }

  lemma ClimbStep(now: Disk, disk0: Disk, disk: Disk, used0: set<nat>, x: Tree, n: Node, i: nat, s: Tree, sn: Node,
                  blk: nat, pblk: nat, l: nat, d: nat, cap: nat, y: Tree, m: Node,
                  block: nat, start: nat, len: nat, added: set<nat>)
    requires 1 <= l <= d && RunOk(block, start, len) && added !! used0
    requires AtLevel(disk0, used0, x, n, l - 1, d, cap, block, len) && Link(x, i, s, blk, block, len)
    requires AtLevel(disk0, used0, s, sn, l, d, cap, block, len) && Flat(s) != []
    requires l > 1 ==> FromBlock(disk0, used0, x, n, pblk)
    requires Written(now, disk0, disk, s, y, m, blk, l, d, cap, block, start, len, added)
    requires FirstBlock(m) == FirstBlock(sn)
    ensures Written(now, disk0, now, x, Above(x, i, y), n, pblk, l - 1, d, cap, block, start, len, added)
  {
    PropagateStep(disk0, disk, used0, x, n, i, y, m, l, d, cap, block, start, len, added);
    FirstBlockIsFirst(s, d - l, cap, cap, cap);
    KidLevel(disk0, used0, x.kids, i, d - l + 1, Top(l - 1, cap), cap);
    SameEntry(n, i, x.kids[i].key, blk);
    if l > 1 {
      StillThere(disk0, now, used0, x, n, pblk, added);
    }
  }

  lemma SameEntry(n: Node, i: nat, key: nat, blk: nat)
    requires i < |n.idxs| && n.idxs[i] == Idx(key, blk)
    ensures n.(idxs := n.idxs[i := Idx(key, blk)]) == n
  {
    assert n.idxs[i := n.idxs[i]] == n.idxs;
  }

  // ----- room in the last leaf ----------------------------------------------------------------------

  /** Past the end, putting is extending the last record or adding one. */
  lemma PutPastEnd(s: seq<Extent>, block: nat, start: nat, len: nat)
    requires Good(s) && EndOf(s) <= block
    ensures Position(s, block) == |s|
    ensures s != [] && Follows(s[|s| - 1], block, start, len) ==>
            Put(s, block, start, len) == s[|s| - 1 := s[|s| - 1].(len := s[|s| - 1].len + len)]
    ensures !(s != [] && Follows(s[|s| - 1], block, start, len)) ==>
            Put(s, block, start, len) == s + [Extent(block, len, start)]
    ensures Coalesces(s, block, start, len) <==> s != [] && Follows(s[|s| - 1], block, start, len)
  {
    EndsByEnd(s);
    PositionUnique(s, block, |s|);
  }

  lemma PutKeepsFirst(s: seq<Extent>, block: nat, start: nat, len: nat)
    requires Good(s) && EndOf(s) <= block && s != []
    ensures Put(s, block, start, len) != [] && Put(s, block, start, len)[0].block == s[0].block
  {
    PutPastEnd(s, block, start, len);
  }

  /** Install a tree that has grown below an unchanged root, or at it. */
  lemma AppendOk(now: Disk, disk0: Disk, gd: Disk, used0: set<nat>, root0: Node, t0: Tree,
                 subs: seq<Tree>, pidx: seq<nat>, pblk: seq<nat>, phdr: seq<Node>, l: nat, cap: nat, y: Tree, m: Node,
                 block: nat, start: nat, len: nat, added: set<nat>)
    returns (t: Tree)
    requires TreeOk(disk0, used0, root0, t0, cap) && RunFree(t0, used0, start, len)
    requires PathTo(disk0, used0, subs, pidx, pblk, phdr, root0.depth, root0.depth, cap, block, len) && l <= root0.depth
    requires subs[0] == t0 && phdr[0] == root0 && RunOk(block, start, len) && added !! used0
    requires Written(now, disk0, gd, subs[l], y, m, pblk[l], l, root0.depth, cap, block, start, len, added)
    requires l > 0 ==> FirstBlock(m) == FirstBlock(phdr[l])
    ensures TreeOk(now, used0 + added, if l == 0 then m else root0, t, cap)
    ensures Inserted(t0, t, block, start, len) && RefsGrow(t0, t, added) && OthersKept(disk0, now, used0, t0)
  {
    t := Climb(now, disk0, gd, used0, subs, pidx, pblk, phdr, l, root0.depth, cap, y, m, block, start, len, added);
    GrownOk(disk0, now, used0, root0, t0, if l == 0 then m else root0, t, cap, block, start, len, added);
  }

  /** Extend the last record of leaf `lh`, or add a record, and write the node
      back unless it is the root. */
  method ExtendLeaf(vol: Volume, lh: Node, blk: nat, depth: nat, ghost x: Tree, lblk: nat, phys: nat, len: nat)
    returns (m: Node)
    requires vol.Contents() && RunOk(lblk, phys, len) && EndOf(lh.exts) <= lblk
    requires AtLevel(vol.disk, vol.used, x, lh, depth, depth, vol.Cap(), lblk, len) && (depth > 0 ==> lh.exts != [])
    requires |lh.exts| < Top(depth, vol.Cap()) || Coalesces(lh.exts, lblk, phys, len)
    modifies vol`disk
    ensures vol.Contents() && (old(vol.Valid()) ==> vol.Valid())
    ensures Written(vol.disk, old(vol.disk), old(vol.disk), x, Leaf(m.exts), m, blk,
                    depth, depth, vol.Cap(), lblk, phys, len, {})
    ensures depth > 0 ==> FirstBlock(m) == FirstBlock(lh)
  {
    PutPastEnd(lh.exts, lblk, phys, len);
    LeafWritten(vol.disk, vol.used, x, lh, blk, depth, vol.Cap(), lblk, phys, len);
    var n := |lh.exts|;
    if n > 0 && Follows(lh.exts[n - 1], lblk, phys, len) {
      m := lh.(exts := lh.exts[n - 1 := lh.exts[n - 1].(len := lh.exts[n - 1].len + len)]);
    } else {
      m := lh.(exts := lh.exts + [Extent(lblk, len, phys)]);
    }
    assert m == lh.(exts := Put(lh.exts, lblk, phys, len));
    if depth > 0 {
      vol.WriteNode(blk, m);
    }
  }

  /** The leaf with the run put in, written where the leaf was. */
  lemma LeafWritten(disk: Disk, used: set<nat>, x: Tree, lh: Node, blk: nat, depth: nat, cap: nat, block: nat,
                    start: nat, len: nat)
    requires RunOk(block, start, len) && EndOf(lh.exts) <= block && (depth > 0 ==> lh.exts != [])
    requires AtLevel(disk, used, x, lh, depth, depth, cap, block, len)
    requires |lh.exts| < Top(depth, cap) || Coalesces(lh.exts, block, start, len)
    ensures var m := lh.(exts := Put(lh.exts, block, start, len));
            && Written(if depth == 0 then disk else disk[blk := NodeBlock(m)], disk, disk, x, Leaf(m.exts), m, blk,
                       depth, depth, cap, block, start, len, {})
            && (depth > 0 ==> FirstBlock(m) == FirstBlock(lh))
  {
    LeafGrows(disk, lh.exts, Top(depth, cap), cap, block, start, len);
    if depth > 0 {
      PutKeepsFirst(lh.exts, block, start, len);
    }
  }

  /** The last leaf takes the run. */
  method AppendToLeaf(vol: Volume, inode: Inode, pblk: seq<nat>, phdr: seq<Node>, ghost pidx: seq<nat>,
                      ghost subs: seq<Tree>, lblk: nat, phys: nat, len: nat)
    requires vol.Contents() && inode.Ok(vol) && RunOk(lblk, phys, len) && RunFree(inode.tree, vol.used, phys, len)
    requires RightPath(vol.disk, vol.used, subs, pidx, pblk, phdr, inode.root.depth, inode.root.depth, vol.Cap(), lblk,
                       len, inode.tree, inode.root)
    requires |phdr[inode.root.depth].exts| < Top(inode.root.depth, vol.Cap())
             || Coalesces(phdr[inode.root.depth].exts, lblk, phys, len)
    modifies vol`disk, inode`root, inode`tree
    ensures vol.Contents() && (old(vol.Valid()) ==> vol.Valid()) && inode.Ok(vol)
    ensures inode.root.depth == old(inode.root.depth)
    ensures inode.iblocks < U32 ==>
              Mapped(old(inode.tree), inode.tree, vol.used, vol.used, old(vol.disk), vol.disk,
                     inode.iblocks, inode.iblocks, vol.Spb(), lblk, phys, len)
  {
    var depth := inode.root.depth;
    ghost var disk0, x := vol.disk, subs[depth];
    RightLeaf(disk0, vol.used, subs, pidx, pblk, phdr, depth, vol.Cap(), lblk, len, inode.tree, inode.root);
    var m := ExtendLeaf(vol, phdr[depth], pblk[depth], depth, x, lblk, phys, len);
    ghost var t := AppendOk(vol.disk, disk0, disk0, vol.used, inode.root, inode.tree, subs, pidx, pblk, phdr, depth,
                            vol.Cap(),
                            Leaf(m.exts), m, lblk, phys, len, {});
    assert vol.used + {} == vol.used;
    if inode.iblocks < U32 {
      GainNone(inode.tree, t, vol.used, inode.iblocks, vol.Spb());
    }
    if depth == 0 {
      inode.root := m;
    }
    inode.tree := t;
  }

  /** The leaf at the end of the rightmost path. */
  lemma RightLeaf(disk: Disk, used: set<nat>, subs: seq<Tree>, pidx: seq<nat>, pblk: seq<nat>, phdr: seq<Node>,
                  d: nat, cap: nat, block: nat, len: nat, t: Tree, root: Node)
    requires RightPath(disk, used, subs, pidx, pblk, phdr, d, d, cap, block, len, t, root)
    ensures AtLevel(disk, used, subs[d], phdr[d], d, d, cap, block, len)
    ensures d > 0 ==> FromBlock(disk, used, subs[d], phdr[d], pblk[d]) && phdr[d].exts != []
    ensures Good(phdr[d].exts) && EndOf(phdr[d].exts) <= block
    ensures phdr[d].exts != [] ==> Flat(t) != []
  {
    assert AtLevel(disk, used, subs[d], phdr[d], d, d, cap, block, len);
    if d > 0 {
      assert FromBlock(disk, used, subs[d], phdr[d], pblk[d]);
      assert AtLevel(disk, used, subs[0], phdr[0], 0, d, cap, block, len);
      IndexNonEmpty(t, d, ROOT_MAX, cap);
    }
  }

  // ----- a fresh spine -----------------------------------------------------------------------------

  /** A chain of single-entry nodes of height `e` down to a leaf with one record;
      block `top` holds its highest node, `added` are all its blocks. */
  ghost predicate SpineOk(disk: Disk, n: Tree, e: nat, cap: nat, top: nat, added: set<nat>, ext: Extent) {
    && Shape(n, e, cap, cap) && Flat(n) == [ext] && Stored(disk, n, e, cap)
    && top > 0 && top in disk && disk[top] == NodeBlock(NodeOf(n, e, cap))
    && (forall b :: KidRefs(Kid(ext.block, top, n), b) == In(added, b)) && 1 + NodeCount(n) == |added|
  }

  lemma SpineFrame(disk: Disk, n: Tree, e: nat, cap: nat, top: nat, added: set<nat>, ext: Extent, c: nat, z: Block)
    requires SpineOk(disk, n, e, cap, top, added, ext) && c !in added
    ensures SpineOk(disk[c := z], n, e, cap, top, added, ext)
  {
    assert KidRefs(Kid(ext.block, top, n), c) == 0;
    if n.Index? {
      assert NodeRefs(n, c) == 0;
      assert AgreeOn(disk, disk[c := z], n.kids);
      StoredFrame(disk, disk[c := z], n.kids, e - 1, cap);
    }
  }

  lemma SpineLeaf(disk: Disk, cap: nat, c: nat, ext: Extent)
    requires c > 0 && 1 <= cap
    ensures SpineOk(disk[c := NodeBlock(Node(EXTENT_MAGIC, cap, 0, [ext], []))], Leaf([ext]), 0, cap, c, {c}, ext)
  {
    forall b ensures KidRefs(Kid(ext.block, c, Leaf([ext])), b) == In({c}, b) {
      assert NodeRefs(Leaf([ext]), b) == 0;
    }
  }

  lemma SpineUp(disk: Disk, n: Tree, e: nat, cap: nat, top: nat, added: set<nat>, ext: Extent, c: nat)
    requires SpineOk(disk, n, e, cap, top, added, ext) && c !in added && c > 0 && 1 <= cap
    ensures var k := Kid(ext.block, top, n);
            SpineOk(disk[c := NodeBlock(Node(EXTENT_MAGIC, cap, e + 1, [], [Idx(ext.block, top)]))],
                    Index([k]), e + 1, cap, c, added + {c}, ext)
  {
    var k := Kid(ext.block, top, n);
    var disk' := disk[c := NodeBlock(Node(EXTENT_MAGIC, cap, e + 1, [], [Idx(ext.block, top)]))];
    SpineFrame(disk, n, e, cap, top, added, ext, c, disk'[c]);
    FlatOne(k);
    RefsOne(k);
    assert KidOk(k, e, cap) && KidStored(disk', k, e, cap);
    assert KidsOk([k], e, cap) && KidsStored(disk', [k], e, cap);
    assert In(added, top) == KidRefs(k, top) > 0;
    forall b ensures KidRefs(Kid(ext.block, c, Index([k])), b) == In(added + {c}, b) {
      assert NodeRefs(Index([k]), b) == KidRefs(k, b);
    }
  }

  /** Only blocks outside `used` differ: a fresh spine was written. */
  ghost predicate OnlyAdded(disk0: Disk, disk: Disk, added: set<nat>) {
    forall b :: b in disk0 && b !in added ==> b in disk && disk[b] == disk0[b]
  }

  /** The blocks `added` were taken, and nothing but them was written. */
  ghost predicate Taken(used0: set<nat>, used: set<nat>, disk0: Disk, disk: Disk, ib0: nat, ib: nat, spb: nat,
                        added: set<nat>) {
    && added !! used0 && used == used0 + added && OnlyAdded(disk0, disk, added)
    && ib == Wrap(ib0 + |added| * spb)
  }

  lemma TakenMore(used0: set<nat>, used: set<nat>, disk0: Disk, disk: Disk, disk': Disk, ib0: nat, ib: nat, spb: nat,
                  added: set<nat>, c: nat)
    requires Taken(used0, used, disk0, disk, ib0, ib, spb, added) && c !in used && OnlyAdded(disk, disk', {c})
    ensures Taken(used0, used + {c}, disk0, disk', ib0, Wrap(ib + spb), spb, added + {c})
  {
    OnlyAddedTrans(disk0, disk, disk', added, c);
    assert |added + {c}| == |added| + 1;
    SectorsAdd(ib0, |added|, 1, spb);
  }

  lemma OnlyAddedTrans(disk0: Disk, disk: Disk, disk': Disk, added: set<nat>, c: nat)
    requires OnlyAdded(disk0, disk, added) && OnlyAdded(disk, disk', {c})
    ensures OnlyAdded(disk0, disk', added + {c})
  {
  }

  /** The leaf at the bottom of a spine. */
  method StartSpine(vol: Volume, inode: Inode, lblk: nat, phys: nat, len: nat) returns (b: nat)
    requires vol.Valid() && inode.iblocks < U32
    modifies vol, inode`iblocks
    ensures vol.Valid()
    ensures Taken(old(vol.used), vol.used, old(vol.disk), vol.disk, old(inode.iblocks), inode.iblocks, vol.Spb(),
                  if b == 0 then {} else {b})
    ensures b == 0 ==> vol.Exhausted()
    ensures b != 0 ==> SpineOk(vol.disk, Leaf([Extent(lblk, len, phys)]), 0, vol.Cap(), b, {b}, Extent(lblk, len, phys))
  {
    b := vol.AllocBlock();
    if b == 0 { return; }
    inode.iblocks := Wrap(inode.iblocks + vol.Spb());
    SpineLeaf(vol.disk, vol.Cap(), b, Extent(lblk, len, phys));
    vol.WriteNode(b, Node(EXTENT_MAGIC, vol.Cap(), 0, [Extent(lblk, len, phys)], []));
  }

  /** Allocate and write a spine of height `e` for the run.  When the volume runs
      out on the way the blocks taken so far stay allocated. */
  method BuildSpine(vol: Volume, inode: Inode, e: nat, lblk: nat, phys: nat, len: nat)
    returns (ok: bool, top: nat, ghost n: Tree, ghost added: set<nat>)
    requires vol.Valid() && inode.iblocks < U32
    modifies vol, inode`iblocks
    ensures vol.Valid()
    ensures Taken(old(vol.used), vol.used, old(vol.disk), vol.disk, old(inode.iblocks), inode.iblocks, vol.Spb(), added)
    ensures ok ==> SpineOk(vol.disk, n, e, vol.Cap(), top, added, Extent(lblk, len, phys))
    ensures !ok ==> vol.Exhausted()
  {
    ghost var ext, used0, disk0, ib0 := Extent(lblk, len, phys), vol.used, vol.disk, inode.iblocks;
    n := Leaf([ext]);
    top := StartSpine(vol, inode, lblk, phys, len);
    if top == 0 { return false, 0, n, {}; }
    added := {top};
    var h := 0;
    while h < e
      invariant h <= e && vol.Valid()
      invariant Taken(used0, vol.used, disk0, vol.disk, ib0, inode.iblocks, vol.Spb(), added)
      invariant SpineOk(vol.disk, n, h, vol.Cap(), top, added, ext)
    {
      ok, top, n, added := AddToSpine(vol, inode, h, top, lblk, n, added, ext, used0, disk0, ib0);
      if !ok { return; }
      h := h + 1;
    }
    ok := true;
  }

  lemma SpineNext(used0: set<nat>, used: set<nat>, disk0: Disk, disk: Disk, disk': Disk, ib0: nat, ib: nat, spb: nat,
                  n: Tree, h: nat, cap: nat, child: nat, added: set<nat>, ext: Extent, c: nat)
    requires Taken(used0, used, disk0, disk, ib0, ib, spb, added) && SpineOk(disk, n, h, cap, child, added, ext)
    requires c !in used && c > 0 && 1 <= cap && c in disk'
    requires disk'[c] == NodeBlock(Node(EXTENT_MAGIC, cap, h + 1, [], [Idx(ext.block, child)]))
    requires disk' == disk[c := disk'[c]]
    ensures Taken(used0, used + {c}, disk0, disk', ib0, Wrap(ib + spb), spb, added + {c})
    ensures SpineOk(disk', Index([Kid(ext.block, child, n)]), h + 1, cap, c, added + {c}, ext)
  {
    SpineUp(disk, n, h, cap, child, added, ext, c);
    TakenMore(used0, used, disk0, disk, disk', ib0, ib, spb, added, c);
  }

  /** One more index node on top of the spine. */
  method AddToSpine(vol: Volume, inode: Inode, h: nat, child: nat, lblk: nat,
                    ghost n: Tree, ghost added: set<nat>, ghost ext: Extent,
                    ghost used0: set<nat>, ghost disk0: Disk, ghost ib0: nat)
    returns (ok: bool, top: nat, ghost n': Tree, ghost added': set<nat>)
    requires vol.Valid() && ext.block == lblk
    requires Taken(used0, vol.used, disk0, vol.disk, ib0, inode.iblocks, vol.Spb(), added)
    requires SpineOk(vol.disk, n, h, vol.Cap(), child, added, ext)
    modifies vol, inode`iblocks
    ensures vol.Valid() && (!ok ==> vol.Exhausted())
    ensures Taken(used0, vol.used, disk0, vol.disk, ib0, inode.iblocks, vol.Spb(), added')
    ensures ok ==> SpineOk(vol.disk, n', h + 1, vol.Cap(), top, added', ext)
  {
    ghost var used1, disk1, ib1 := vol.used, vol.disk, inode.iblocks;
    var idxblk := vol.AllocBlock();
    if idxblk == 0 { return false, child, n, added; }
    inode.iblocks := Wrap(inode.iblocks + vol.Spb());
    vol.WriteNode(idxblk, Node(EXTENT_MAGIC, vol.Cap(), h + 1, [], [Idx(lblk, child)]));
    SpineNext(used0, used1, disk0, disk1, vol.disk, ib0, ib1, vol.Spb(), n, h, vol.Cap(), child, added, ext, idxblk);
    return true, idxblk, Index([Kid(ext.block, child, n)]), added + {idxblk};
  }

  lemma AddsAtEnd(s: seq<Extent>, block: nat, start: nat, len: nat)
    requires Good(s) && EndOf(s) <= block && RunOk(block, start, len)
    ensures Adds(s, s + [Extent(block, len, start)], block, start, len)
    ensures UsesRun(s, s + [Extent(block, len, start)], start, len)
  {
    EndsByEnd(s);
    PutFresh(block, start, len);
    var y := [Extent(block, len, start)];
    assert s == s + [] + [] && s + y == s + y + [];
    ReplaceAdds(s, s + y, s, [], y, [], block, start, len);
  }

  /** Hanging the spine beside the last child grows the node by the run. */
  lemma SpineLink(disk0: Disk, disk: Disk, used0: set<nat>, x: Tree, p: nat, d: nat, cap: nat,
                  top: nat, n: Tree, added: set<nat>, block: nat, start: nat, len: nat)
    requires p < d && LevelOk(disk0, used0, x, d - p, Top(p, cap), cap) && EndOf(Flat(x)) <= block
    requires x.Index? && Bound(x, |x.kids| - 1, block, len) && |x.kids| < Top(p, cap)
    requires RunOk(block, start, len) && added !! used0 && OnlyAdded(disk0, disk, added)
    requires SpineOk(disk, n, d - p - 1, cap, top, added, Extent(block, len, start))
    ensures Grown(disk0, disk, x, Index(x.kids + [Kid(block, top, n)]), d - p, Top(p, cap), cap, block, start, len,
                  added)
  {
    var i, e := |x.kids| - 1, d - p - 1;
    var k, new' := x.kids[i], Kid(block, top, n);
    KidLevel(disk0, used0, x.kids, i, e + 1, Top(p, cap), cap);
    RightGuides(x.kids, e, cap, block);
    SpineLinkKids(disk0, disk, used0, k, new', e, cap, n, added, block, start, len);
    ReadyFrom(disk0, used0, x.kids, i, e, Top(p, cap), cap, block, len, added);
    LevelUp(disk0, disk, x.kids, i, [k, new'], e, Top(p, cap), cap, block, start, len, added);
    LastSwap(x.kids, new');
  }

  lemma LastSwap(kids: seq<Kid>, k: Kid)
    requires kids != []
    ensures Swap(kids, |kids| - 1, [kids[|kids| - 1], k]) == kids + [k]
    ensures Entries(kids + [k]) == Entries(kids) + [Idx(k.key, k.blk)]
  {
    assert kids[..|kids| - 1] + [kids[|kids| - 1]] == kids;
  }

  lemma SpineLinkKids(disk0: Disk, disk: Disk, used0: set<nat>, k: Kid, new': Kid, e: nat, cap: nat, n: Tree,
                      added: set<nat>, block: nat, start: nat, len: nat)
    requires KidOk(k, e, cap) && KidStored(disk0, k, e, cap) && LevelOk(disk0, used0, k.sub, e, cap, cap)
             && k.blk in used0
    requires EndOf(Flat(k.sub)) <= block && RunOk(block, start, len) && added !! used0 && OnlyAdded(disk0, disk, added)
    requires new'.key == block && new'.sub == n && SpineOk(disk, n, e, cap, new'.blk, added, Extent(block, len, start))
    ensures KidsGrown(disk0, disk, k, [k, new'], e, cap, block, start, len, added)
  {
    FlatTwo(k, new');
    RefsTwo(k, new');
    AddsAtEnd(Flat(k.sub), block, start, len);
    assert KidOk(new', e, cap) && KidStored(disk, new', e, cap);
    if k.sub.Index? {
      assert AgreeOn(disk0, disk, k.sub.kids);
      StoredFrame(disk0, disk, k.sub.kids, e - 1, cap);
    }
    assert KidStored(disk, k, e, cap);
    assert TouchesKid(disk0, disk, k, added);
  }

  // ----- the whole operation -----------------------------------------------------------------------

  /** Blocks taken beside the tree leave it as it was. */
  lemma TreeOkBeside(disk: Disk, disk': Disk, used: set<nat>, root: Node, t: Tree, cap: nat, added: set<nat>)
    requires TreeOk(disk, used, root, t, cap) && OnlyAdded(disk, disk', added) && added !! used
    ensures TreeOk(disk', used + added, root, t, cap) && OthersKept(disk, disk', used, t)
  {
    if t.Index? {
      forall x | NodeRefsKids(t.kids, x) > 0 ensures x !in added {
        assert NodeRefs(t, x) == NodeRefsKids(t.kids, x) <= Refs(t, x);
      }
      assert AgreeOn(disk, disk', t.kids);
      StoredFrame(disk, disk', t.kids, root.depth - 1, cap);
    }
  }

  /** The deepest index node on the path with a free entry, or -1. */
  method FindRoom(phdr: seq<Node>, depth: nat, cap: nat) returns (p: int)
    requires |phdr| == depth + 1
    ensures -1 <= p < depth
    ensures p >= 0 ==> |phdr[p].idxs| < if p == 0 then ROOT_MAX else cap
    ensures forall l :: p < l < depth ==> |phdr[l].idxs| >= if l == 0 then ROOT_MAX else cap
  {
    p := depth - 1;
    while p >= 0
      invariant -1 <= p < depth
      invariant forall l :: p < l < depth ==> |phdr[l].idxs| >= if l == 0 then ROOT_MAX else cap
    {
      var mx := if p == 0 then ROOT_MAX else cap;
      if |phdr[p].idxs| < mx { return; }
      p := p - 1;
    }
  }

  /** Add the entry for the spine to node `nd` and write it back unless it is the root. */
  method EnterSpine(vol: Volume, nd: Node, blk: nat, p: nat, top: nat, lblk: nat, ghost phys: nat, ghost len: nat,
                    ghost x: Tree, ghost d: nat, ghost n: Tree, ghost added: set<nat>, ghost disk0: Disk,
                      ghost used0: set<nat>)
    returns (m: Node)
    requires vol.Contents() && RunOk(lblk, phys, len) && added !! used0 && OnlyAdded(disk0, vol.disk, added)
    requires p < d && AtLevel(disk0, used0, x, nd, p, d, vol.Cap(), lblk, len) && EndOf(Flat(x)) <= lblk
    requires x.Index? && Bound(x, |x.kids| - 1, lblk, len) && |x.kids| < Top(p, vol.Cap())
    requires SpineOk(vol.disk, n, d - p - 1, vol.Cap(), top, added, Extent(lblk, len, phys))
    modifies vol`disk
    ensures vol.Contents() && (old(vol.Valid()) ==> vol.Valid()) && FirstBlock(m) == FirstBlock(nd)
    ensures Written(vol.disk, disk0, old(vol.disk), x, Index(x.kids + [Kid(lblk, top, n)]), m, blk,
                    p, d, vol.Cap(), lblk, phys, len, added)
  {
    SpineWritten(disk0, vol.disk, used0, x, nd, blk, p, d, vol.Cap(), top, n, added, lblk, phys, len);
    m := nd.(idxs := nd.idxs + [Idx(lblk, top)]);
    if p > 0 {
      vol.WriteNode(blk, m);
    }
  }

  lemma RightLevel(disk: Disk, used: set<nat>, subs: seq<Tree>, pidx: seq<nat>, pblk: seq<nat>, phdr: seq<Node>, p: nat,
                   d: nat, cap: nat, block: nat, len: nat, t: Tree, root: Node)
    requires RightPath(disk, used, subs, pidx, pblk, phdr, d, d, cap, block, len, t, root) && p < d
    ensures AtLevel(disk, used, subs[p], phdr[p], p, d, cap, block, len) && EndOf(Flat(subs[p])) <= block
    ensures subs[p].Index? && Bound(subs[p], |subs[p].kids| - 1, block, len) && |subs[p].kids| == |phdr[p].idxs|
  {
    assert AtLevel(disk, used, subs[p], phdr[p], p, d, cap, block, len);
    assert Link(subs[p], pidx[p], subs[p + 1], pblk[p + 1], block, len);
  }

  /** Enter the spine in the node at level `p` and install the new tree. */
  method LinkSpine(vol: Volume, inode: Inode, pblk: seq<nat>, phdr: seq<Node>, ghost pidx: seq<nat>,
                   ghost subs: seq<Tree>,
                   p: nat, top: nat, lblk: nat, ghost phys: nat, ghost len: nat,
                   ghost n: Tree, ghost added: set<nat>, ghost disk0: Disk, ghost used0: set<nat>)
    requires vol.Contents() && RunOk(lblk, phys, len) && p < inode.root.depth
    requires TreeOk(disk0, used0, inode.root, inode.tree, vol.Cap()) && RunFree(inode.tree, used0, phys, len)
    requires RightPath(disk0, used0, subs, pidx, pblk, phdr, inode.root.depth, inode.root.depth, vol.Cap(), lblk, len,
                       inode.tree, inode.root)
    requires |phdr[p].idxs| < Top(p, vol.Cap()) && added !! used0 && vol.used == used0 + added
    requires OnlyAdded(disk0, vol.disk, added)
    requires SpineOk(vol.disk, n, inode.root.depth - p - 1, vol.Cap(), top, added, Extent(lblk, len, phys))
    modifies vol`disk, inode`root, inode`tree
    ensures vol.Contents() && (old(vol.Valid()) ==> vol.Valid()) && inode.Ok(vol)
    ensures Inserted(old(inode.tree), inode.tree, lblk, phys, len) && RefsGrow(old(inode.tree), inode.tree, added)
    ensures OthersKept(disk0, vol.disk, used0, old(inode.tree))
  {
    ghost var d, gd, x := inode.root.depth, vol.disk, subs[p];
    RightLevel(disk0, used0, subs, pidx, pblk, phdr, p, d, vol.Cap(), lblk, len, inode.tree, inode.root);
    var m := EnterSpine(vol, phdr[p], pblk[p], p, top, lblk, phys, len, x, d, n, added, disk0, used0);
    ghost var t := AppendOk(vol.disk, disk0, gd, used0, inode.root, inode.tree, subs, pidx, pblk, phdr, p, vol.Cap(),
                            Index(x.kids + [Kid(lblk, top, n)]), m, lblk, phys, len, added);
    if p == 0 {
      inode.root := m;
    }
    inode.tree := t;
  }

  lemma SpineWritten(disk0: Disk, disk: Disk, used0: set<nat>, x: Tree, nd: Node, blk: nat, p: nat, d: nat, cap: nat,
                     top: nat, n: Tree, added: set<nat>, block: nat, start: nat, len: nat)
    requires p < d && AtLevel(disk0, used0, x, nd, p, d, cap, block, len) && EndOf(Flat(x)) <= block
    requires x.Index? && Bound(x, |x.kids| - 1, block, len) && |x.kids| < Top(p, cap)
    requires RunOk(block, start, len) && added !! used0 && OnlyAdded(disk0, disk, added)
    requires SpineOk(disk, n, d - p - 1, cap, top, added, Extent(block, len, start))
    ensures var m := nd.(idxs := nd.idxs + [Idx(block, top)]);
            && Written(if p == 0 then disk else disk[blk := NodeBlock(m)], disk0, disk, x,
                       Index(x.kids + [Kid(block, top, n)]), m, blk, p, d, cap, block, start, len, added)
            && FirstBlock(m) == FirstBlock(nd)
  {
    var y := Index(x.kids + [Kid(block, top, n)]);
    SpineLink(disk0, disk, used0, x, p, d, cap, top, n, added, block, start, len);
    LastSwap(x.kids, Kid(block, top, n));
    AddsSomething(Flat(x), Flat(y), block, start, len);
    assert NodeOf(y, d - p, Top(p, cap)) == nd.(idxs := nd.idxs + [Idx(block, top)]);
  }

  /** What a failed append leaves: the map, the tree's own blocks and everyone
      else's as they were, though blocks may stay allocated. */
  ghost predicate Unharmed(t0: Tree, t: Tree, used0: set<nat>, used: set<nat>, disk0: Disk, disk: Disk) {
    && Flat(t) == Flat(t0) && used0 <= used && OthersKept(disk0, disk, used0, t0)
    && forall b :: b in used0 && NodeRefs(t0, b) == 0 ==> NodeRefs(t, b) == 0
  }

  lemma UnharmedAfter(t0: Tree, t1: Tree, t2: Tree, used0: set<nat>, used1: set<nat>, used2: set<nat>,
                      disk0: Disk, disk1: Disk, disk2: Disk, ib0: nat, ib1: nat, spb: nat)
    requires Deepened(t0, t1, used0, used1, disk0, disk1, ib0, ib1, spb)
    requires Unharmed(t1, t2, used1, used2, disk1, disk2)
    ensures Unharmed(t0, t2, used0, used2, disk0, disk2)
  {
    KeptTrans(disk0, disk1, disk2, used0, used1, t0, t1);
    forall b | b in used0 && NodeRefs(t0, b) == 0 ensures NodeRefs(t2, b) == 0 {
      assert NodeRefs(t1, b) == 0;
    }
  }

  /** The leaf is full: build a spine and link it at level `p`. */
  method AppendSpine(vol: Volume, inode: Inode, pblk: seq<nat>, phdr: seq<Node>, ghost pidx: seq<nat>,
                     ghost subs: seq<Tree>,
                     p: nat, lblk: nat, phys: nat, len: nat) returns (rc: int)
    requires vol.Valid() && inode.Ok(vol) && inode.iblocks < U32 && RunOk(lblk, phys, len) && p < inode.root.depth
    requires RunFree(inode.tree, vol.used, phys, len)
    requires RightPath(vol.disk, vol.used, subs, pidx, pblk, phdr, inode.root.depth, inode.root.depth, vol.Cap(), lblk,
                       len, inode.tree, inode.root)
    requires |phdr[p].idxs| < Top(p, vol.Cap())
    modifies vol, inode`root, inode`iblocks, inode`tree
    ensures vol.Valid() && inode.Ok(vol) && inode.iblocks < U32 && (rc == 0 || rc == -1)
    ensures rc == 0 ==> Mapped(old(inode.tree), inode.tree, old(vol.used), vol.used, old(vol.disk), vol.disk,
                               old(inode.iblocks), inode.iblocks, vol.Spb(), lblk, phys, len)
    ensures rc == -1 ==> vol.Exhausted()
                         && Unharmed(old(inode.tree), inode.tree, old(vol.used), vol.used, old(vol.disk), vol.disk)
  {
    ghost var disk0, used0, t0, root0, ib0 := vol.disk, vol.used, inode.tree, inode.root, inode.iblocks;
    var ok, top;
    ghost var n, added;
    ok, top, n, added := BuildSpine(vol, inode, inode.root.depth - p - 1, lblk, phys, len);
    if !ok {
      SpineFailed(disk0, vol.disk, used0, vol.used, ib0, inode.iblocks, vol.Spb(), root0, t0, vol.Cap(), added);
      return -1;
    }
    ghost var disk1 := vol.disk;
    LinkSpine(vol, inode, pblk, phdr, pidx, subs, p, top, lblk, phys, len, n, added, disk0, used0);
    SpineMapped(t0, inode.tree, used0, vol.used, disk0, disk1, vol.disk, ib0, inode.iblocks, vol.Spb(), added, lblk,
                phys,
                len);
    return 0;
  }

  lemma SpineMapped(t0: Tree, t: Tree, used0: set<nat>, used: set<nat>, disk0: Disk, disk1: Disk, disk: Disk,
                    ib0: nat, ib: nat, spb: nat, added: set<nat>, block: nat, start: nat, len: nat)
    requires Taken(used0, used, disk0, disk1, ib0, ib, spb, added)
    requires Inserted(t0, t, block, start, len) && RefsGrow(t0, t, added) && OthersKept(disk0, disk, used0, t0)
    ensures Mapped(t0, t, used0, used, disk0, disk, ib0, ib, spb, block, start, len) && ib < U32
  {
    assert used - used0 == added;
  }

  lemma SpineFailed(disk0: Disk, disk: Disk, used0: set<nat>, used: set<nat>, ib0: nat, ib: nat, spb: nat, root: Node,
                    t: Tree, cap: nat, added: set<nat>)
    requires TreeOk(disk0, used0, root, t, cap) && Taken(used0, used, disk0, disk, ib0, ib, spb, added)
    ensures TreeOk(disk, used, root, t, cap) && Unharmed(t, t, used0, used, disk0, disk) && ib < U32
  {
    TreeOkBeside(disk0, disk, used0, root, t, cap, added);
  }

  /** The root is a leaf with a record to spare. */
  predicate RoomInRoot(root: Node) { root.depth == 0 && |root.exts| < ROOT_MAX }

  /** Append the run at or after the end of the file.  On success the map of the
      inode is the old one extended by exactly the run and every new block is a
      node of the tree; on failure the map is the old one.  With a block to be
      had only the depth limit makes the call fail. */
  method ExtentAppend(vol: Volume, inode: Inode, lblk: nat, phys: nat, len: nat) returns (rc: int)
    requires vol.Valid() && inode.iblocks < U32 && (inode.root.magic == EXTENT_MAGIC ==> inode.Ok(vol))
    requires 1 <= len <= MAX_LEN ==> RunOk(lblk, phys, len)
    requires RunFree(inode.tree, vol.used, phys, len) && EndOf(Flat(inode.tree)) <= lblk
    modifies vol, inode`root, inode`iblocks, inode`tree
    ensures vol.Valid() && (rc == 0 || rc == -1) && inode.iblocks < U32
    ensures inode.root.magic == old(inode.root.magic) && (inode.root.magic == EXTENT_MAGIC ==> inode.Ok(vol))
    ensures rc == 0 && len > 0 ==> Mapped(old(inode.tree), inode.tree, old(vol.used), vol.used, old(vol.disk), vol.disk,
                                          old(inode.iblocks), inode.iblocks, vol.Spb(), lblk, phys, len)
    ensures rc == -1 || len == 0 ==>
              Unharmed(old(inode.tree), inode.tree, old(vol.used), vol.used, old(vol.disk), vol.disk)
    ensures old(inode.root.magic) != EXTENT_MAGIC || len > MAX_LEN ==> rc == -1
    ensures old(inode.root.depth) + 1 >= PATH_MAX && len > 0 ==> rc == -1
    ensures rc == -1 && old(inode.root.magic) == EXTENT_MAGIC && len <= MAX_LEN ==>
              vol.Exhausted() || inode.root.depth + 1 >= PATH_MAX
    ensures old(inode.root.magic) == EXTENT_MAGIC && RoomInRoot(old(inode.root)) && 1 <= len <= MAX_LEN ==>
              rc == 0 && vol.used == old(vol.used) && inode.iblocks == old(inode.iblocks)
    decreases if inode.root.depth < PATH_MAX then PATH_MAX - inode.root.depth else 0
  {
    if inode.root.magic != EXTENT_MAGIC { return -1; }
    if len == 0 { return 0; }
    if len > MAX_LEN { return -1; }
    var depth := inode.root.depth;
    if depth + 1 >= PATH_MAX { return -1; }
    var full;
    rc, full := AppendAsIs(vol, inode, lblk, phys, len);
    if full {
      rc := GrowAndAppend(vol, inode, lblk, phys, len);
    }
  }

  lemma IndexNonEmpty(t: Tree, d: nat, top: nat, cap: nat)
    requires Shape(t, d, top, cap) && t.Index?
    ensures Flat(t) != []
  {
    assert KidOk(t.kids[0], d - 1, cap);
    FlatHead(t.kids, d - 1, cap);
  }

  /** Append without deepening the tree: in the last leaf, or on a fresh spine
      below the deepest node with a free entry; `full` when there is none. */
  method AppendAsIs(vol: Volume, inode: Inode, lblk: nat, phys: nat, len: nat) returns (rc: int, full: bool)
    requires vol.Valid() && inode.iblocks < U32 && inode.Ok(vol) && 1 <= len && RunOk(lblk, phys, len)
    requires RunFree(inode.tree, vol.used, phys, len) && EndOf(Flat(inode.tree)) <= lblk
    modifies vol, inode`root, inode`iblocks, inode`tree
    ensures vol.Valid() && inode.Ok(vol) && (rc == 0 || rc == -1) && inode.iblocks < U32
    ensures rc == 0 ==> Mapped(old(inode.tree), inode.tree, old(vol.used), vol.used, old(vol.disk), vol.disk,
                               old(inode.iblocks), inode.iblocks, vol.Spb(), lblk, phys, len)
    ensures rc == -1 && !full ==>
              vol.Exhausted() && Unharmed(old(inode.tree), inode.tree, old(vol.used), vol.used, old(vol.disk), vol.disk)
    ensures full ==>
              rc == -1 && Flat(inode.tree) != [] && inode.tree == old(inode.tree) && inode.root == old(inode.root)
                     && inode.iblocks == old(inode.iblocks) && vol.used == old(vol.used) && vol.disk == old(vol.disk)
    ensures RoomInRoot(old(inode.root)) ==>
              rc == 0 && !full && vol.used == old(vol.used) && inode.iblocks == old(inode.iblocks)
  {
    var depth := inode.root.depth;
    var pblk, phdr;
    ghost var pidx, subs;
    pblk, phdr, pidx, subs := WalkRight(vol, inode, lblk, len);
    RightLeaf(vol.disk, vol.used, subs, pidx, pblk, phdr, depth, vol.Cap(), lblk, len, inode.tree, inode.root);
    var leafMax := if depth == 0 then ROOT_MAX else vol.Cap();
    PutPastEnd(phdr[depth].exts, lblk, phys, len);
    var n := |phdr[depth].exts|;
    if (n > 0 && Follows(phdr[depth].exts[n - 1], lblk, phys, len)) || n < leafMax {
      AppendToLeaf(vol, inode, pblk, phdr, pidx, subs, lblk, phys, len);
      return 0, false;
    }
    var p := FindRoom(phdr, depth, vol.Cap());
    if p >= 0 {
      rc := AppendSpine(vol, inode, pblk, phdr, pidx, subs, p, lblk, phys, len);
      return rc, false;
    }
    return -1, true;
  }

  /** The whole rightmost path is full: deepen the tree and append again. */
  method GrowAndAppend(vol: Volume, inode: Inode, lblk: nat, phys: nat, len: nat) returns (rc: int)
    requires vol.Valid() && inode.iblocks < U32 && inode.root.magic == EXTENT_MAGIC && inode.Ok(vol)
    requires 1 <= len <= MAX_LEN && RunOk(lblk, phys, len) && Flat(inode.tree) != [] && inode.root.depth + 1 < PATH_MAX
    requires RunFree(inode.tree, vol.used, phys, len) && EndOf(Flat(inode.tree)) <= lblk
    modifies vol, inode`root, inode`iblocks, inode`tree
    ensures vol.Valid() && inode.Ok(vol) && (rc == 0 || rc == -1) && inode.iblocks < U32
    ensures rc == 0 ==> Mapped(old(inode.tree), inode.tree, old(vol.used), vol.used, old(vol.disk), vol.disk,
                               old(inode.iblocks), inode.iblocks, vol.Spb(), lblk, phys, len)
    ensures rc == -1 ==> Unharmed(old(inode.tree), inode.tree, old(vol.used), vol.used, old(vol.disk), vol.disk)
    ensures rc == -1 ==> vol.Exhausted() || inode.root.depth + 1 >= PATH_MAX
    decreases PATH_MAX - inode.root.depth, 0
  {
    ghost var t0, used0, disk0, ib0 := inode.tree, vol.used, vol.disk, inode.iblocks;
    GainNone(t0, t0, used0, ib0, vol.Spb());
    var g;
    ghost var c;
    g, c := GrowDepth(vol, inode);
    if g < 0 { return -1; }
    DeepenedMore(t0, t0, c, used0, used0, disk0, disk0, vol.disk, ib0, ib0, vol.Spb());
    DeeperRunFree(t0, c, used0, phys, len);
    ghost var t1, used1, disk1, ib1 := inode.tree, vol.used, vol.disk, inode.iblocks;
    rc := ExtentAppend(vol, inode, lblk, phys, len);
    if rc == 0 {
      MappedAfter(t0, t1, inode.tree, used0, used1, vol.used, disk0, disk1, vol.disk, ib0, ib1, inode.iblocks,
                  vol.Spb(), lblk, phys, len);
    } else {
      UnharmedAfter(t0, t1, inode.tree, used0, used1, vol.used, disk0, disk1, vol.disk, ib0, ib1, vol.Spb());
    }
  }
}
