/** How an insertion travels from a leaf up to the root: what one level of the
    tree must satisfy for the level above it to satisfy the same. */
module Ext4Levels {
  import opened Ext4Extents
  import opened Ext4Tree

  ghost function In(s: set<nat>, x: nat): nat {
    if x in s then 1 else 0
  }

  /** Only node blocks of `x`, or added blocks, differ between the disks. */
  ghost predicate TouchesOnly(disk0: Disk, disk: Disk, x: Tree, added: set<nat>) {
    forall b :: b in disk0 && NodeRefs(x, b) == 0 && b !in added ==> b in disk && disk[b] == disk0[b]
  }

  ghost predicate TouchesKid(disk0: Disk, disk: Disk, k: Kid, added: set<nat>) {
    forall b :: b in disk0 && KidRefs(k, b) == 0 && b !in added ==> b in disk && disk[b] == disk0[b]
  }

  /** `y` points at the node blocks of `x` and at the added ones, once each. */
  ghost predicate RefsGrow(x: Tree, y: Tree, added: set<nat>) {
    && (forall b :: NodeRefs(y, b) == NodeRefs(x, b) + In(added, b))
    && NodeCount(y) == NodeCount(x) + |added|
  }

  /** Subtree `x` became `y`: a well-shaped, stored subtree that denotes one run
      more and uses the run's blocks and the added node blocks more. */
  ghost predicate Grown(disk0: Disk, disk: Disk, x: Tree, y: Tree, d: nat, top: nat, cap: nat,
                        block: nat, start: nat, len: nat, added: set<nat>)
  {
    && Shape(y, d, top, cap) && Stored(disk, y, d, cap)
    && Adds(Flat(x), Flat(y), block, start, len) && UsesRun(Flat(x), Flat(y), start, len)
    && RefsGrow(x, y, added) && TouchesOnly(disk0, disk, x, added)
  }

  /** The state of a node before the insertion reaches it. */
  ghost predicate Ready(disk0: Disk, kids: seq<Kid>, i: nat, d: nat, cap: nat, block: nat, len: nat, added: set<nat>)
  {
    && KidsOk(kids, d, cap) && KidsStored(disk0, kids, d, cap) && Good(FlatKids(kids))
    && Guides(kids, i, block) && Unmapped(FlatKids(kids), block, len)
    && forall b :: NodeRefsKids(kids, b) + In(added, b) <= 1
  }

  /** What the children replacing child `i` must satisfy. */
  ghost predicate KidsGrown(disk0: Disk, disk: Disk, k: Kid, ks: seq<Kid>, d: nat, cap: nat,
                            block: nat, start: nat, len: nat, added: set<nat>)
  {
    && KidsOk(ks, d, cap) && KidsStored(disk, ks, d, cap)
    && Adds(Flat(k.sub), FlatKids(ks), block, start, len) && UsesRun(Flat(k.sub), FlatKids(ks), start, len)
    && (forall b :: NodeRefsKids(ks, b) == KidRefs(k, b) + In(added, b))
    && NodeCountKids(ks) == 1 + NodeCount(k.sub) + |added|
    && TouchesKid(disk0, disk, k, added)
  }

  lemma AgreeBeside(disk0: Disk, disk: Disk, kids: seq<Kid>, i: nat, added: set<nat>)
    requires i < |kids| && TouchesKid(disk0, disk, kids[i], added)
    requires forall b :: NodeRefsKids(kids, b) + In(added, b) <= 1
    ensures AgreeOn(disk0, disk, kids[..i]) && AgreeOn(disk0, disk, kids[i + 1..])
  {
    RefsAround(kids, i);
  }

  /** One level up: when child `i` has grown into `ks`, the node has grown. */
  lemma LevelUp(disk0: Disk, disk: Disk, kids: seq<Kid>, i: nat, ks: seq<Kid>, d: nat, top: nat, cap: nat,
                block: nat, start: nat, len: nat, added: set<nat>)
    requires Ready(disk0, kids, i, d, cap, block, len, added) && RunOk(block, start, len)
    requires KidsGrown(disk0, disk, kids[i], ks, d, cap, block, start, len, added)
    requires 1 <= |ks| && |kids| + |ks| - 1 <= top
    ensures Grown(disk0, disk, Index(kids), Index(Swap(kids, i, ks)), d + 1, top, cap, block, start, len, added)
  {
    var y := Index(Swap(kids, i, ks));
    GuideFits(kids, i, block, len, d, cap);
    SwapAdds(kids, i, ks, block, start, len);
    SwapShape(kids, i, ks, d, cap);
    assert Shape(y, d + 1, top, cap);
    AgreeBeside(disk0, disk, kids, i, added);
    SwapStored(disk0, disk, kids, i, ks, d, cap);
    assert Stored(disk, y, d + 1, cap);
    SwapRefs(kids, i, ks);
    RefsAround(kids, i);
    assert RefsGrow(Index(kids), y, added);
    assert TouchesOnly(disk0, disk, Index(kids), added);
  }

  /** The key of a subtree is read from its node. */
  function FirstBlock(n: Node): nat {
    if n.Entries() == 0 then 0
    else if n.depth == 0 then n.exts[0].block
    else n.idxs[0].key
  }

  lemma FirstBlockIsFirst(t: Tree, d: nat, top: nat, cap: nat, max: nat)
    requires Shape(t, d, top, cap) && Flat(t) != []
    ensures FirstBlock(NodeOf(t, d, max)) == Flat(t)[0].block
  {
    if t.Index? {
      assert KidOk(t.kids[0], d - 1, cap);
      FlatHead(t.kids, d - 1, cap);
    }
  }

  /** A grown subtree whose node has been written is a grown child. */
  lemma KidGrows(disk0: Disk, disk: Disk, disk': Disk, k: Kid, y: Tree, d: nat, cap: nat,
                 block: nat, start: nat, len: nat, added: set<nat>)
    requires Grown(disk0, disk, k.sub, y, d, cap, cap, block, start, len, added)
    requires k.blk > 0 && NodeRefs(y, k.blk) == 0 && Flat(y) != []
    requires disk' == disk[k.blk := NodeBlock(NodeOf(y, d, cap))]
    ensures KidsGrown(disk0, disk', k, [Kid(Flat(y)[0].block, k.blk, y)], d, cap, block, start, len, added)
  {
    var k' := Kid(Flat(y)[0].block, k.blk, y);
    RefsOne(k');
    FlatOne(k');
    if y.Index? {
      assert AgreeOn(disk, disk', y.kids);
      StoredFrame(disk, disk', y.kids, d - 1, cap);
    }
    assert KidStored(disk', k', d, cap);
    assert KidOk(k', d, cap);
    assert TouchesKid(disk0, disk', k, added);
  }

  // ----- one level of a well-formed tree -----------------------------------------------

  /** What holds of every subtree of a well-formed inode tree. */
  ghost predicate LevelOk(disk: Disk, used: set<nat>, x: Tree, d: nat, top: nat, cap: nat) {
    && Shape(x, d, top, cap) && Stored(disk, x, d, cap) && Good(Flat(x))
    && forall b :: NodeRefs(x, b) <= 1 && (NodeRefs(x, b) > 0 ==> b in used)
  }

  lemma KidLevel(disk: Disk, used: set<nat>, kids: seq<Kid>, i: nat, d: nat, top: nat, cap: nat)
    requires LevelOk(disk, used, Index(kids), d, top, cap) && i < |kids|
    ensures d > 0 && KidOk(kids[i], d - 1, cap) && KidStored(disk, kids[i], d - 1, cap)
    ensures LevelOk(disk, used, kids[i].sub, d - 1, cap, cap)
    ensures kids[i].blk in used && NodeRefs(kids[i].sub, kids[i].blk) == 0
    ensures forall b :: KidRefs(kids[i], b) <= NodeRefs(Index(kids), b)
  {
    RefsAround(kids, i);
    FlatAround(kids, i);
    GoodParts(FlatKids(kids[..i]), Flat(kids[i].sub), FlatKids(kids[i + 1..]));
    assert KidsOk(kids, d - 1, cap) && KidsStored(disk, kids, d - 1, cap);
    assert KidRefs(kids[i], kids[i].blk) <= NodeRefs(Index(kids), kids[i].blk);
    assert forall b :: NodeRefs(kids[i].sub, b) <= KidRefs(kids[i], b) <= NodeRefs(Index(kids), b);
  }

  /** The run is bound for child `i` of the node, and the run is unmapped. */
  ghost predicate Bound(x: Tree, i: nat, block: nat, len: nat) {
    x.Index? && Guides(x.kids, i, block) && Unmapped(Flat(x), block, len)
  }

  lemma ReadyFrom(disk0: Disk, used: set<nat>, kids: seq<Kid>, i: nat, d: nat, top: nat, cap: nat,
                  block: nat, len: nat, added: set<nat>)
    requires LevelOk(disk0, used, Index(kids), d + 1, top, cap) && Bound(Index(kids), i, block, len)
    requires added !! used
    ensures Ready(disk0, kids, i, d, cap, block, len, added)
  {
    assert forall b :: NodeRefs(Index(kids), b) == NodeRefsKids(kids, b);
  }

  /** The node above a grown child whose block has been written has grown; its
      entry for that child carries the child's new first block. */
  lemma Rise(disk0: Disk, disk: Disk, used: set<nat>, kids: seq<Kid>, i: nat, y: Tree, d: nat, top: nat, cap: nat,
             block: nat, start: nat, len: nat, added: set<nat>)
    requires LevelOk(disk0, used, Index(kids), d + 1, top, cap) && Bound(Index(kids), i, block, len)
    requires RunOk(block, start, len) && added !! used && |kids| <= top
    requires Grown(disk0, disk, kids[i].sub, y, d, cap, cap, block, start, len, added) && Flat(y) != []
    ensures Grown(disk0, disk[kids[i].blk := NodeBlock(NodeOf(y, d, cap))], Index(kids),
                  Index(Swap(kids, i, [Kid(Flat(y)[0].block, kids[i].blk, y)])),
                  d + 1, top, cap, block, start, len, added)
  {
    KidLevel(disk0, used, kids, i, d + 1, top, cap);
    ReadyFrom(disk0, used, kids, i, d, top, cap, block, len, added);
    var disk' := disk[kids[i].blk := NodeBlock(NodeOf(y, d, cap))];
    assert NodeRefs(y, kids[i].blk) == 0;
    KidGrows(disk0, disk, disk', kids[i], y, d, cap, block, start, len, added);
    LevelUp(disk0, disk', kids, i, [Kid(Flat(y)[0].block, kids[i].blk, y)], d, top, cap, block, start, len, added);
  }

  /** Putting the run into a leaf with room grows the leaf. */
  lemma LeafGrows(disk: Disk, exts: seq<Extent>, top: nat, cap: nat, block: nat, start: nat, len: nat)
    requires Good(exts) && RunOk(block, start, len) && Unmapped(exts, block, len)
    requires |exts| < top || (|exts| <= top && Coalesces(exts, block, start, len))
    ensures Grown(disk, disk, Leaf(exts), Leaf(Put(exts, block, start, len)), 0, top, cap, block, start, len, {})
    ensures Put(exts, block, start, len) != []
  {
    PutAdds(exts, block, start, len);
  }
}
