/** The extent tree: its shape, the sorted extent list it holds, how it lies on
    disk, and what replacing a few neighbouring children of one node does to
    each of these. */
module Ext4Tree {
  import opened RawBytes
  import opened Ext4Extents

  const EXTENT_MAGIC: nat := 0xF30A
  const ROOT_MAX: nat := 4
  const PATH_MAX: nat := 8

  datatype Idx = Idx(key: nat, leaf: nat)

  /** An extent node as it is stored: header fields and its records.  A node of
      depth 0 holds extents, any other node holds index entries. */
  datatype Node = Node(magic: nat, max: nat, depth: nat, exts: seq<Extent>, idxs: seq<Idx>) {
    function Entries(): nat { if depth == 0 then |exts| else |idxs| }
  }

  datatype Block = NodeBlock(node: Node) | DataBlock(bytes: seq<Byte>)
  type Disk = map<nat, Block>

  /** The tree a root node denotes once its child pointers are followed. */
  datatype Tree = Leaf(exts: seq<Extent>) | Index(kids: seq<Kid>)
  datatype Kid = Kid(key: nat, blk: nat, sub: Tree)

  // ----- the extents of a tree, in order ---------------------------------------

  ghost function Flat(t: Tree): seq<Extent>
    decreases t, 0
  {
    match t
    case Leaf(exts) => exts
    case Index(kids) => FlatKids(kids)
  }

  ghost function FlatKids(kids: seq<Kid>): seq<Extent>
    decreases kids, 1
  {
    if kids == [] then [] else assert kids[0].sub < kids[0]; Flat(kids[0].sub) + FlatKids(kids[1..])
  }

  lemma {:induction false} FlatConcat(a: seq<Kid>, c: seq<Kid>)
    ensures FlatKids(a + c) == FlatKids(a) + FlatKids(c)
  {
    if a == [] {
      assert a + c == c;
    } else {
      FlatConcat(a[1..], c);
      assert (a + c)[1..] == a[1..] + c && (a + c)[0] == a[0];
      ExtentsAssoc(Flat(a[0].sub), FlatKids(a[1..]), FlatKids(c));
    }
  }

  lemma ExtentsAssoc(a: seq<Extent>, b: seq<Extent>, c: seq<Extent>)
    ensures a + (b + c) == a + b + c
  {
  }

  lemma FlatSplit(a: seq<Kid>, x: seq<Kid>, c: seq<Kid>)
    ensures FlatKids(a + x + c) == FlatKids(a) + FlatKids(x) + FlatKids(c)
  {
    FlatConcat(a + x, c);
    FlatConcat(a, x);
  }

  lemma FlatOne(k: Kid)
    ensures FlatKids([k]) == Flat(k.sub)
  {
    assert [k][1..] == [];
  }

  lemma FlatTwo(k: Kid, l: Kid)
    ensures FlatKids([k, l]) == Flat(k.sub) + Flat(l.sub)
  {
    assert [k, l][1..] == [l];
    FlatOne(l);
  }

  /** A child's extents sit between those of the children around it. */
  lemma FlatAround(kids: seq<Kid>, i: nat)
    requires i < |kids|
    ensures FlatKids(kids) == FlatKids(kids[..i]) + Flat(kids[i].sub) + FlatKids(kids[i + 1..])
  {
    CutOut(kids, i);
    FlatSplit(kids[..i], [kids[i]], kids[i + 1..]);
    FlatOne(kids[i]);
  }

  // ----- shape -------------------------------------------------------------------

  /** Uniform depth, node capacities, and tight keys: a child is never empty and
      its key is its first logical block.  `top` is the capacity of the node
      itself, `cap` that of every block node below it. */
  ghost predicate Shape(t: Tree, d: nat, top: nat, cap: nat)
    decreases t, 0
  {
    match t
    case Leaf(exts) => d == 0 && |exts| <= top
    case Index(kids) => d > 0 && 0 < |kids| <= top && KidsOk(kids, d - 1, cap)
  }

  ghost predicate KidsOk(kids: seq<Kid>, d: nat, cap: nat)
    decreases kids, 1
  {
    forall i :: 0 <= i < |kids| ==> KidOk(kids[i], d, cap)
  }

  ghost predicate KidOk(k: Kid, d: nat, cap: nat)
    decreases k, 1
  {
    && k.blk > 0 && Flat(k.sub) != [] && k.key == Flat(k.sub)[0].block
    && Shape(k.sub, d, cap, cap)
  }

  /** A well-formed inode tree of depth `d`. */
  ghost predicate WellFormed(t: Tree, d: nat, cap: nat) {
    Shape(t, d, ROOT_MAX, cap) && Good(Flat(t))
  }

  // ----- the blocks of a tree ------------------------------------------------------

  /** How many index entries point at block `x`. */
  ghost function NodeRefs(t: Tree, x: nat): nat
    decreases t, 0
  {
    match t
    case Leaf(_) => 0
    case Index(kids) => NodeRefsKids(kids, x)
  }

  ghost function NodeRefsKids(kids: seq<Kid>, x: nat): nat
    decreases kids, 1
  {
    if kids == [] then 0 else KidRefs(kids[0], x) + NodeRefsKids(kids[1..], x)
  }

  ghost function KidRefs(k: Kid, x: nat): nat
    decreases k, 0
  {
    (if k.blk == x then 1 else 0) + NodeRefs(k.sub, x)
  }

  ghost function NodeCount(t: Tree): nat
    decreases t, 0
  {
    match t
    case Leaf(_) => 0
    case Index(kids) => NodeCountKids(kids)
  }

  ghost function NodeCountKids(kids: seq<Kid>): nat
    decreases kids, 1
  {
    if kids == [] then 0 else assert kids[0].sub < kids[0]; 1 + NodeCount(kids[0].sub) + NodeCountKids(kids[1..])
  }

  lemma {:induction false} RefsConcat(a: seq<Kid>, c: seq<Kid>)
    ensures forall x :: NodeRefsKids(a + c, x) == NodeRefsKids(a, x) + NodeRefsKids(c, x)
    ensures NodeCountKids(a + c) == NodeCountKids(a) + NodeCountKids(c)
  {
    if a == [] {
      assert a + c == c;
    } else {
      RefsConcat(a[1..], c);
      assert (a + c)[1..] == a[1..] + c;
    }
  }

  lemma RefsSplit(a: seq<Kid>, y: seq<Kid>, c: seq<Kid>)
    ensures forall x :: NodeRefsKids(a + y + c, x) == NodeRefsKids(a, x) + NodeRefsKids(y, x) + NodeRefsKids(c, x)
    ensures NodeCountKids(a + y + c) == NodeCountKids(a) + NodeCountKids(y) + NodeCountKids(c)
  {
    RefsConcat(a + y, c);
    RefsConcat(a, y);
  }

  lemma RefsOne(k: Kid)
    ensures forall x :: NodeRefsKids([k], x) == KidRefs(k, x)
    ensures NodeCountKids([k]) == 1 + NodeCount(k.sub)
  {
    assert [k][1..] == [];
  }

  lemma RefsTwo(k: Kid, l: Kid)
    ensures forall x :: NodeRefsKids([k, l], x) == KidRefs(k, x) + KidRefs(l, x)
    ensures NodeCountKids([k, l]) == 2 + NodeCount(k.sub) + NodeCount(l.sub)
  {
    assert [k, l][1..] == [l];
    RefsOne(l);
  }

  lemma RefsAround(kids: seq<Kid>, i: nat)
    requires i < |kids|
    ensures forall x :: NodeRefsKids(kids, x) ==
              NodeRefsKids(kids[..i], x) + KidRefs(kids[i], x) + NodeRefsKids(kids[i + 1..], x)
    ensures NodeCountKids(kids) ==
              NodeCountKids(kids[..i]) + 1 + NodeCount(kids[i].sub) + NodeCountKids(kids[i + 1..])
  {
    CutOut(kids, i);
    RefsSplit(kids[..i], [kids[i]], kids[i + 1..]);
    RefsOne(kids[i]);
  }

  /** All uses of block `x` by the tree, as a node or as data. */
  ghost function Refs(t: Tree, x: nat): nat {
    NodeRefs(t, x) + DataRefs(Flat(t), x)
  }

  /** Number of blocks the tree accounts for. */
  ghost function BlockCount(t: Tree): nat {
    NodeCount(t) + DataCount(Flat(t))
  }

  /** No block is used twice. */
  ghost predicate Distinct(t: Tree) {
    forall x :: Refs(t, x) <= 1
  }

  // ----- the tree on disk -------------------------------------------------------

  function Entries(kids: seq<Kid>): (r: seq<Idx>)
    ensures |r| == |kids|
    ensures forall i :: 0 <= i < |kids| ==> r[i] == Idx(kids[i].key, kids[i].blk)
  {
    seq(|kids|, i requires 0 <= i < |kids| => Idx(kids[i].key, kids[i].blk))
  }

  function NodeOf(t: Tree, d: nat, max: nat): Node {
    match t
    case Leaf(exts) => Node(EXTENT_MAGIC, max, d, exts, [])
    case Index(kids) => Node(EXTENT_MAGIC, max, d, [], Entries(kids))
  }

  /** The blocks below the root of `t` hold its nodes. */
  ghost predicate Stored(disk: Disk, t: Tree, d: nat, cap: nat)
    decreases t, 0
  {
    match t
    case Leaf(_) => true
    case Index(kids) => d > 0 && KidsStored(disk, kids, d - 1, cap)
  }

  ghost predicate KidsStored(disk: Disk, kids: seq<Kid>, d: nat, cap: nat)
    decreases kids, 1
  {
    forall i :: 0 <= i < |kids| ==> KidStored(disk, kids[i], d, cap)
  }

  ghost predicate KidStored(disk: Disk, k: Kid, d: nat, cap: nat)
    decreases k, 1
  {
    && k.blk in disk && disk[k.blk] == NodeBlock(NodeOf(k.sub, d, cap))
    && Stored(disk, k.sub, d, cap)
  }

  /** The two disks agree on every node block of the tree. */
  ghost predicate AgreeOn(disk: Disk, disk': Disk, kids: seq<Kid>) {
    forall x :: NodeRefsKids(kids, x) > 0 && x in disk ==> x in disk' && disk'[x] == disk[x]
  }

  /** A write elsewhere leaves the tree as it is stored. */
  lemma {:induction false} StoredFrame(disk: Disk, disk': Disk, kids: seq<Kid>, d: nat, cap: nat)
    requires KidsStored(disk, kids, d, cap) && AgreeOn(disk, disk', kids)
    ensures KidsStored(disk', kids, d, cap)
    decreases d
  {
    forall i | 0 <= i < |kids| ensures KidStored(disk', kids[i], d, cap) {
      assert KidStored(disk, kids[i], d, cap);
      RefsAround(kids, i);
      assert NodeRefsKids(kids, kids[i].blk) > 0;
      if kids[i].sub.Index? {
        var subs := kids[i].sub.kids;
        assert Stored(disk, kids[i].sub, d, cap);
        assert AgreeOn(disk, disk', subs) by { AgreeOnSub(disk, disk', kids, i); }
        StoredFrame(disk, disk', subs, d - 1, cap);
      }
    }
  }

  lemma AgreeOnSub(disk: Disk, disk': Disk, kids: seq<Kid>, i: nat)
    requires AgreeOn(disk, disk', kids) && i < |kids| && kids[i].sub.Index?
    ensures AgreeOn(disk, disk', kids[i].sub.kids)
  {
    RefsAround(kids, i);
    assert forall x :: NodeRefsKids(kids[i].sub.kids, x) <= KidRefs(kids[i], x) <= NodeRefsKids(kids, x);
  }

  // ----- finding the way down ------------------------------------------------------

  /** `i` is the child an insertion or a lookup of `b` descends into. */
  ghost predicate Guides(kids: seq<Kid>, i: nat, b: nat) {
    && i < |kids|
    && (i > 0 ==> kids[i].key <= b)
    && (i + 1 < |kids| ==> b < kids[i + 1].key)
  }

  lemma FlatHead(kids: seq<Kid>, d: nat, cap: nat)
    requires kids != [] && KidOk(kids[0], d, cap)
    ensures FlatKids(kids) != [] && FlatKids(kids)[0].block == kids[0].key
  {
  }

  /** The extents left of child `i` end before its key, those right of it begin
      at the next key. */
  lemma GuideBounds(kids: seq<Kid>, i: nat, d: nat, cap: nat)
    requires i < |kids| && Good(FlatKids(kids))
    requires KidsOk(kids, d, cap)
    ensures Good(Flat(kids[i].sub))
    ensures EndsBy(FlatKids(kids[..i]), kids[i].key)
    ensures i + 1 < |kids| ==> StartsFrom(FlatKids(kids[i + 1..]), kids[i + 1].key)
  {
    var a, x, c := FlatKids(kids[..i]), Flat(kids[i].sub), FlatKids(kids[i + 1..]);
    FlatAround(kids, i);
    GoodParts(a, x, c);
    assert KidOk(kids[i], d, cap);
    if i + 1 < |kids| {
      assert kids[i + 1..][0] == kids[i + 1];
      FlatHead(kids[i + 1..], d, cap);
      assert forall j :: 0 < j < |c| ==> c[0].End() <= c[j].block;
    }
  }

  /** Looking `b` up in the guiding child is looking it up in the whole node. */
  lemma GuideLookup(kids: seq<Kid>, i: nat, b: nat, d: nat, cap: nat)
    requires Guides(kids, i, b) && kids[i].key <= b && Good(FlatKids(kids))
    requires KidsOk(kids, d, cap)
    ensures At(FlatKids(kids), b) == At(Flat(kids[i].sub), b)
  {
    var a, x, c := FlatKids(kids[..i]), Flat(kids[i].sub), FlatKids(kids[i + 1..]);
    GuideBounds(kids, i, d, cap);
    FlatAround(kids, i);
    GoodParts(a, x, c);
    AtConcat(a + x, c, b);
    AtConcat(a, x, b);
    UnmappedAbove(a, b);
    assert i + 1 == |kids| ==> kids[i + 1..] == [];
    UnmappedBelow(c, b);
  }

  /** Nothing is mapped below the first key. */
  lemma GuideNone(kids: seq<Kid>, b: nat, d: nat, cap: nat)
    requires kids != [] && b < kids[0].key && Good(FlatKids(kids))
    requires KidsOk(kids, d, cap)
    ensures At(FlatKids(kids), b) == 0
  {
    assert KidOk(kids[0], d, cap);
    FlatHead(kids, d, cap);
    var f := FlatKids(kids);
    assert forall j :: 0 < j < |f| ==> f[0].End() <= f[j].block;
    UnmappedBelow(f, b);
  }

  /** An unmapped run fits into the gap around the guiding child. */
  lemma GuideFits(kids: seq<Kid>, i: nat, block: nat, len: nat, d: nat, cap: nat)
    requires Guides(kids, i, block) && Good(FlatKids(kids)) && 1 <= len
    requires KidsOk(kids, d, cap)
    requires Unmapped(FlatKids(kids), block, len)
    ensures Fits(FlatKids(kids[..i]), FlatKids(kids[i + 1..]), block, len)
    ensures Unmapped(Flat(kids[i].sub), block, len)
  {
    var a, x, c := FlatKids(kids[..i]), Flat(kids[i].sub), FlatKids(kids[i + 1..]);
    GuideBounds(kids, i, d, cap);
    FlatAround(kids, i);
    GoodParts(a, x, c);
    assert i == 0 ==> kids[..i] == [];
    GuideFitsRight(kids, i, block, len, d, cap);
    forall b | block <= b < block + len ensures At(x, b) == 0 {
      AtConcat(a + x, c, b);
      AtConcat(a, x, b);
      assert At(FlatKids(kids), b) == 0;
    }
  }

  lemma GuideFitsRight(kids: seq<Kid>, i: nat, block: nat, len: nat, d: nat, cap: nat)
    requires Guides(kids, i, block) && Good(FlatKids(kids))
    requires KidsOk(kids, d, cap)
    requires Unmapped(FlatKids(kids), block, len)
    ensures StartsFrom(FlatKids(kids[i + 1..]), block + len)
  {
    if i + 1 < |kids| {
      var c := FlatKids(kids[i + 1..]);
      GuideBounds(kids, i, d, cap);
      FlatAround(kids, i);
      assert kids[i + 1..][0] == kids[i + 1];
      FlatHead(kids[i + 1..], d, cap);
      var f := FlatKids(kids);
      var p := |f| - |c|;
      assert f[p] == c[0];
      MappedAt(f, p, f[p].block);
      assert forall j :: 0 <= j < |c| ==> f[p + j] == c[j];
    } else {
      assert kids[i + 1..] == [];
    }
  }

  // ----- replacing a child ---------------------------------------------------------

  /** The children after child `i` gives way to the children `ks`. */
  function Swap(kids: seq<Kid>, i: nat, ks: seq<Kid>): seq<Kid>
    requires i < |kids|
  {
    kids[..i] + ks + kids[i + 1..]
  }

  /** Adding a run to the extents of one child adds it to those of the node. */
  lemma SwapAdds(kids: seq<Kid>, i: nat, ks: seq<Kid>, block: nat, start: nat, len: nat)
    requires i < |kids| && Good(FlatKids(kids)) && 0 < start
    requires Adds(Flat(kids[i].sub), FlatKids(ks), block, start, len)
    requires UsesRun(Flat(kids[i].sub), FlatKids(ks), start, len)
    requires Fits(FlatKids(kids[..i]), FlatKids(kids[i + 1..]), block, len)
    ensures Adds(FlatKids(kids), FlatKids(Swap(kids, i, ks)), block, start, len)
    ensures UsesRun(FlatKids(kids), FlatKids(Swap(kids, i, ks)), start, len)
  {
    FlatAround(kids, i);
    FlatSplit(kids[..i], ks, kids[i + 1..]);
    ReplaceAdds(FlatKids(kids), FlatKids(Swap(kids, i, ks)),
                FlatKids(kids[..i]), Flat(kids[i].sub), FlatKids(ks), FlatKids(kids[i + 1..]),
                block, start, len);
  }

  lemma SwapRefs(kids: seq<Kid>, i: nat, ks: seq<Kid>)
    requires i < |kids|
    ensures forall x :: NodeRefsKids(Swap(kids, i, ks), x) + KidRefs(kids[i], x) ==
                        NodeRefsKids(kids, x) + NodeRefsKids(ks, x)
    ensures NodeCountKids(Swap(kids, i, ks)) + 1 + NodeCount(kids[i].sub) ==
            NodeCountKids(kids) + NodeCountKids(ks)
  {
    RefsAround(kids, i);
    RefsSplit(kids[..i], ks, kids[i + 1..]);
  }

  lemma SwapShape(kids: seq<Kid>, i: nat, ks: seq<Kid>, d: nat, cap: nat)
    requires i < |kids|
    requires KidsOk(kids, d, cap)
    requires KidsOk(ks, d, cap)
    ensures KidsOk(Swap(kids, i, ks), d, cap)
  {
  }

  lemma SwapStored(disk: Disk, disk': Disk, kids: seq<Kid>, i: nat, ks: seq<Kid>, d: nat, cap: nat)
    requires i < |kids| && KidsStored(disk, kids, d, cap) && KidsStored(disk', ks, d, cap)
    requires AgreeOn(disk, disk', kids[..i]) && AgreeOn(disk, disk', kids[i + 1..])
    ensures KidsStored(disk', Swap(kids, i, ks), d, cap)
  {
    StoredFrame(disk, disk', kids[..i], d, cap);
    StoredFrame(disk, disk', kids[i + 1..], d, cap);
  }
}
