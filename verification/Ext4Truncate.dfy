/** Truncation: `ext4_free_subtree_from` walks the tree from the right and frees
    every data block at or beyond a logical block and every node that becomes
    empty.  What is left denotes the old map cut off at that block. */
module Ext4Truncate {
  import opened Ext4Extents
  import opened Ext4Tree
  import opened Ext4Volume
  import opened Ext4Levels
  import opened Ext4ExtentOps

  // ----- cutting a list of extents -------------------------------------------------------------

  /** What is left of one extent below `from`. */
  function CutOne(e: Extent, from: nat): seq<Extent> {
    if e.End() <= from then [e] else if from <= e.block then [] else [e.(len := from - e.block)]
  }

  ghost function Cut(s: seq<Extent>, from: nat): seq<Extent> {
    if s == [] then [] else CutOne(s[0], from) + Cut(s[1..], from)
  }

  lemma ConcatAssoc<T>(x: seq<T>, y: seq<T>, z: seq<T>)
    ensures x + (y + z) == x + y + z
  {
  }

  lemma {:induction false} CutConcat(a: seq<Extent>, c: seq<Extent>, from: nat)
    ensures Cut(a + c, from) == Cut(a, from) + Cut(c, from)
  {
    if a == [] {
      assert a + c == c;
    } else {
      CutConcat(a[1..], c, from);
      assert (a + c)[1..] == a[1..] + c && (a + c)[0] == a[0];
      ConcatAssoc(CutOne(a[0], from), Cut(a[1..], from), Cut(c, from));
    }
  }

  lemma {:induction false} CutNothing(s: seq<Extent>, from: nat)
    requires EndsBy(s, from)
    ensures Cut(s, from) == s
  {
    if s != [] {
      CutNothing(s[1..], from);
    }
  }

  lemma {:induction false} CutAll(s: seq<Extent>, from: nat)
    requires StartsFrom(s, from) && AllValid(s)
    ensures Cut(s, from) == []
  {
    if s != [] {
      CutAll(s[1..], from);
    }
  }

  lemma {:induction false} CutWithin(s: seq<Extent>, from: nat, lo: nat)
    requires AllValid(s) && StartsFrom(s, lo)
    ensures AllValid(Cut(s, from)) && EndsBy(Cut(s, from), from) && StartsFrom(Cut(s, from), lo)
  {
    if s != [] {
      CutWithin(s[1..], from, lo);
    }
  }

  lemma {:induction false} CutGood(s: seq<Extent>, from: nat)
    requires Good(s)
    ensures Good(Cut(s, from))
  {
    if s != [] {
      assert Good(s[1..]);
      CutGood(s[1..], from);
      CutWithin(s[1..], from, s[0].End());
    }
  }

  /** The cut list denotes the map restricted to the blocks below `from`. */
  lemma {:induction false} CutAt(s: seq<Extent>, from: nat, b: nat)
    requires Good(s)
    ensures At(Cut(s, from), b) == if b < from then At(s, b) else 0
  {
    if s != [] {
      assert Good(s[1..]);
      CutAt(s[1..], from, b);
      AtConcat(CutOne(s[0], from), Cut(s[1..], from), b);
      One(s[0]);
      One(s[0].(len := if from <= s[0].block then 0 else from - s[0].block));
      if s[0].Covers(b) && At(s[1..], b) != 0 {
        var k := MappedSomewhere(s[1..], b);
      }
    }
  }

  lemma {:induction false} CutRefs(s: seq<Extent>, from: nat)
    ensures forall x :: DataRefs(Cut(s, from), x) <= DataRefs(s, x)
    ensures DataCount(Cut(s, from)) <= DataCount(s)
  {
    if s != [] {
      CutRefs(s[1..], from);
      DataConcat(CutOne(s[0], from), Cut(s[1..], from));
      One(s[0]);
      One(s[0].(len := if from <= s[0].block then 0 else from - s[0].block));
    }
  }

  /** A sorted list whose first extent starts below `from` keeps that start. */
  lemma CutFirst(s: seq<Extent>, from: nat)
    requires Good(s) && s != []
    ensures s[0].block < from ==> Cut(s, from) != [] && Cut(s, from)[0].block == s[0].block
    ensures from <= s[0].block ==> Cut(s, from) == []
  {
    if from <= s[0].block {
      assert forall i :: 0 < i < |s| ==> s[0].End() <= s[i].block;
      CutAll(s, from);
    }
  }

  // ----- cutting a tree -----------------------------------------------------------------------------

  /** The tree after truncation: children that start at or beyond `from` are gone,
      the last of the others is cut in turn. */
  ghost function Pruned(t: Tree, from: nat): Tree
    decreases t, 0
  {
    match t
    case Leaf(exts) => Leaf(Cut(exts, from))
    case Index(kids) => Index(PrunedKids(kids, from))
  }

  ghost function PrunedKids(kids: seq<Kid>, from: nat): seq<Kid>
    decreases kids, 1
  {
    if kids == [] then []
    else
      var k := kids[|kids| - 1];
      if k.key < from then
        assert k.sub < k;
        kids[..|kids| - 1] + [k.(sub := Pruned(k.sub, from))]
      else PrunedKids(kids[..|kids| - 1], from)
  }

  lemma LastKid(kids: seq<Kid>)
    requires kids != []
    ensures kids == kids[..|kids| - 1] + [kids[|kids| - 1]]
    ensures FlatKids(kids) == FlatKids(kids[..|kids| - 1]) + Flat(kids[|kids| - 1].sub)
    ensures forall b :: NodeRefsKids(kids, b) == NodeRefsKids(kids[..|kids| - 1], b) + KidRefs(kids[|kids| - 1], b)
    ensures NodeCountKids(kids) == NodeCountKids(kids[..|kids| - 1]) + 1 + NodeCount(kids[|kids| - 1].sub)
  {
    ButLast(kids);
    AddedKid(kids[..|kids| - 1], kids[|kids| - 1]);
  }

  lemma ButLast<T>(s: seq<T>)
    requires s != []
    ensures s == s[..|s| - 1] + [s[|s| - 1]]
  {
  }

  lemma AddedKid(a: seq<Kid>, k: Kid)
    ensures FlatKids(a + [k]) == FlatKids(a) + Flat(k.sub)
    ensures forall b :: NodeRefsKids(a + [k], b) == NodeRefsKids(a, b) + KidRefs(k, b)
    ensures NodeCountKids(a + [k]) == NodeCountKids(a) + 1 + NodeCount(k.sub)
  {
    FlatConcat(a, [k]);
    FlatOne(k);
    RefsConcat(a, [k]);
    RefsOne(k);
  }

  /** What pruning a subtree does to it. */
  ghost predicate PrunedWell(x: Tree, y: Tree, from: nat, d: nat, top: nat, cap: nat) {
    && Flat(y) == Cut(Flat(x), from) && (Flat(y) != [] ==> Shape(y, d, top, cap))
    && (forall b :: NodeRefs(y, b) <= NodeRefs(x, b)) && NodeCount(y) <= NodeCount(x)
    && (Flat(y) == [] ==> NodeCount(y) == 0 && forall b :: NodeRefs(y, b) == 0)
    && (Flat(y) == [] <==> NodeOf(y, d, top).Entries() == 0)
  }

  ghost predicate KidsPrunedWell(kids: seq<Kid>, ks: seq<Kid>, from: nat, d: nat, cap: nat) {
    && FlatKids(ks) == Cut(FlatKids(kids), from) && KidsOk(ks, d, cap) && |ks| <= |kids|
    && (forall b :: NodeRefsKids(ks, b) <= NodeRefsKids(kids, b)) && NodeCountKids(ks) <= NodeCountKids(kids)
    && (ks == [] <==> FlatKids(ks) == [])
  }

  lemma {:induction false} PruneTree(x: Tree, from: nat, d: nat, top: nat, cap: nat)
    requires Shape(x, d, top, cap) && Good(Flat(x))
    ensures PrunedWell(x, Pruned(x, from), from, d, top, cap)
    decreases d, 0
  {
    if x.Index? {
      PruneKids(x.kids, from, d - 1, cap);
      var ks := PrunedKids(x.kids, from);
      assert Pruned(x, from) == Index(ks) && x == Index(x.kids);
      assert NodeCount(Index(ks)) == NodeCountKids(ks) && NodeCount(x) == NodeCountKids(x.kids);
      assert Flat(Index(ks)) == FlatKids(ks);
      assert NodeOf(Index(ks), d, top).Entries() == |ks|;
    } else {
      CutShorter(x.exts, from);
    }
  }

  lemma {:induction false} CutShorter(s: seq<Extent>, from: nat)
    ensures |Cut(s, from)| <= |s|
  {
    if s != [] {
      CutShorter(s[1..], from);
    }
  }

  lemma {:induction false} PruneKids(kids: seq<Kid>, from: nat, d: nat, cap: nat)
    requires KidsOk(kids, d, cap) && Good(FlatKids(kids))
    ensures KidsPrunedWell(kids, PrunedKids(kids, from), from, d, cap)
    decreases d, 1 + |kids|
  {
    if kids != [] {
      var a, k := kids[..|kids| - 1], kids[|kids| - 1];
      LastKid(kids);
      GoodSplit(FlatKids(a), Flat(k.sub));
      assert KidOk(k, d, cap);
      CutConcat(FlatKids(a), Flat(k.sub), from);
      CutFirst(Flat(k.sub), from);
      if k.key < from {
        PruneTree(k.sub, from, d, cap, cap);
        PruneLast(a, k, from, d, cap);
      } else {
        PruneKids(a, from, d, cap);
      }
    }
  }

  lemma PruneLast(a: seq<Kid>, k: Kid, from: nat, d: nat, cap: nat)
    requires KidsOk(a, d, cap) && KidOk(k, d, cap) && k.key < from && Before(FlatKids(a), Flat(k.sub))
    requires Good(Flat(k.sub)) && PrunedWell(k.sub, Pruned(k.sub, from), from, d, cap, cap)
    ensures var ks := a + [k.(sub := Pruned(k.sub, from))];
            && FlatKids(ks) == Cut(FlatKids(a), from) + Cut(Flat(k.sub), from) && KidsOk(ks, d, cap)
            && FlatKids(ks) != []
            && (forall b :: NodeRefsKids(ks, b) <= NodeRefsKids(a, b) + KidRefs(k, b))
            && NodeCountKids(ks) <= NodeCountKids(a) + 1 + NodeCount(k.sub)
  {
    var k' := k.(sub := Pruned(k.sub, from));
    CutFirst(Flat(k.sub), from);
    assert EndsBy(FlatKids(a), k.key);
    CutNothing(FlatKids(a), from);
    FlatConcat(a, [k']);
    FlatOne(k');
    RefsConcat(a, [k']);
    RefsOne(k');
    assert KidOk(k', d, cap);
  }

  // ----- freeing -----------------------------------------------------------------------------------

  /** Exactly the blocks `y` no longer uses were released. */
  ghost predicate Released(used0: set<nat>, used: set<nat>, x: Tree, y: Tree) {
    forall b :: b in used <==> b in used0 && Refs(y, b) == Refs(x, b)
  }

  /** Every block of the subtree is in use, and none is used twice. */
  ghost predicate Owned(used: set<nat>, x: Tree) {
    forall b :: Refs(x, b) <= 1 && (Refs(x, b) > 0 ==> b in used && b > 0)
  }

  /** `i_blocks` after `n` blocks are given back. */
  function Less(ib: nat, n: int, spb: nat): nat { Wrap(ib - n * spb) }

  lemma LessLess(ib: nat, n: int, m: int, spb: nat)
    ensures Less(Less(ib, n, spb), m, spb) == Less(ib, n + m, spb)
  {
    assert (n + m) * spb == n * spb + m * spb;
    WrapAdd(ib - n * spb, -(m * spb));
  }

  /** Free the blocks of one extent from the `keep`-th on. */
  method FreeTail(vol: Volume, inode: Inode, start: nat, keep: nat, len: nat)
    requires vol.Valid() && keep <= len && start > 0 && inode.iblocks < U32
    modifies vol`bits, vol`freeCount, vol`sbFree, vol`used, inode`iblocks
    ensures vol.Valid() && |vol.bits| == |old(vol.bits)|
    ensures vol.used == old(vol.used) - Range(start + keep, len - keep)
    ensures inode.iblocks == Less(old(inode.iblocks), len - keep, vol.Spb())
  {
    var b := keep;
    while b < len
      invariant keep <= b <= len && vol.Valid() && |vol.bits| == |old(vol.bits)|
      invariant vol.used == old(vol.used) - Range(start + keep, b - keep)
      invariant inode.iblocks == Less(old(inode.iblocks), b - keep, vol.Spb())
    {
      vol.FreeBlock(start + b);
      LessLess(old(inode.iblocks), b - keep, 1, vol.Spb());
      inode.iblocks := Wrap(inode.iblocks - vol.Spb());
      b := b + 1;
    }
  }

  /** Data blocks freed from a list that was cut. */
  ghost predicate DataReleased(used0: set<nat>, used: set<nat>, s: seq<Extent>, r: seq<Extent>) {
    forall b :: b in used <==> b in used0 && DataRefs(r, b) == DataRefs(s, b)
  }

  lemma CutStepRefs(s: seq<Extent>, i: nat, from: nat)
    requires 0 < i <= |s| && AllValid(s)
    ensures forall b :: DataRefs(s[i - 1..], b) == InRun(s[i - 1].start, s[i - 1].len, b) + DataRefs(s[i..], b)
    ensures DataCount(s[i - 1..]) == s[i - 1].len + DataCount(s[i..])
    ensures Cut(s[i - 1..], from) == CutOne(s[i - 1], from) + Cut(s[i..], from)
    ensures forall b :: DataRefs(Cut(s[i - 1..], from), b) ==
                        InRun(s[i - 1].start, Kept(s[i - 1], from), b) + DataRefs(Cut(s[i..], from), b)
    ensures DataCount(Cut(s[i - 1..], from)) == Kept(s[i - 1], from) + DataCount(Cut(s[i..], from))
  {
    assert s[i - 1..][1..] == s[i..];
    DataConcat(CutOne(s[i - 1], from), Cut(s[i..], from));
    One(s[i - 1]);
    One(s[i - 1].(len := Kept(s[i - 1], from)));
  }

  /** Blocks of an extent that lie below `from`. */
  function Kept(e: Extent, from: nat): (k: nat)
    ensures k <= e.len
  {
    if e.End() <= from then e.len else if from > e.block then from - e.block else 0
  }

  /** The whole suffix from a dropped extent on is dropped. */
  lemma CutSuffix(s: seq<Extent>, i: nat, from: nat)
    requires Good(s) && 0 < i <= |s| && from < s[i - 1].End()
    ensures Cut(s[i..], from) == []
  {
    assert forall j :: i <= j < |s| ==> s[i - 1].End() <= s[j].block;
    CutAll(s[i..], from);
  }

  lemma ReleaseStep(used0: set<nat>, used1: set<nat>, used2: set<nat>, s: seq<Extent>, i: nat, from: nat)
    requires 0 < i <= |s| && AllValid(s)
    requires DataReleased(used0, used1, s[i..], Cut(s[i..], from))
    requires used2 == used1 - Range(s[i - 1].start + Kept(s[i - 1], from), s[i - 1].len - Kept(s[i - 1], from))
    ensures DataReleased(used0, used2, s[i - 1..], Cut(s[i - 1..], from))
  {
    CutStepRefs(s, i, from);
    CutRefs(s[i..], from);
  }

  /** The records of the leaf after entry `i - 1` has been looked at. */
  lemma CutRecord(s: seq<Extent>, r: seq<Extent>, i: nat, from: nat)
    requires Good(s) && 0 < i <= |s| && r == s[..i] + Cut(s[i..], from)
    ensures s[i - 1].End() <= from ==> r == s[..i - 1] + Cut(s[i - 1..], from)
    ensures from < s[i - 1].End() ==> r == s[..i]
    ensures from <= s[i - 1].block ==> r[..|r| - 1] == s[..i - 1] + Cut(s[i - 1..], from)
    ensures s[i - 1].block < from < s[i - 1].End() ==>
            r[i - 1 := s[i - 1].(len := from - s[i - 1].block)] == s[..i - 1] + Cut(s[i - 1..], from)
  {
    CutStepRefs(s, i, from);
    if from < s[i - 1].End() {
      CutSuffix(s, i, from);
    }
  }

  /** The leaf's records and the counters once the entries from `i` on are cut. */
  ghost predicate CutTo(used0: set<nat>, used: set<nat>, ib0: nat, ib: nat, spb: nat,
                        s: seq<Extent>, r: seq<Extent>, i: nat, from: nat)
  {
    && i <= |s| && r == s[..i] + Cut(s[i..], from)
    && DataReleased(used0, used, s[i..], Cut(s[i..], from))
    && ib == Less(ib0, DataCount(s[i..]) - DataCount(Cut(s[i..], from)), spb)
  }

  lemma CutToStep(used0: set<nat>, used1: set<nat>, used2: set<nat>, ib0: nat, ib1: nat, ib2: nat, spb: nat,
                  s: seq<Extent>, r: seq<Extent>, r': seq<Extent>, i: nat, from: nat)
    requires Good(s) && 0 < i && CutTo(used0, used1, ib0, ib1, spb, s, r, i, from)
    requires used2 == used1 - Range(s[i - 1].start + Kept(s[i - 1], from), s[i - 1].len - Kept(s[i - 1], from))
    requires ib2 == Less(ib1, s[i - 1].len - Kept(s[i - 1], from), spb)
    requires r' == s[..i - 1] + Cut(s[i - 1..], from)
    ensures CutTo(used0, used2, ib0, ib2, spb, s, r', i - 1, from)
  {
    ReleaseStep(used0, used1, used2, s, i, from);
    CutCount(ib0, ib1, spb, s, i, from);
  }

  lemma CutCount(ib0: nat, ib1: nat, spb: nat, s: seq<Extent>, i: nat, from: nat)
    requires 0 < i <= |s| && AllValid(s) && ib1 == Less(ib0, DataCount(s[i..]) - DataCount(Cut(s[i..], from)), spb)
    ensures Less(ib1, s[i - 1].len - Kept(s[i - 1], from), spb)
            == Less(ib0, DataCount(s[i - 1..]) - DataCount(Cut(s[i - 1..], from)), spb)
  {
    var n, m, k := CutSizes(s, i, from);
    LessAgain(ib0, ib1, n, m, k, spb);
  }

  /** Blocks dropped behind record `i`, by the record before it, and by both. */
  lemma CutSizes(s: seq<Extent>, i: nat, from: nat) returns (n: int, m: int, k: int)
    requires 0 < i <= |s| && AllValid(s)
    ensures n == DataCount(s[i..]) - DataCount(Cut(s[i..], from)) && m == s[i - 1].len - Kept(s[i - 1], from)
    ensures k == DataCount(s[i - 1..]) - DataCount(Cut(s[i - 1..], from)) && k == n + m
  {
    CutStepRefs(s, i, from);
    n, m := DataCount(s[i..]) - DataCount(Cut(s[i..], from)), s[i - 1].len - Kept(s[i - 1], from);
    k := n + m;
  }

  lemma LessAgain(ib0: nat, ib1: nat, n: int, m: int, k: int, spb: nat)
    requires ib1 == Less(ib0, n, spb) && k == n + m
    ensures Less(ib1, m, spb) == Less(ib0, k, spb)
  {
    LessLess(ib0, n, m, spb);
  }

  lemma LessNone(used: set<nat>, ib: nat, spb: nat, x: nat)
    requires ib < U32
    ensures used == used - Range(x, 0) && ib == Less(ib, 0, spb)
  {
  }

  /** Look at entry `i - 1`: keep it, shorten it or drop it. */
  method CutEntry(vol: Volume, inode: Inode, exts: seq<Extent>, r: seq<Extent>, i: nat, from: nat,
                  ghost used0: set<nat>, ghost ib0: nat)
    returns (r': seq<Extent>)
    requires vol.Valid() && inode.iblocks < U32 && Good(exts) && 0 < i
    requires CutTo(used0, vol.used, ib0, inode.iblocks, vol.Spb(), exts, r, i, from)
    modifies vol`bits, vol`freeCount, vol`sbFree, vol`used, inode`iblocks
    ensures vol.Valid() && inode.iblocks < U32 && |vol.bits| == |old(vol.bits)|
    ensures CutTo(used0, vol.used, ib0, inode.iblocks, vol.Spb(), exts, r', i - 1, from)
  {
    var e := exts[i - 1];
    CutRecord(exts, r, i, from);
    r' := r;
    if e.block + e.len > from {
      var keep := if from > e.block then from - e.block else 0;
      FreeTail(vol, inode, e.start, keep, e.len);
      if keep == 0 {
        r' := r[..|r| - 1];
      } else {
        r' := r[i - 1 := e.(len := keep)];
      }
    } else {
      LessNone(vol.used, inode.iblocks, vol.Spb(), e.start + e.len);
    }
    CutToStep(used0, old(vol.used), vol.used, ib0, old(inode.iblocks), inode.iblocks, vol.Spb(), exts, r, r', i, from);
  }

  /** Cut a leaf's records from the right, freeing the data blocks dropped. */
  method FreeLeaf(vol: Volume, inode: Inode, exts: seq<Extent>, from: nat) returns (r: seq<Extent>)
    requires vol.Valid() && inode.iblocks < U32 && Good(exts)
    modifies vol`bits, vol`freeCount, vol`sbFree, vol`used, inode`iblocks
    ensures vol.Valid() && inode.iblocks < U32 && |vol.bits| == |old(vol.bits)| && r == Cut(exts, from)
    ensures DataReleased(old(vol.used), vol.used, exts, r)
    ensures inode.iblocks == Less(old(inode.iblocks), DataCount(exts) - DataCount(r), vol.Spb())
  {
    r := exts;
    var i := |exts|;
    CutFromEnd(vol.used, inode.iblocks, vol.Spb(), exts, from);
    while i > 0
      invariant 0 <= i <= |exts| && vol.Valid() && inode.iblocks < U32 && |vol.bits| == |old(vol.bits)|
      invariant CutTo(old(vol.used), vol.used, old(inode.iblocks), inode.iblocks, vol.Spb(), exts, r, i, from)
    {
      r := CutEntry(vol, inode, exts, r, i, from, old(vol.used), old(inode.iblocks));
      i := i - 1;
    }
    CutToStart(old(vol.used), vol.used, old(inode.iblocks), inode.iblocks, vol.Spb(), exts, r, from);
  }

  lemma CutFromEnd(used: set<nat>, ib: nat, spb: nat, s: seq<Extent>, from: nat)
    requires ib < U32
    ensures CutTo(used, used, ib, ib, spb, s, s, |s|, from)
  {
    assert s[|s|..] == [] && s[..|s|] == s;
  }

  lemma CutToStart(used0: set<nat>, used: set<nat>, ib0: nat, ib: nat, spb: nat, s: seq<Extent>, r: seq<Extent>,
                   from: nat)
    requires CutTo(used0, used, ib0, ib, spb, s, r, 0, from)
    ensures r == Cut(s, from) && DataReleased(used0, used, s, r)
    ensures ib == Less(ib0, DataCount(s) - DataCount(r), spb)
  {
    assert s[0..] == s && s[..0] == [];
  }

  // ----- freeing a subtree ----------------------------------------------------------------------------

  /** Subtree `x` has become `y`: the blocks it lost are free, `y` is stored, no
      other block was written, and `i_blocks` follows. */
  ghost predicate Freed(used0: set<nat>, used: set<nat>, disk0: Disk, disk: Disk, ib0: nat, ib: nat, spb: nat,
                        x: Tree, y: Tree, d: nat, cap: nat)
  {
    && Released(used0, used, x, y) && Stored(disk, y, d, cap) && TouchesOnly(disk0, disk, x, {})
    && ib == Less(ib0, BlockCount(x) - BlockCount(y), spb)
  }

  /** References of a node with its last child taken off. */
  lemma LastRefs(kids: seq<Kid>)
    requires kids != []
    ensures var a, k := Index(kids[..|kids| - 1]), kids[|kids| - 1];
            && (forall b :: Refs(Index(kids), b) == Refs(a, b) + (if k.blk == b then 1 else 0) + Refs(k.sub, b))
            && (forall b :: NodeRefs(Index(kids), b) == NodeRefs(a, b) + KidRefs(k, b))
            && BlockCount(Index(kids)) == BlockCount(a) + 1 + BlockCount(k.sub)
  {
    var a, k := kids[..|kids| - 1], kids[|kids| - 1];
    LastKid(kids);
    DataConcat(FlatKids(a), Flat(k.sub));
    forall b ensures Refs(Index(kids), b) == Refs(Index(a), b) + (if k.blk == b then 1 else 0) + Refs(k.sub, b) {
      assert NodeRefs(Index(kids), b) == NodeRefsKids(kids, b) && NodeRefs(Index(a), b) == NodeRefsKids(a, b);
    }
  }

  lemma {:induction false} PrefixRefs(kids: seq<Kid>, i: nat)
    requires i <= |kids|
    ensures forall b :: Refs(Index(kids[..i]), b) <= Refs(Index(kids), b)
    ensures forall b :: NodeRefs(Index(kids[..i]), b) <= NodeRefs(Index(kids), b)
  {
    if i < |kids| {
      LastRefs(kids);
      assert kids[..|kids| - 1][..i] == kids[..i];
      PrefixRefs(kids[..|kids| - 1], i);
    } else {
      assert kids[..i] == kids;
    }
  }

  /** The parts a loop step works on: node `kids`, of which the first `i` are left. */
  ghost predicate Looping(used0: set<nat>, used: set<nat>, disk0: Disk, disk: Disk, ib0: nat, ib: nat, spb: nat,
                          kids: seq<Kid>, i: nat, d: nat, cap: nat)
  {
    && i <= |kids| && Owned(used0, Index(kids))
    && Freed(used0, used, disk0, disk, ib0, ib, spb, Index(kids), Index(kids[..i]), d + 1, cap)
  }

  lemma LoopChild(used0: set<nat>, used: set<nat>, disk0: Disk, disk: Disk, ib0: nat, ib: nat, spb: nat,
                  kids: seq<Kid>, i: nat, d: nat, cap: nat)
    requires Looping(used0, used, disk0, disk, ib0, ib, spb, kids, i, d, cap) && 0 < i
    ensures Owned(used, kids[i - 1].sub) && KidStored(disk, kids[i - 1], d, cap)
    ensures kids[i - 1].blk > 0 && kids[i - 1].blk in used && Refs(kids[i - 1].sub, kids[i - 1].blk) == 0
    ensures forall b :: KidRefs(kids[i - 1], b) <= NodeRefs(Index(kids), b)
  {
    PrefixRefs(kids, i);
    LastRefs(kids[..i]);
    assert kids[..i][i - 1] == kids[i - 1];
    assert KidsStored(disk, kids[..i], d, cap);
    var k := kids[i - 1];
    assert Refs(Index(kids[..i]), k.blk) >= 1;
    forall b ensures Refs(k.sub, b) <= 1 && (Refs(k.sub, b) > 0 ==> b in used && b > 0) {
      assert Refs(k.sub, b) <= Refs(Index(kids[..i]), b) <= Refs(Index(kids), b) <= 1;
    }
  }

  /** The blocks of a child that was freed belong to nobody before it. */
  lemma BeforeStored(disk1: Disk, disk2: Disk, kids: seq<Kid>, d: nat, cap: nat)
    requires kids != [] && KidsStored(disk1, kids, d, cap) && (forall b :: Refs(Index(kids), b) <= 1)
    requires TouchesKid(disk1, disk2, kids[|kids| - 1], {})
    ensures KidsStored(disk2, kids[..|kids| - 1], d, cap)
  {
    var a := kids[..|kids| - 1];
    LastRefs(kids);
    forall b | NodeRefsKids(a, b) > 0 && b in disk1 ensures b in disk2 && disk2[b] == disk1[b] {
      assert NodeRefs(Index(a), b) == NodeRefsKids(a, b);
      assert NodeRefs(Index(kids), b) <= Refs(Index(kids), b) <= 1;
    }
    StoredFrame(disk1, disk2, a, d, cap);
  }

  /** The child came out empty and its own block was freed too. */
  lemma DropStep(used0: set<nat>, used1: set<nat>, used2: set<nat>, disk0: Disk, disk1: Disk, disk2: Disk,
                 ib0: nat, ib1: nat, ib2: nat, spb: nat, kids: seq<Kid>, i: nat, y: Tree, d: nat, cap: nat)
    requires Looping(used0, used1, disk0, disk1, ib0, ib1, spb, kids, i, d, cap) && 0 < i
    requires Freed(used1, used2, disk1, disk2, ib1, ib2, spb, kids[i - 1].sub, y, d, cap)
    requires BlockCount(y) == 0 && forall b :: Refs(y, b) == 0
    ensures Looping(used0, used2 - {kids[i - 1].blk}, disk0, disk2, ib0, Less(ib2, 1, spb), spb, kids, i - 1, d, cap)
  {
    var ks, k := kids[..i], kids[i - 1];
    assert ks[..i - 1] == kids[..i - 1] && ks[i - 1] == k;
    PrefixRefs(kids, i);
    LastRefs(ks);
    LoopChild(used0, used1, disk0, disk1, ib0, ib1, spb, kids, i, d, cap);
    DropReleased(used0, used1, used2, kids, i, y);
    LessLess(ib0, BlockCount(Index(kids)) - BlockCount(Index(ks)), BlockCount(k.sub), spb);
    LessLess(ib0, BlockCount(Index(kids)) - BlockCount(Index(ks)) + BlockCount(k.sub), 1, spb);
    assert KidsStored(disk1, ks, d, cap);
    assert TouchesKid(disk1, disk2, k, {});
    BeforeStored(disk1, disk2, ks, d, cap);
    TouchMore(disk0, disk1, disk2, kids, k);
  }

  lemma DropReleased(used0: set<nat>, used1: set<nat>, used2: set<nat>, kids: seq<Kid>, i: nat, y: Tree)
    requires 0 < i <= |kids| && Released(used0, used1, Index(kids), Index(kids[..i]))
    requires Released(used1, used2, kids[i - 1].sub, y) && forall b :: Refs(y, b) == 0
    ensures Released(used0, used2 - {kids[i - 1].blk}, Index(kids), Index(kids[..i - 1]))
  {
    var ks, k := kids[..i], kids[i - 1];
    assert ks[..i - 1] == kids[..i - 1] && ks[i - 1] == k;
    PrefixRefs(kids, i);
    LastRefs(ks);
    forall b ensures b in used2 - {k.blk} <==> b in used0 && Refs(Index(kids[..i - 1]), b) == Refs(Index(kids), b) {
      assert Refs(y, b) == 0;
    }
  }

  lemma TouchMore(disk0: Disk, disk1: Disk, disk2: Disk, kids: seq<Kid>, k: Kid)
    requires TouchesOnly(disk0, disk1, Index(kids), {}) && TouchesKid(disk1, disk2, k, {})
    requires forall b :: KidRefs(k, b) <= NodeRefs(Index(kids), b)
    ensures TouchesOnly(disk0, disk2, Index(kids), {})
  {
  }

  /** The children left when the last of them was cut but kept. */
  ghost function Shortened(kids: seq<Kid>, i: nat, y: Tree): seq<Kid>
    requires 0 < i <= |kids|
  {
    kids[..i - 1] + [kids[i - 1].(sub := y)]
  }

  lemma ShortenedRefs(kids: seq<Kid>, i: nat, y: Tree)
    requires 0 < i <= |kids|
    ensures forall b ::
              Refs(Index(Shortened(kids, i, y)), b) + Refs(kids[i - 1].sub, b) == Refs(Index(kids[..i]), b) + Refs(y, b)
    ensures BlockCount(Index(Shortened(kids, i, y))) + BlockCount(kids[i - 1].sub) == BlockCount(Index(kids[..i]))
            + BlockCount(y)
  {
    var ks, ss := kids[..i], Shortened(kids, i, y);
    assert ks[..i - 1] == kids[..i - 1] == ss[..i - 1] && ks[i - 1] == kids[i - 1]
           && ss[i - 1] == kids[i - 1].(sub := y);
    LastRefs(ks);
    LastRefs(ss);
  }

  lemma KeepReleased(used0: set<nat>, used1: set<nat>, used2: set<nat>, kids: seq<Kid>, i: nat, y: Tree)
    requires 0 < i <= |kids| && Released(used0, used1, Index(kids), Index(kids[..i]))
    requires Released(used1, used2, kids[i - 1].sub, y) && forall b :: Refs(y, b) <= Refs(kids[i - 1].sub, b)
    ensures Released(used0, used2, Index(kids), Index(Shortened(kids, i, y)))
  {
    ShortenedRefs(kids, i, y);
    PrefixRefs(kids, i);
    forall b ensures b in used2 <==> b in used0 && Refs(Index(Shortened(kids, i, y)), b) == Refs(Index(kids), b) {
      assert Refs(y, b) <= Refs(kids[i - 1].sub, b);
      assert Refs(Index(kids[..i]), b) <= Refs(Index(kids), b);
    }
  }

  /** The child was cut but is not empty; its node has been written back. */
  lemma KeepStep(used0: set<nat>, used1: set<nat>, used2: set<nat>, disk0: Disk, disk1: Disk, disk2: Disk,
                 ib0: nat, ib1: nat, ib2: nat, spb: nat, kids: seq<Kid>, i: nat, y: Tree, d: nat, cap: nat)
    requires Looping(used0, used1, disk0, disk1, ib0, ib1, spb, kids, i, d, cap) && 0 < i
    requires Freed(used1, used2, disk1, disk2, ib1, ib2, spb, kids[i - 1].sub, y, d, cap)
    requires (forall b :: Refs(y, b) <= Refs(kids[i - 1].sub, b))
             && (forall b :: NodeRefs(y, b) <= NodeRefs(kids[i - 1].sub, b))
    ensures Freed(used0, used2, disk0, disk2[kids[i - 1].blk := NodeBlock(NodeOf(y, d, cap))], ib0, ib2, spb,
                  Index(kids), Index(Shortened(kids, i, y)), d + 1, cap)
  {
    var ks, k := kids[..i], kids[i - 1];
    var disk3 := disk2[k.blk := NodeBlock(NodeOf(y, d, cap))];
    assert ks[..i - 1] == kids[..i - 1] && ks[i - 1] == k;
    PrefixRefs(kids, i);
    LoopChild(used0, used1, disk0, disk1, ib0, ib1, spb, kids, i, d, cap);
    KeepReleased(used0, used1, used2, kids, i, y);
    ShortenedRefs(kids, i, y);
    LessLess(ib0, BlockCount(Index(kids)) - BlockCount(Index(ks)), BlockCount(k.sub) - BlockCount(y), spb);
    assert KidsStored(disk1, ks, d, cap);
    assert TouchesKid(disk1, disk3, k, {});
    BeforeStored(disk1, disk3, ks, d, cap);
    TouchMore(disk0, disk1, disk3, kids, k);
    KeptStored(disk2, disk3, k, y, d, cap);
  }

  lemma KeptStored(disk2: Disk, disk3: Disk, k: Kid, y: Tree, d: nat, cap: nat)
    requires Stored(disk2, y, d, cap) && disk3 == disk2[k.blk := NodeBlock(NodeOf(y, d, cap))]
             && NodeRefs(y, k.blk) == 0
    ensures KidStored(disk3, k.(sub := y), d, cap)
  {
    if y.Index? {
      assert AgreeOn(disk2, disk3, y.kids);
      StoredFrame(disk2, disk3, y.kids, d - 1, cap);
    }
  }

  /** What freeing a subtree needs to know about it. */
  ghost predicate Freeable(disk: Disk, used: set<nat>, x: Tree, n: Node, top: nat, cap: nat) {
    && Shape(x, n.depth, top, cap) && Good(Flat(x)) && Stored(disk, x, n.depth, cap) && Owned(used, x)
    && n == NodeOf(x, n.depth, top)
  }

  lemma PrunedRefs(x: Tree, from: nat, d: nat, top: nat, cap: nat)
    requires Shape(x, d, top, cap) && Good(Flat(x))
    ensures PrunedWell(x, Pruned(x, from), from, d, top, cap)
    ensures forall b :: Refs(Pruned(x, from), b) <= Refs(x, b)
    ensures Flat(Pruned(x, from)) == [] ==>
              BlockCount(Pruned(x, from)) == 0 && forall b :: Refs(Pruned(x, from), b) == 0
  {
    PruneTree(x, from, d, top, cap);
    CutRefs(Flat(x), from);
  }

  /** Child `i - 1` of a node, ready to be freed. */
  lemma ChildFreeable(used0: set<nat>, used: set<nat>, disk0: Disk, disk: Disk, ib0: nat, ib: nat, spb: nat,
                      kids: seq<Kid>, i: nat, d: nat, cap: nat)
    requires Looping(used0, used, disk0, disk, ib0, ib, spb, kids, i, d, cap) && 0 < i
    requires KidsOk(kids, d, cap) && Good(FlatKids(kids))
    ensures kids[i - 1].blk in disk && disk[kids[i - 1].blk] == NodeBlock(NodeOf(kids[i - 1].sub, d, cap))
    ensures Freeable(disk, used, kids[i - 1].sub, NodeOf(kids[i - 1].sub, d, cap), cap, cap)
    ensures kids[i - 1].blk > 0 && Flat(kids[i - 1].sub) != [] && kids[i - 1].key == Flat(kids[i - 1].sub)[0].block
  {
    LoopChild(used0, used, disk0, disk, ib0, ib, spb, kids, i, d, cap);
    FlatAround(kids, i - 1);
    GoodParts(FlatKids(kids[..i - 1]), Flat(kids[i - 1].sub), FlatKids(kids[i..]));
    assert KidOk(kids[i - 1], d, cap);
  }

  /** Free what lies beyond `from` below child `i - 1`, and the child itself if it
      comes out empty. */
  method FreeChild(vol: Volume, inode: Inode, cblk: nat, from: nat, ghost kids: seq<Kid>, ghost i: nat, d: nat,
                   ghost used0: set<nat>, ghost disk0: Disk, ghost ib0: nat)
    returns (remaining: nat)
    requires vol.Valid() && inode.iblocks < U32 && 0 < i && KidsOk(kids, d, vol.Cap()) && Good(FlatKids(kids))
    requires Looping(used0, vol.used, disk0, vol.disk, ib0, inode.iblocks, vol.Spb(), kids, i, d, vol.Cap())
    requires cblk == kids[i - 1].blk
    modifies vol, inode`iblocks
    ensures vol.Valid() && inode.iblocks < U32
    ensures remaining == 0 <==> from <= kids[i - 1].key
    ensures remaining == 0 ==>
              Looping(used0, vol.used, disk0, vol.disk, ib0, inode.iblocks, vol.Spb(), kids, i - 1, d, vol.Cap())
    ensures remaining != 0 ==>
              Freed(used0, vol.used, disk0, vol.disk, ib0, inode.iblocks, vol.Spb(),
                    Index(kids), Index(Shortened(kids, i, Pruned(kids[i - 1].sub, from))), d + 1, vol.Cap())
    decreases d, 3
  {
    ghost var used1, disk1, ib1, x := vol.used, vol.disk, inode.iblocks, kids[i - 1].sub;
    ChildFreeable(used0, used1, disk0, disk1, ib0, ib1, vol.Spb(), kids, i, d, vol.Cap());
    PrunedRefs(x, from, d, vol.Cap(), vol.Cap());
    CutFirst(Flat(x), from);
    var ch := FreeSubtree(vol, inode, vol.disk[cblk].node, from, x, vol.Cap());
    remaining := ch.Entries();
    if remaining == 0 {
      DropStep(used0, used1, vol.used, disk0, disk1, vol.disk, ib0, ib1, inode.iblocks, vol.Spb(),
               kids, i, Pruned(x, from), d, vol.Cap());
      vol.FreeBlock(cblk);
      inode.iblocks := Wrap(inode.iblocks - vol.Spb());
    } else {
      KeepStep(used0, used1, vol.used, disk0, disk1, vol.disk, ib0, ib1, inode.iblocks, vol.Spb(),
               kids, i, Pruned(x, from), d, vol.Cap());
      vol.WriteNode(cblk, ch);
    }
  }

  lemma LoopStart(used: set<nat>, disk: Disk, ib: nat, spb: nat, x: Tree, n: Node, top: nat, cap: nat)
    requires Freeable(disk, used, x, n, top, cap) && x.Index? && ib < U32
    ensures n.depth > 0 && Looping(used, used, disk, disk, ib, ib, spb, x.kids, |x.kids|, n.depth - 1, cap)
    ensures KidsOk(x.kids, n.depth - 1, cap) && Good(FlatKids(x.kids)) && n.idxs == Entries(x.kids)
  {
    assert x.kids[..|x.kids|] == x.kids;
  }

  lemma PrunedPrefix(kids: seq<Kid>, i: nat, from: nat)
    requires 0 < i <= |kids|
    ensures from <= kids[i - 1].key ==> PrunedKids(kids[..i], from) == PrunedKids(kids[..i - 1], from)
    ensures kids[i - 1].key < from ==> PrunedKids(kids[..i], from) == Shortened(kids, i, Pruned(kids[i - 1].sub, from))
  {
    assert kids[..i][..i - 1] == kids[..i - 1] && kids[..i][i - 1] == kids[i - 1];
  }

  lemma LeafFreed(used0: set<nat>, used: set<nat>, disk: Disk, ib0: nat, ib: nat, spb: nat, exts: seq<Extent>,
                  from: nat, cap: nat)
    requires DataReleased(used0, used, exts, Cut(exts, from))
    requires ib == Less(ib0, DataCount(exts) - DataCount(Cut(exts, from)), spb)
    ensures Freed(used0, used, disk, disk, ib0, ib, spb, Leaf(exts), Leaf(Cut(exts, from)), 0, cap)
  {
    forall b ensures b in used <==> b in used0 && Refs(Leaf(Cut(exts, from)), b) == Refs(Leaf(exts), b) {
      assert DataRefs(exts, b) == Refs(Leaf(exts), b) && DataRefs(Cut(exts, from), b) == Refs(Leaf(Cut(exts, from)), b);
    }
  }

  /** Free, below node `h`, every data block at or beyond `from` and every node
      left empty; the node that remains is the pruned one. */
  method FreeSubtree(vol: Volume, inode: Inode, h: Node, from: nat, ghost x: Tree, ghost top: nat) returns (h': Node)
    requires vol.Valid() && inode.iblocks < U32 && Freeable(vol.disk, vol.used, x, h, top, vol.Cap())
    modifies vol, inode`iblocks
    ensures vol.Valid() && inode.iblocks < U32 && h' == NodeOf(Pruned(x, from), h.depth, top)
    ensures Freed(old(vol.used), vol.used, old(vol.disk), vol.disk, old(inode.iblocks), inode.iblocks, vol.Spb(),
                  x, Pruned(x, from), h.depth, vol.Cap())
    decreases h.depth, 2
  {
    if h.depth == 0 {
      var exts := FreeLeaf(vol, inode, h.exts, from);
      LeafFreed(old(vol.used), vol.used, vol.disk, old(inode.iblocks), inode.iblocks, vol.Spb(), h.exts, from,
                vol.Cap());
      return h.(exts := exts);
    }
    h' := FreeEntries(vol, inode, h, from, x, top);
  }

  lemma ShortenedEntries(kids: seq<Kid>, i: nat, y: Tree)
    requires 0 < i <= |kids|
    ensures Entries(Shortened(kids, i, y)) == Entries(kids)[..i]
  {
  }

  /** The loop over an index node's entries, from the right. */
  method FreeEntries(vol: Volume, inode: Inode, h: Node, from: nat, ghost x: Tree, ghost top: nat) returns (h': Node)
    requires vol.Valid() && inode.iblocks < U32 && Freeable(vol.disk, vol.used, x, h, top, vol.Cap()) && h.depth > 0
    modifies vol, inode`iblocks
    ensures vol.Valid() && inode.iblocks < U32 && h' == NodeOf(Pruned(x, from), h.depth, top)
    ensures Freed(old(vol.used), vol.used, old(vol.disk), vol.disk, old(inode.iblocks), inode.iblocks, vol.Spb(),
                  x, Pruned(x, from), h.depth, vol.Cap())
    decreases h.depth, 1
  {
    ghost var kids := x.kids;
    LoopStart(vol.used, vol.disk, inode.iblocks, vol.Spb(), x, h, top, vol.Cap());
    var i := |h.idxs|;
    h' := h;
    assert kids[..i] == kids;
    while i > 0
      invariant i <= |kids| && vol.Valid() && inode.iblocks < U32 && h' == h.(idxs := h.idxs[..i])
      invariant Looping(old(vol.used), vol.used, old(vol.disk), vol.disk, old(inode.iblocks), inode.iblocks, vol.Spb(),
                        kids, i, h.depth - 1, vol.Cap())
      invariant PrunedKids(kids, from) == PrunedKids(kids[..i], from)
    {
      var childStart := h'.idxs[i - 1].key;
      PrunedPrefix(kids, i, from);
      var remaining := FreeChild(vol, inode, h'.idxs[i - 1].leaf, from, kids, i, h.depth - 1,
                                 old(vol.used), old(vol.disk), old(inode.iblocks));
      if remaining == 0 {
        h' := h'.(idxs := h'.idxs[..|h'.idxs| - 1]);
      }
      if childStart < from {
        ShortenedEntries(kids, i, Pruned(kids[i - 1].sub, from));
        return;
      }
      i := i - 1;
    }
    assert kids[..0] == [] && Entries([]) == [];
  }

  // ----- the whole file -------------------------------------------------------------------------------

  lemma {:induction false} DataNoZero(s: seq<Extent>)
    requires AllValid(s)
    ensures DataRefs(s, 0) == 0
  {
    if s != [] {
      DataNoZero(s[1..]);
    }
  }

  lemma {:induction false} NodesNoZero(kids: seq<Kid>, d: nat, cap: nat)
    requires KidsOk(kids, d, cap)
    ensures NodeRefsKids(kids, 0) == 0
    decreases d, |kids|
  {
    if kids != [] {
      assert KidOk(kids[0], d, cap);
      if kids[0].sub.Index? {
        assert Shape(kids[0].sub, d, cap, cap);
        NodesNoZero(kids[0].sub.kids, d - 1, cap);
      }
      assert NodeRefs(kids[0].sub, 0) == 0;
      NodesNoZero(kids[1..], d, cap);
    }
  }

  lemma TreeFreeable(disk: Disk, used: set<nat>, root: Node, t: Tree, cap: nat)
    requires TreeOk(disk, used, root, t, cap)
    ensures Freeable(disk, used, t, root, ROOT_MAX, cap)
  {
    DataNoZero(Flat(t));
    if t.Index? {
      NodesNoZero(t.kids, root.depth - 1, cap);
    }
    assert Refs(t, 0) == 0;
  }

  /** The tree truncation leaves; an empty root becomes an empty leaf. */
  ghost function Truncated(t: Tree, from: nat): Tree {
    if Flat(Pruned(t, from)) == [] then Leaf([]) else Pruned(t, from)
  }

  /** The map of `t'` is the map of `t` cut off at block `from`. */
  ghost predicate Restricts(t: Tree, t': Tree, from: nat) {
    forall b: nat :: At(Flat(t'), b) == if b < from then At(Flat(t), b) else 0
  }

  lemma TruncatedMap(t: Tree, from: nat)
    requires Good(Flat(t)) && Flat(Pruned(t, from)) == Cut(Flat(t), from)
    ensures Restricts(t, Truncated(t, from), from) && Good(Flat(Truncated(t, from)))
  {
    CutGood(Flat(t), from);
    forall b: nat ensures At(Flat(Truncated(t, from)), b) == if b < from then At(Flat(t), b) else 0 {
      CutAt(Flat(t), from, b);
    }
  }

  lemma TruncatedSame(t: Tree, from: nat, d: nat, cap: nat)
    requires Shape(t, d, ROOT_MAX, cap) && Good(Flat(t))
    ensures forall b :: Refs(Truncated(t, from), b) == Refs(Pruned(t, from), b) <= Refs(t, b)
    ensures BlockCount(Truncated(t, from)) == BlockCount(Pruned(t, from))
    ensures var h := NodeOf(Pruned(t, from), d, ROOT_MAX);
            var h' := if h.Entries() == 0 then h.(depth := 0) else h;
            h' == NodeOf(Truncated(t, from), h'.depth, ROOT_MAX) && Shape(Truncated(t, from), h'.depth, ROOT_MAX, cap)
  {
    PrunedRefs(t, from, d, ROOT_MAX, cap);
    if Flat(Pruned(t, from)) == [] {
      EmptyRoot(t, Pruned(t, from), from, d, cap);
    }
  }

  lemma TruncatedOk(disk: Disk, used: set<nat>, disk': Disk, used': set<nat>, ib: nat, ib': nat, spb: nat,
                    root: Node, h: Node, t: Tree, from: nat, cap: nat)
    requires TreeOk(disk, used, root, t, cap) && h == NodeOf(Pruned(t, from), root.depth, ROOT_MAX)
    requires Freed(used, used', disk, disk', ib, ib', spb, t, Pruned(t, from), root.depth, cap)
    ensures TreeOk(disk', used', if h.Entries() == 0 then h.(depth := 0) else h, Truncated(t, from), cap)
    ensures Released(used, used', t, Truncated(t, from)) && TouchesOnly(disk, disk', t, {})
    ensures ib' == Less(ib, BlockCount(t) - BlockCount(Truncated(t, from)), spb)
    ensures Restricts(t, Truncated(t, from), from)
  {
    var y := Truncated(t, from);
    PruneTree(t, from, root.depth, ROOT_MAX, cap);
    TruncatedMap(t, from);
    TruncatedSame(t, from, root.depth, cap);
    forall b ensures Refs(y, b) <= 1 && (Refs(y, b) > 0 ==> b in used') {
      assert Refs(y, b) == Refs(Pruned(t, from), b) <= Refs(t, b) <= 1;
    }
  }

  lemma EmptyRoot(t: Tree, y: Tree, from: nat, d: nat, cap: nat)
    requires y == Pruned(t, from) && PrunedWell(t, y, from, d, ROOT_MAX, cap) && Flat(y) == []
             && Shape(t, d, ROOT_MAX, cap)
    ensures NodeOf(y, d, ROOT_MAX).(depth := 0) == NodeOf(Leaf([]), 0, ROOT_MAX)
    ensures BlockCount(y) == BlockCount(Leaf([])) == 0 && forall b :: Refs(y, b) == 0 && Refs(Leaf([]), b) == 0
  {
    assert NodeOf(y, d, ROOT_MAX).Entries() == 0;
    forall b ensures Refs(y, b) == 0 && Refs(Leaf([]), b) == 0 {
      assert NodeRefs(y, b) == 0;
    }
  }

  /** Drop everything from logical block `from` on.  The map is restricted to the
      blocks below it; exactly the data blocks and nodes no longer referred to
      are freed, and `i_blocks` counts those left. */
  method FreeBlocksFrom(vol: Volume, inode: Inode, from: nat)
    requires vol.Valid() && inode.iblocks < U32 && (inode.root.magic == EXTENT_MAGIC ==> inode.Ok(vol))
    modifies vol, inode`root, inode`tree, inode`iblocks
    ensures vol.Valid() && inode.iblocks < U32 && inode.root.magic == old(inode.root.magic)
    ensures old(inode.root.magic) != EXTENT_MAGIC ==> inode.tree == old(inode.tree) && vol.used == old(vol.used)
                                                      && vol.disk == old(vol.disk)
                                                      && inode.iblocks == old(inode.iblocks)
    ensures old(inode.root.magic) == EXTENT_MAGIC ==>
              && inode.Ok(vol)
              && Restricts(old(inode.tree), inode.tree, from)
              && Released(old(vol.used), vol.used, old(inode.tree), inode.tree)
              && inode.iblocks == Less(old(inode.iblocks), BlockCount(old(inode.tree)) - BlockCount(inode.tree),
                                       vol.Spb())
              && TouchesOnly(old(vol.disk), vol.disk, old(inode.tree), {})
  {
    if inode.root.magic != EXTENT_MAGIC { return; }
    ghost var t := inode.tree;
    TreeFreeable(vol.disk, vol.used, inode.root, t, vol.Cap());
    var h := FreeSubtree(vol, inode, inode.root, from, t, ROOT_MAX);
    TruncatedOk(old(vol.disk), old(vol.used), vol.disk, vol.used, old(inode.iblocks), inode.iblocks, vol.Spb(),
                inode.root, h, t, from, vol.Cap());
    inode.root := if h.Entries() == 0 then h.(depth := 0) else h;
    inode.tree := Truncated(t, from);
  }
}
