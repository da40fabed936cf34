/** A directory is a map from names to inodes, under any sequence of lookups, creations and removals. */
module Ext4Names {
  import opened RawBytes
  import opened Folds
  import opened Division
  import opened Ext4Extents
  import opened Ext4Tree
  import opened Ext4Volume
  import opened Ext4ExtentOps
  import opened Ext4Insert
  import opened Ext4Append
  import opened Ext4File
  import opened Ext4Write
  import opened Ext4DirBlock
  import opened Ext4Dir
  import opened Ext4Directory

  type Name = seq<Byte>

  /** No name twice. */
  ghost predicate Unique(es: seq<Entry>) {
    forall i: nat, j: nat :: i < j < |es| ==> es[i].name != es[j].name
  }

  lemma UniqueInsert(es: seq<Entry>, k: nat, e: Entry)
    requires Unique(es) && k <= |es| && Absent(es, e.name)
    ensures Unique(InsertAt(es, k, e))
  {
    var r := InsertAt(es, k, e);
    assert forall i: nat :: i < |r| ==> r[i] == if i < k then es[i] else if i == k then e else es[i - 1];
  }

  lemma UniqueRemove(es: seq<Entry>, k: nat)
    requires Unique(es) && k < |es|
    ensures Unique(RemoveAt(es, k))
  {
    var r := RemoveAt(es, k);
    assert forall i: nat :: i < |r| ==> r[i] == if i < k then es[i] else es[i + 1];
  }

  /** The entries say what the map says. */
  ghost predicate Represents(es: seq<Entry>, m: map<Name, nat>) {
    && Unique(es) && Numbered(es) && (forall n :: n in m ==> m[n] != 0)
    && forall n: Name :: Lookup(es, n) == if n in m then m[n] else 0
  }

  lemma AbsentFromMap(es: seq<Entry>, m: map<Name, nat>, name: Name)
    requires Represents(es, m)
    ensures Absent(es, name) <==> name !in m
  {
    assert Lookup(es, name) == if name in m then m[name] else 0;
    if Absent(es, name) {
      LookupAbsent(es, name);
    } else if name !in m {
      LookupZero(es, name);
    }
  }

  /** Inserting a name that was not there adds that name and no other. */
  lemma GainedMap(a: seq<Entry>, b: seq<Entry>, e: Entry, m: map<Name, nat>)
    requires Represents(a, m) && Gained(a, b, e) && e.name !in m && e.ino != 0
    ensures Represents(b, m[e.name := e.ino])
  {
    var k: nat :| k <= |a| && b == InsertAt(a, k, e);
    AbsentFromMap(a, m, e.name);
    UniqueInsert(a, k, e);
    forall n: Name ensures Lookup(b, n) == if n == e.name then e.ino else Lookup(a, n) {
      InsertLookup(a, k, e, n);
    }
    assert forall i: nat :: i < |b| ==> b[i] == if i < k then a[i] else if i == k then e else a[i - 1];
  }

  lemma {:induction false} LookupAt(es: seq<Entry>, k: nat)
    requires k < |es| && Absent(es[..k], es[k].name)
    ensures Lookup(es, es[k].name) == es[k].ino
  {
    assert es == es[..k] + es[k..];
    LookupConcat(es[..k], es[k..], es[k].name);
  }

  /** Removing a name removes that name and no other. */
  lemma LostMap(a: seq<Entry>, b: seq<Entry>, name: Name, ino: nat, m: map<Name, nat>)
    requires Represents(a, m) && Lost(a, b, name, ino)
    ensures name in m && m[name] == ino && Represents(b, m - {name})
  {
    var k: nat :| FirstMatch(a, k, name, ino) && b == RemoveAt(a, k);
    LookupAt(a, k);
    UniqueRemove(a, k);
    forall n: Name ensures Lookup(b, n) == if n == name then 0 else Lookup(a, n) {
      RemoveLookup(a, k, n);
    }
    assert forall i: nat :: i < |b| ==> b[i] == if i < k then a[i] else a[i + 1];
  }

  /** A stored name is the name itself exactly if its length fits a byte. */
  lemma StoredWhole(name: Name)
    ensures StoredName(name) == name <==> |name| <= 255
  { }

  lemma StillMissing(es: seq<Entry>, k: nat, e: Entry, name: Name)
    requires k <= |es| && Absent(es, name) && e.name != name
    ensures Lookup(InsertAt(es, k, e), name) == 0
  {
    var r := InsertAt(es, k, e);
    assert forall i: nat :: i < |r| ==> r[i] == if i < k then es[i] else if i == k then e else es[i - 1];
    LookupAbsent(r, name);
  }

  /** A name that was not there is found after its insertion exactly if its length fits a byte. */
  lemma InsertFoundIff(es: seq<Entry>, k: nat, name: Name, ino: nat, ftype: Byte)
    requires k <= |es| && Absent(es, name) && ino != 0
    ensures Lookup(InsertAt(es, k, Fresh(name, ino, ftype)), name) == ino <==> |name| <= 255
  {
    var e := Fresh(name, ino, ftype);
    StoredWhole(name);
    if e.name == name {
      InsertLookup(es, k, e, name);
    } else {
      StillMissing(es, k, e, name);
    }
  }

  // ----- any sequence of requests -------------------------------------------------------------------------------

  datatype Request = Look(name: Name) | Create(name: Name, ino: nat, ftype: Byte) | Unlink(name: Name)

  /** What a map answers: the inode looked up or removed, 0 if there is none; 0 for a
      creation, -1 if the name is taken. */
  function Reply(m: map<Name, nat>, q: Request): int {
    match q
    case Look(n) => if n in m then m[n] else 0
    case Create(n, _, _) => if n in m then -1 else 0
    case Unlink(n) => if n in m then m[n] else 0
  }

  function After(m: map<Name, nat>, q: Request): map<Name, nat> {
    match q
    case Look(_) => m
    case Create(n, ino, _) => if n in m then m else m[n := ino]
    case Unlink(n) => m - {n}
  }

  function MapAfter(m: map<Name, nat>, qs: seq<Request>): map<Name, nat> { Fold(After, m, qs) }

  /** Names whose length fits a byte, inodes that fit a word. */
  predicate Sane(q: Request) {
    |q.name| <= 255 && (q.Create? ==> 0 < q.ino < 0x1_0000_0000)
  }

  /** The directory holds exactly the names of `m`. */
  ghost predicate Holds(vol: Volume, inode: Inode, m: map<Name, nat>)
    reads vol, inode
  { DirOk(vol, inode) && Represents(Live(vol.disk, inode.tree, vol.blockSize, inode.size), m) }

  /** One request is answered as the map answers it, unless a creation finds no room. */
  method Answer(vol: Volume, inode: Inode, q: Request, ghost m: map<Name, nat>) returns (ok: bool, r: int)
    requires Holds(vol, inode, m) && Sane(q) && Div(inode.size, vol.blockSize) < U32 - 1
    modifies vol, inode
    ensures Apart(old(inode.tree), inode.tree, old(vol.used), vol.used, old(vol.disk), vol.disk)
    ensures Div(inode.size, vol.blockSize) <= Div(old(inode.size), vol.blockSize) + 1
    ensures ok ==> r == Reply(m, q) && Holds(vol, inode, After(m, q))
    ensures !ok ==> q.Create? && q.name !in m && NoRoom(vol, inode.root.depth) && Holds(vol, inode, m)
  {
    ghost var es := Live(vol.disk, inode.tree, vol.blockSize, inode.size);
    ok := true;
    match q
    case Look(n) =>
      r := DirFind(vol, inode, n);
    case Create(n, ino, ftype) =>
      var found := DirFind(vol, inode, n);
      if found != 0 {
        return true, -1;
      }
      StoredWhole(n);
      r := DirInsert(vol, inode, n, ino, ftype);
      ok := r == 0;
      if ok {
        GainedMap(es, Live(vol.disk, inode.tree, vol.blockSize, inode.size), Fresh(n, ino, ftype), m);
      }
    case Unlink(n) =>
      r := DirRemove(vol, inode, n);
      if r != 0 {
        LostMap(es, Live(vol.disk, inode.tree, vol.blockSize, inode.size), n, r, m);
      } else {
        AbsentFromMap(es, m, n);
        assert m - {n} == m;
      }
  }

  /** Every reply so far is the map's. */
  ghost predicate Answered(m: map<Name, nat>, qs: seq<Request>, rs: seq<int>) {
    |rs| <= |qs| && forall i: nat :: i < |rs| ==> rs[i] == Reply(MapAfter(m, qs[..i]), qs[i])
  }

  /** The replies so far leave the map `now`. */
  ghost predicate Progress(m: map<Name, nat>, qs: seq<Request>, rs: seq<int>, now: map<Name, nat>) {
    Answered(m, qs, rs) && now == MapAfter(m, qs[..|rs|])
  }

  lemma ProgressMore(m: map<Name, nat>, qs: seq<Request>, rs: seq<int>, now: map<Name, nat>, r: int, next: map<Name,
                     nat>)
    requires Progress(m, qs, rs, now) && |rs| < |qs| && r == Reply(now, qs[|rs|]) && next == After(now, qs[|rs|])
    ensures Progress(m, qs, rs + [r], next)
  {
    FoldMore(After, m, qs, |rs|);
    assert forall i: nat :: i < |rs| ==> (rs + [r])[i] == rs[i];
  }

  /** The directory holds the names of `m`, at most `limit` blocks long, and nothing outside it changed. */
  ghost predicate Serving(vol: Volume, inode: Inode, m: map<Name, nat>, t0: Tree, used0: set<nat>, disk0: Disk,
                          limit: nat)
    reads vol, inode
  {
    && Holds(vol, inode, m) && Div(inode.size, vol.blockSize) <= limit
    && Apart(t0, inode.tree, used0, vol.used, disk0, vol.disk)
  }

  method AnswerNext(vol: Volume, inode: Inode, q: Request, ghost m: map<Name, nat>,
                    ghost t0: Tree, ghost used0: set<nat>, ghost disk0: Disk, ghost limit: nat)
                      returns (ok: bool, r: int)
    requires Serving(vol, inode, m, t0, used0, disk0, limit) && Sane(q) && limit < U32 - 1
    modifies vol, inode
    ensures ok ==> r == Reply(m, q) && Serving(vol, inode, After(m, q), t0, used0, disk0, limit + 1)
    ensures !ok ==> q.Create? && q.name !in m && NoRoom(vol, inode.root.depth)
    ensures !ok ==> Serving(vol, inode, m, t0, used0, disk0, limit + 1)
  {
    ghost var t1, used1, disk1 := inode.tree, vol.used, vol.disk;
    ok, r := Answer(vol, inode, q, m);
    ApartAfter(t0, t1, inode.tree, used0, used1, vol.used, disk0, disk1, vol.disk);
  }

  /** Any sequence of requests is answered as a map answers it, up to the first creation
      that finds no room; nothing outside the directory changes. */
  method AnswerAll(vol: Volume, inode: Inode, qs: seq<Request>, ghost m: map<Name, nat>) returns (rs: seq<int>)
    requires Holds(vol, inode, m) && (forall i: nat :: i < |qs| ==> Sane(qs[i]))
    requires Div(inode.size, vol.blockSize) + |qs| < U32 - 1
    modifies vol, inode
    ensures Answered(m, qs, rs) && Holds(vol, inode, MapAfter(m, qs[..|rs|]))
    ensures |rs| < |qs| ==> && qs[|rs|].Create? && qs[|rs|].name !in MapAfter(m, qs[..|rs|])
                            && NoRoom(vol, inode.root.depth)
    ensures Apart(old(inode.tree), inode.tree, old(vol.used), vol.used, old(vol.disk), vol.disk)
  {
    rs := [];
    ghost var t0, used0, disk0, n0 := inode.tree, vol.used, vol.disk, Div(inode.size, vol.blockSize);
    ghost var now := m;
    while |rs| < |qs|
      invariant Progress(m, qs, rs, now)
      invariant Serving(vol, inode, now, t0, used0, disk0, n0 + |rs|)
      decreases |qs| - |rs|
    {
      var q := qs[|rs|];
      var ok, r := AnswerNext(vol, inode, q, now, t0, used0, disk0, n0 + |rs|);
      if !ok {
        return;
      }
      ProgressMore(m, qs, rs, now, r, After(now, q));
      rs, now := rs + [r], After(now, q);
    }
  }

  // ----- a new directory ------------------------------------------------------------------------------------------

  ghost function DotMap(ino: nat, parent: nat): map<Name, nat> { map[DOT := ino, DOT_DOT := parent] }

  lemma DotNames(ino: nat, parent: nat)
    requires ino > 0 && parent > 0
    ensures Represents([Entry(DOT, ino, FT_DIR), Entry(DOT_DOT, parent, FT_DIR)], DotMap(ino, parent))
  {
    var es, m := [Entry(DOT, ino, FT_DIR), Entry(DOT_DOT, parent, FT_DIR)], DotMap(ino, parent);
    assert DOT != DOT_DOT by {
      assert |DOT| != |DOT_DOT|;
    }
    var tail := es[1..];
    assert |tail| == 1 && tail[0] == es[1] && |tail[1..]| == 0;
    forall n: Name ensures Lookup(es, n) == if n in m then m[n] else 0 {
      assert Lookup(es, n) == if n == DOT then ino else Lookup(tail, n);
      assert Lookup(tail, n) == if n == DOT_DOT then parent else 0;
    }
  }

  lemma EmptyTreeOk(disk: Disk, used: set<nat>, cap: nat)
    ensures TreeOk(disk, used, Node(EXTENT_MAGIC, ROOT_MAX, 0, [], []), Leaf([]), cap)
  { }

  /** One block, written, is all there is. */
  lemma OneBlock(disk0: Disk, disk: Disk, t: Tree, bs: nat, nb: nat, b: seq<Byte>)
    requires bs > 0 && RunMapped(disk0, Leaf([]), disk, t, bs, 0, nb, 1) && Sole(t, 0) && |b| == bs < 0x1_0000
             && Tiled(b, 0, bs)
    ensures DirBytes(disk[nb := DataBlock(b)], t, bs, bs) && Live(disk[nb := DataBlock(b)], t, bs, bs) == Names(b)
  {
    var none := DirBlocks(disk0, Leaf([]), bs, 0);
    OneMore(0, bs);
    BlockAdded(disk0, Leaf([]), disk, t, bs, 0, nb, b);
    NamesSnoc(none, b);
    assert AllNames(none) + Names(b) == Names(b);
  }

  /** A new directory, with the names "." and ".."; fails only for want of a block. */
  method MakeDir(vol: Volume, ino: nat, parent: nat) returns (ok: bool, inode: Inode)
    requires vol.Valid() && Aligned(vol.blockSize) && vol.blockSize < 0x1_0000
    requires 0 < ino < 0x1_0000_0000 && 0 < parent < 0x1_0000_0000
    modifies vol
    ensures vol.Valid() && fresh(inode)
            && (!ok ==> vol.Exhausted() && vol.used == old(vol.used) && vol.disk == old(vol.disk))
    ensures ok ==> Holds(vol, inode, DotMap(ino, parent)) && Accounted(inode.iblocks, inode.tree, vol.Spb())
    ensures ok ==> Apart(Leaf([]), inode.tree, old(vol.used), vol.used, old(vol.disk), vol.disk)
  {
    ghost var used0, disk0 := vol.used, vol.disk;
    inode := new Inode.Empty();
    var nb := vol.AllocBlock();
    ok := nb != 0;
    if !ok {
      return;
    }
    ghost var disk1 := vol.disk;
    assert Range(nb, 1) == {nb};
    EmptyTreeOk(disk1, used0, vol.Cap());
    RunReady(disk1, used0, inode.root, Leaf([]), vol.Cap(), 0, 0, nb, 1);
    MapFirst(vol, inode, nb, used0);
    ApartFrom(Leaf([]), inode.tree, used0, vol.used, disk0, disk1, vol.disk, nb, disk1[nb]);
    WriteDots(vol, inode, nb, ino, parent, used0, disk0, disk1);
  }

  /** The only block of the directory gets its two names. */
  method WriteDots(vol: Volume, inode: Inode, nb: nat, ino: nat, parent: nat, ghost used0: set<nat>, ghost disk0: Disk,
                   ghost disk1: Disk)
    requires vol.Valid() && inode.Ok(vol) && inode.iblocks < U32 && Aligned(vol.blockSize) && vol.blockSize < 0x1_0000
    requires 0 < ino < 0x1_0000_0000 && 0 < parent < 0x1_0000_0000 && nb !in used0 && Blk(inode.tree, 0) == nb > 0
    requires RunMapped(disk1, Leaf([]), vol.disk, inode.tree, vol.blockSize, 0, nb, 1)
    requires Apart(Leaf([]), inode.tree, used0, vol.used, disk0, vol.disk)
    modifies vol`disk, inode`size
    ensures vol.Valid() && Holds(vol, inode, DotMap(ino, parent))
    ensures Apart(Leaf([]), inode.tree, used0, vol.used, disk0, vol.disk)
  {
    var bs := vol.blockSize;
    var bytes := DotBlock(bs, ino, parent);
    SoleBlock(vol.disk, vol.used, inode.root, inode.tree, vol.Cap(), 0);
    DataWriteKeeps(vol.disk, vol.used, inode.root, inode.tree, vol.Cap(), nb, DataBlock(bytes));
    OneBlock(disk1, vol.disk, inode.tree, bs, nb, bytes);
    DotNames(ino, parent);
    vol.WriteData(nb, bytes);
    inode.size := bs;
  }

  lemma FirstSectors(spb: nat)
    requires spb < U32
    ensures Sectors(0, 1, spb) == spb && Accounted(0, Leaf([]), spb)
  {
  }

  /** The block just allocated becomes the first of an empty file; the root has room, so this cannot fail. */
  method MapFirst(vol: Volume, inode: Inode, nb: nat, ghost used0: set<nat>)
    requires vol.Valid() && inode.Ok(vol) && inode.tree == Leaf([]) && inode.iblocks == 0 && RunOk(0, nb, 1)
             && RoomInRoot(inode.root)
    requires nb > 0 && RunFree(inode.tree, vol.used, nb, 1) && vol.used == used0 + Range(nb, 1) && Range(nb, 1) !! used0
    requires vol.blockSize < 0x1_0000
    modifies vol, inode`root, inode`iblocks, inode`tree
    ensures vol.Valid() && inode.Ok(vol) && inode.iblocks < U32 && Accounted(inode.iblocks, inode.tree, vol.Spb())
    ensures Apart(Leaf([]), inode.tree, used0, vol.used, old(vol.disk), vol.disk) && Blk(inode.tree, 0) == nb
    ensures RunMapped(old(vol.disk), Leaf([]), vol.disk, inode.tree, vol.blockSize, 0, nb, 1)
  {
    ghost var root0, t0, disk0, used1 := inode.root, inode.tree, vol.disk, vol.used;
    forall b | b in vol.used ensures b in vol.disk {
      vol.UsedOnDisk(b);
    }
    var rc := ExtentAppend(vol, inode, 0, nb, 1);
    DataKept(disk0, vol.disk, used1, root0, t0, vol.Cap(), vol.blockSize);
    var spb := vol.Spb();
    inode.iblocks := spb;
    FirstSectors(spb);
    MappedRun(t0, inode.tree, used0, used1, vol.used, disk0, vol.disk, 0, 0, inode.iblocks, spb, vol.blockSize, 0, nb,
              1);
  }
}
