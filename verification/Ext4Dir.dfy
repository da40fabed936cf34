/** Directories: finding, inserting and removing names in blocks of records. */
module Ext4Dir {
  import opened RawBytes
  import opened Ext4DirBlock

  // ----- directories as lists of entries ---------------------------------------------------------------------

  /** The inode of the first entry of that name, 0 if there is none. */
  function Lookup(es: seq<Entry>, name: seq<Byte>): nat {
    if es == [] then 0 else if es[0].name == name then es[0].ino else Lookup(es[1..], name)
  }

  function InsertAt(es: seq<Entry>, k: nat, e: Entry): seq<Entry>
    requires k <= |es|
  { es[..k] + [e] + es[k..] }

  function RemoveAt(es: seq<Entry>, k: nat): seq<Entry>
    requires k < |es|
  { es[..k] + es[k + 1..] }

  predicate Absent(es: seq<Entry>, name: seq<Byte>) { forall i: nat :: i < |es| ==> es[i].name != name }

  lemma {:induction false} LookupConcat(a: seq<Entry>, b: seq<Entry>, name: seq<Byte>)
    ensures Lookup(a + b, name) == if Absent(a, name) then Lookup(b, name) else Lookup(a, name)
  {
    if a == [] {
      assert a + b == b;
    } else {
      assert (a + b)[1..] == a[1..] + b;
      LookupConcat(a[1..], b, name);
      assert Absent(a, name) <==> a[0].name != name && Absent(a[1..], name) by {
        if a[0].name != name && Absent(a[1..], name) {
          assert forall i: nat :: 0 < i < |a| ==> a[i] == a[1..][i - 1];
        }
        if Absent(a, name) {
          assert forall i: nat :: i < |a[1..]| ==> a[1..][i] == a[i + 1];
        }
      }
    }
  }

  lemma {:induction false} LookupAbsent(es: seq<Entry>, name: seq<Byte>)
    requires Absent(es, name)
    ensures Lookup(es, name) == 0
  {
    if es != [] {
      assert forall i: nat :: i < |es[1..]| ==> es[1..][i] == es[i + 1];
      LookupAbsent(es[1..], name);
    }
  }

  /** Inserting a name that was not there adds that name and no other. */
  lemma InsertLookup(es: seq<Entry>, k: nat, e: Entry, name: seq<Byte>)
    requires k <= |es| && Absent(es, e.name)
    ensures Lookup(InsertAt(es, k, e), name) == if name == e.name then e.ino else Lookup(es, name)
  {
    assert es == es[..k] + es[k..];
    LookupConcat(es[..k], es[k..], name);
    LookupConcat(es[..k] + [e], es[k..], name);
    LookupConcat(es[..k], [e], name);
    assert Absent(es[..k], e.name) by {
      assert forall i: nat :: i < |es[..k]| ==> es[..k][i] == es[i];
    }
    assert Absent(es[..k] + [e], name) <==> Absent(es[..k], name) && e.name != name by {
      assert (es[..k] + [e])[k] == e;
      assert forall i: nat :: i < k ==> (es[..k] + [e])[i] == es[..k][i];
    }
  }

  /** Removing a name that was there once removes that name and no other. */
  lemma RemoveLookup(es: seq<Entry>, k: nat, name: seq<Byte>)
    requires k < |es| && forall i: nat :: i < |es| && i != k ==> es[i].name != es[k].name
    ensures Lookup(RemoveAt(es, k), name) == if name == es[k].name then 0 else Lookup(es, name)
  {
    var a, b, e := es[..k], es[k + 1..], es[k];
    assert es == a + [e] + b && InsertAt(a + b, k, e) == es by {
      assert (a + b)[..k] == a && (a + b)[k..] == b;
    }
    assert Absent(a + b, e.name) by {
      assert forall i: nat :: i < |a + b| ==> (a + b)[i] == es[if i < k then i else i + 1];
    }
    InsertLookup(a + b, k, e, name);
    if name == e.name {
      LookupAbsent(a + b, name);
    }
  }

  // ----- one block ------------------------------------------------------------------------------------------------

  /** The names in a block, in order. */
  function Names(b: seq<Byte>): seq<Entry>
    requires Tiled(b, 0, |b|)
  { Entries(b, 0, |b|) }

  predicate Matches(b: seq<Byte>, o: nat, name: seq<Byte>)
    requires RecOk(b, o, |b|)
  { Ino(b, o) != 0 && NameLen(b, o) == |name| && NameAt(b, o) == name }

  /** The records from `o` on decide the lookup. */
  ghost predicate Settles(b: seq<Byte>, o: nat, name: seq<Byte>, want: nat) {
    Tiled(b, o, |b|) && Lookup(Entries(b, o, |b|), name) == want
  }

  /** A lookup is decided by the record at `o`, or by those behind it. */
  lemma HeadLookup(b: seq<Byte>, o: nat, next: nat, name: seq<Byte>, want: nat)
    requires Settles(b, o, name, want) && o < |b| && next == o + RecLen(b, o)
    ensures Matches(b, o, name) ==> Ino(b, o) == want
    ensures !Matches(b, o, name) ==> Settles(b, next, name, want)
  {
    LookupConcat(EntryAt(b, o, |b|), Entries(b, next, |b|), name);
  }

  /** Look at the record at `bo`. */
  method Visit(b: seq<Byte>, bo: nat, name: seq<Byte>, ghost want: nat) returns (hit: bool, ino: nat, next: nat)
    requires Settles(b, bo, name, want) && bo < |b|
    ensures hit ==> ino == want
    ensures !hit ==> bo < next && Settles(b, next, name, want)
  {
    next := bo + RecLen(b, bo);
    HeadLookup(b, bo, next, name, want);
    hit, ino := Matches(b, bo, name), Ino(b, bo);
  }

  /** Scan the records from `lo` on. */
  method FindFrom(b: seq<Byte>, lo: nat, name: seq<Byte>) returns (ino: nat)
    requires Tiled(b, lo, |b|)
    ensures ino == Lookup(Entries(b, lo, |b|), name)
  {
    var bo := lo;
    ghost var want := Lookup(Entries(b, lo, |b|), name);
    while bo < |b|
      invariant Settles(b, bo, name, want)
      decreases |b| - bo
    {
      var hit, next;
      hit, ino, next := Visit(b, bo, name, want);
      if hit {
        return;
      }
      bo := next;
    }
    ino := 0;
  }

  method FindIn(b: seq<Byte>, name: seq<Byte>) returns (ino: nat)
    requires Tiled(b, 0, |b|)
    ensures ino == Lookup(Names(b), name)
  {
    ino := FindFrom(b, 0, name);
  }

  /** A record with `need` bytes to spare: it is not in use, or has that much behind its name. */
  predicate Roomy(b: seq<Byte>, o: nat, need: nat)
    requires RecOk(b, o, |b|)
  { if Ino(b, o) == 0 then RecLen(b, o) >= need else RecLen(b, o) - Need(NameLen(b, o)) >= need }

  predicate Packed(b: seq<Byte>, o: nat, need: nat)
    requires Tiled(b, o, |b|)
    decreases |b| - o
  { o == |b| || (!Roomy(b, o, need) && Packed(b, o + RecLen(b, o), need)) }

  /** The entry lands between those before the record from `o` to `next` and those behind it. */
  lemma Landed(a: seq<Byte>, b: seq<Byte>, lo: nat, o: nat, next: nat, end: nat, e: Entry)
    requires Tiled(a, lo, o) && Tiled(a, o, end) && o < end && next == o + RecLen(a, o)
    requires Tiled(b, o, next) && Entries(b, o, next) == EntryAt(a, o, end) + [e]
    requires SameBytes(a, b, lo, o) && SameBytes(a, b, next, end)
    ensures Tiled(a, lo, end) && Tiled(b, lo, end) && |Entries(a, lo, o) + EntryAt(a, o, end)| <= |Entries(a, lo, end)|
    ensures Entries(b, lo, end) == InsertAt(Entries(a, lo, end), |Entries(a, lo, o) + EntryAt(a, o, end)|, e)
  {
    Around(a, lo, o, next, end);
    Retiled(a, b, lo, o, next, end);
    InsertBetween(Entries(a, lo, o), EntryAt(a, o, end), Entries(a, next, end), e);
  }

  lemma InsertBetween(x: seq<Entry>, y: seq<Entry>, z: seq<Entry>, e: Entry)
    ensures InsertAt(x + y + z, |x + y|, e) == x + (y + [e]) + z
  {
    assert (x + y + z)[..|x + y|] == x + y && (x + y + z)[|x + y|..] == z;
  }

  /** The scan moves on to the next record. */
  lemma Onward(b: seq<Byte>, o: nat)
    requires Tiled(b, 0, o) && Tiled(b, o, |b|) && o < |b|
    ensures RecOk(b, o, |b|) && o < o + RecLen(b, o) <= |b| && Tiled(b, 0, o + RecLen(b, o))
            && Tiled(b, o + RecLen(b, o), |b|)
  {
    Around(b, 0, o, o + RecLen(b, o), |b|);
  }

  /** The slack of a record in use, as the 32-bit difference the driver takes; it does not wrap. */
  method HasRoom(b: seq<Byte>, o: nat, need: nat) returns (room: bool)
    requires RecOk(b, o, |b|) && RecLen(b, o) < 0x1_0000
    ensures room <==> Roomy(b, o, need)
  {
    if Ino(b, o) == 0 {
      return RecLen(b, o) >= need;
    }
    var used := (REC_HEAD + NameLen(b, o) + 3) / 4 * 4;
    NeedIs(NameLen(b, o));
    NeedFits(NameLen(b, o), RecLen(b, o));
    room := (RecLen(b, o) - used) % 0x1_0000_0000 >= need;
  }

  /** Put the entry in the first record with room for it. */
  method InsertIn(blk: array<Byte>, name: seq<Byte>, ino: nat, ftype: Byte) returns (ok: bool, ghost k: nat)
    requires Tiled(blk[..], 0, blk.Length) && blk.Length < 0x1_0000 && 0 < ino < 0x1_0000_0000
    modifies blk
    ensures Tiled(blk[..], 0, blk.Length)
    ensures ok <==> !Packed(old(blk[..]), 0, Need(|name|))
    ensures ok ==>
              k <= |Names(old(blk[..]))|
                && Names(blk[..]) == InsertAt(Names(old(blk[..])), k, Entry(StoredName(name), ino, ftype))
    ensures !ok ==> blk[..] == old(blk[..])
  {
    ghost var a := blk[..];
    var need, bo := (REC_HEAD + |name| + 3) / 4 * 4, 0;
    NeedIs(|name|);
    while bo < blk.Length
      invariant blk[..] == a && Tiled(a, 0, bo) && Tiled(a, bo, |a|) && (Packed(a, 0, need) <==> Packed(a, bo, need))
      decreases blk.Length - bo
    {
      Onward(a, bo);
      var room := HasRoom(blk[..], bo, need);
      if room {
        k := InsertHere(blk, bo, name, ino, ftype);
        return true, k;
      }
      bo := bo + RecLen(blk[..], bo);
    }
    return false, 0;
  }

  method InsertHere(blk: array<Byte>, bo: nat, name: seq<Byte>, ino: nat, ftype: Byte) returns (ghost k: nat)
    requires Tiled(blk[..], 0, bo) && Tiled(blk[..], bo, blk.Length) && bo < blk.Length < 0x1_0000
             && 0 < ino < 0x1_0000_0000
    requires Roomy(blk[..], bo, Need(|name|))
    modifies blk
    ensures Tiled(old(blk[..]), 0, blk.Length) && Tiled(blk[..], 0, blk.Length) && k <= |Names(old(blk[..]))|
    ensures Names(blk[..]) == InsertAt(Names(old(blk[..])), k, Entry(StoredName(name), ino, ftype))
  {
    ghost var a := blk[..];
    k := |Entries(a, 0, bo) + EntryAt(a, bo, |a|)|;
    PutRecord(blk, bo, name, ino, ftype);
    Landed(a, blk[..], 0, bo, bo + RecLen(a, bo), |a|, Entry(StoredName(name), ino, ftype));
  }

  /** Fill the record at `bo`, or a new one cut off it. */
  method PutRecord(blk: array<Byte>, bo: nat, name: seq<Byte>, ino: nat, ftype: Byte)
    requires RecOk(blk[..], bo, blk.Length) && blk.Length < 0x1_0000 && 0 < ino < 0x1_0000_0000
    requires Roomy(blk[..], bo, Need(|name|))
    modifies blk
    ensures var a, b, end := old(blk[..]), blk[..], bo + old(RecLen(blk[..], bo));
            && SameBytes(a, b, 0, bo) && SameBytes(a, b, end, |a|) && Tiled(b, bo, end)
            && Entries(b, bo, end) == EntryAt(a, bo, |a|) + [Entry(StoredName(name), ino, ftype)]
  {
    ghost var a := blk[..];
    if Ino(blk[..], bo) == 0 {
      FillRecord(blk, bo, ino, name, ftype);
      Reused(a, blk[..], bo, bo + RecLen(a, bo), ino, name, ftype);
    } else {
      SplitRecord(blk, bo, name, ino, ftype);
    }
  }

  lemma Reused(a: seq<Byte>, b: seq<Byte>, o: nat, next: nat, ino: nat, name: seq<Byte>, ftype: Byte)
    requires RecOk(a, o, |a|) && Ino(a, o) == 0 && Roomy(a, o, Need(|name|)) && next == o + RecLen(a, o)
    requires Filled(a, b, o, ino, name, ftype) && 0 < ino
    ensures SameBytes(a, b, 0, o) && SameBytes(a, b, next, |a|) && Tiled(b, o, next)
    ensures Entries(b, o, next) == EntryAt(a, o, |a|) + [Entry(StoredName(name), ino, ftype)]
  {
    FilledIs(a, b, o, ino, name, ftype);
    assert EntryAt(a, o, |a|) + [Entry(StoredName(name), ino, ftype)] == [Entry(StoredName(name), ino, ftype)];
  }

  /** Cut the slack off the record at `bo` and make it a record of its own. */
  method SplitRecord(blk: array<Byte>, bo: nat, name: seq<Byte>, ino: nat, ftype: Byte)
    requires RecOk(blk[..], bo, blk.Length) && blk.Length < 0x1_0000 && 0 < ino < 0x1_0000_0000
    requires Ino(blk[..], bo) != 0 && Roomy(blk[..], bo, Need(|name|))
    modifies blk
    ensures var a, b, end := old(blk[..]), blk[..], bo + old(RecLen(blk[..], bo));
            && SameBytes(a, b, 0, bo) && SameBytes(a, b, end, |a|) && Tiled(b, bo, end)
            && Entries(b, bo, end) == EntryAt(a, bo, |a|) + [Entry(StoredName(name), ino, ftype)]
  {
    ghost var a := blk[..];
    var used, len := Need(NameLen(blk[..], bo)), RecLen(blk[..], bo);
    Resize(blk, bo, used);
    ghost var b1 := blk[..];
    Resize(blk, bo + used, len - used);
    ghost var b2 := blk[..];
    FillRecord(blk, bo + used, ino, name, ftype);
    AlignedSum(used, len - used);
    SplitDone(a, b1, b2, blk[..], bo, bo + used, bo + len, EntryAt(a, bo, |a|), name, ino, ftype);
  }

  lemma SplitDone(a: seq<Byte>, b1: seq<Byte>, b2: seq<Byte>, b: seq<Byte>, bo: nat, mid: nat, end: nat, x: seq<Entry>,
                  name: seq<Byte>, ino: nat, ftype: Byte)
    requires RecOk(a, bo, |a|) && x == EntryAt(a, bo, |a|) && 0 < ino
    requires bo + REC_HEAD + NameLen(a, bo) <= mid && mid + REC_HEAD + |name| <= end <= |a| && Aligned(mid - bo)
             && Aligned(end - mid)
    requires Resized(a, b1, bo, mid - bo) && Resized(b1, b2, mid, end - mid) && Filled(b2, b, mid, ino, name, ftype)
    ensures SameBytes(a, b, 0, bo) && SameBytes(a, b, end, |a|)
    ensures Tiled(b, bo, end) && Entries(b, bo, end) == x + [Entry(StoredName(name), ino, ftype)]
  {
    SplitFront(a, b1, b2, b, bo, mid, end, name, ino, ftype);
    SplitTiles(a, b1, b2, b, bo, mid, end, x, name, ino, ftype);
  }

  lemma SplitTiles(a: seq<Byte>, b1: seq<Byte>, b2: seq<Byte>, b: seq<Byte>, bo: nat, mid: nat, end: nat, x: seq<Entry>,
                   name: seq<Byte>, ino: nat, ftype: Byte)
    requires bo <= mid <= end <= |a| && SameBytes(a, b, 0, bo) && Tiled(b, bo, mid) && Entries(b, bo, mid) == x
    requires Resized(b1, b2, mid, end - mid) && SameBytes(a, b1, end, |a|) && |b1| == |a|
             && Filled(b2, b, mid, ino, name, ftype)
    requires 0 < ino && Aligned(end - mid) && REC_HEAD + |name| <= end - mid
    ensures SameBytes(a, b, end, |a|) && Tiled(b, bo, end)
            && Entries(b, bo, end) == x + [Entry(StoredName(name), ino, ftype)]
  {
    SplitBack(b1, b2, b, mid, end, name, ino, ftype);
    TwoTiles(b, bo, mid, end, x, [Entry(StoredName(name), ino, ftype)]);
  }

  lemma SplitFront(a: seq<Byte>, b1: seq<Byte>, b2: seq<Byte>, b: seq<Byte>, bo: nat, mid: nat, end: nat,
                   name: seq<Byte>, ino: nat, ftype: Byte)
    requires RecOk(a, bo, |a|) && bo + REC_HEAD + NameLen(a, bo) <= mid <= end <= |a| && Aligned(mid - bo)
    requires Resized(a, b1, bo, mid - bo) && Resized(b1, b2, mid, end - mid) && Filled(b2, b, mid, ino, name, ftype)
    ensures SameBytes(a, b, 0, bo) && Tiled(b, bo, mid) && Entries(b, bo, mid) == EntryAt(a, bo, |a|)
  {
    ResizedTile(a, b1, bo, mid - bo);
    SameTiles(b1, b, bo, mid);
  }

  lemma SplitBack(b1: seq<Byte>, b2: seq<Byte>, b: seq<Byte>, at: nat, end: nat, name: seq<Byte>, ino: nat, ftype: Byte)
    requires at <= end <= |b1| && Resized(b1, b2, at, end - at) && Filled(b2, b, at, ino, name, ftype) && 0 < ino
    requires Aligned(end - at) && REC_HEAD + |name| <= end - at
    ensures SameBytes(b1, b, end, |b1|) && Tiled(b, at, end)
            && Entries(b, at, end) == [Entry(StoredName(name), ino, ftype)]
  {
    FilledIs(b2, b, at, ino, name, ftype);
  }

  // ----- removing from a block ---------------------------------------------------------------------------------------

  /** Entry k of the list is the first of that name. */
  ghost predicate FirstMatch(es: seq<Entry>, k: nat, name: seq<Byte>, ino: nat) {
    k < |es| && es[k].name == name && es[k].ino == ino && Absent(es[..k], name)
  }

  lemma RemoveBetween(x: seq<Entry>, e: Entry, z: seq<Entry>)
    ensures |x| < |x + [e] + z| && (x + [e] + z)[|x|] == e && (x + [e] + z)[..|x|] == x
            && RemoveAt(x + [e] + z, |x|) == x + z
  { }

  /** A record that leaves takes its entry along. */
  lemma Left(a: seq<Byte>, b: seq<Byte>, lo: nat, from: nat, o: nat, next: nat, end: nat, name: seq<Byte>, ino: nat,
             ftype: Byte)
    requires Tiled(a, lo, from) && Tiled(a, from, o) && Tiled(a, o, end) && o < end && next == o + RecLen(a, o)
    requires EntryAt(a, o, end) == [Entry(name, ino, ftype)] && Tiled(a, lo, o) && Absent(Entries(a, lo, o), name)
    requires SameBytes(a, b, lo, from) && SameBytes(a, b, next, end) && Tiled(b, from, next)
             && Entries(b, from, next) == Entries(a, from, o)
    ensures Tiled(a, lo, end) && Tiled(b, lo, end) && |Entries(a, lo, o)| < |Entries(a, lo, end)|
    ensures FirstMatch(Entries(a, lo, end), |Entries(a, lo, o)|, name, ino)
    ensures Entries(b, lo, end) == RemoveAt(Entries(a, lo, end), |Entries(a, lo, o)|)
  {
    Around(a, lo, o, next, end);
    TilesJoin(a, lo, from, o);
    Retiled(a, b, lo, from, next, end);
    RemoveBetween(Entries(a, lo, o), Entry(name, ino, ftype), Entries(a, next, end));
  }

  /** Merge the record at `bo` into the one before it. */
  method MergeBack(blk: array<Byte>, prev: nat, bo: nat, name: seq<Byte>)
    requires Tiled(blk[..], 0, prev) && prev < bo && RecOk(blk[..], prev, blk.Length)
             && bo == prev + RecLen(blk[..], prev)
    requires Tiled(blk[..], 0, bo) && Tiled(blk[..], bo, blk.Length) && bo < blk.Length < 0x1_0000
    requires RecOk(blk[..], bo, blk.Length) && Matches(blk[..], bo, name) && Absent(Entries(blk[..], 0, bo), name)
    modifies blk
    ensures var a, b := old(blk[..]), blk[..];
            && Tiled(a, 0, |a|) && Tiled(b, 0, |b|) && FirstMatch(Names(a), |Entries(a, 0, bo)|, name, Ino(a, bo))
            && Names(b) == RemoveAt(Names(a), |Entries(a, 0, bo)|)
  {
    ghost var a := blk[..];
    var plen, len := RecLen(blk[..], prev), RecLen(blk[..], bo);
    Resize(blk, prev, plen + len);
    Merged(a, blk[..], prev, bo, bo + len, |a|);
    Left(a, blk[..], 0, prev, bo, bo + len, |a|, name, Ino(a, bo), a[bo + 7]);
  }

  lemma Merged(a: seq<Byte>, b: seq<Byte>, prev: nat, bo: nat, next: nat, end: nat)
    requires RecOk(a, prev, |a|) && bo == prev + RecLen(a, prev) && RecOk(a, bo, |a|) && next == bo + RecLen(a, bo)
    requires Resized(a, b, prev, next - prev)
    ensures Tiled(a, prev, bo) && Tiled(b, prev, next) && Entries(b, prev, next) == Entries(a, prev, bo)
  {
    AlignedSum(bo - prev, next - bo);
    ResizedTile(a, b, prev, next - prev);
    OneTile(a, prev, bo);
  }

  /** Take the first entry of that name out: its record joins the one before it, or
      is taken out of use if it is the first of the block. */
  method RemoveIn(blk: array<Byte>, name: seq<Byte>) returns (ino: nat, ghost k: nat)
    requires Tiled(blk[..], 0, blk.Length) && blk.Length < 0x1_0000
    modifies blk
    ensures Tiled(blk[..], 0, blk.Length)
    ensures ino == 0 ==> blk[..] == old(blk[..]) && Absent(Names(old(blk[..])), name)
    ensures ino != 0 ==>
              FirstMatch(Names(old(blk[..])), k, name, ino) && Names(blk[..]) == RemoveAt(Names(old(blk[..])), k)
  {
    ghost var a := blk[..];
    var bo, prev := 0, -1;
    while bo < blk.Length
      invariant blk[..] == a && Tiled(a, 0, bo) && Tiled(a, bo, |a|) && Absent(Entries(a, 0, bo), name)
      invariant prev < 0 ==> bo == 0
      invariant prev >= 0 ==> Tiled(a, 0, prev) && prev < bo && RecOk(a, prev, |a|) && bo == prev + RecLen(a, prev)
      decreases blk.Length - bo
    {
      Onward(a, bo);
      k := |Entries(a, 0, bo)|;
      if Matches(blk[..], bo, name) {
        ino := Ino(blk[..], bo);
        if prev >= 0 {
          MergeBack(blk, prev, bo, name);
        } else {
          DropFirst(blk, name);
        }
        return;
      }
      PassBy(a, 0, bo, bo + RecLen(a, bo), name);
      prev := bo;
      bo := bo + RecLen(blk[..], bo);
    }
    return 0, 0;
  }

  lemma PassBy(a: seq<Byte>, lo: nat, o: nat, next: nat, name: seq<Byte>)
    requires Tiled(a, lo, o) && Tiled(a, o, |a|) && o < |a| && next == o + RecLen(a, o) && Tiled(a, lo, next)
    requires Absent(Entries(a, lo, o), name) && !Matches(a, o, name)
    ensures Absent(Entries(a, lo, next), name)
  {
    Around(a, lo, o, next, |a|);
  }

  method DropFirst(blk: array<Byte>, name: seq<Byte>)
    requires Tiled(blk[..], 0, blk.Length) && 0 < blk.Length && RecOk(blk[..], 0, blk.Length)
             && Matches(blk[..], 0, name)
    modifies blk
    ensures var a, b := old(blk[..]), blk[..];
            && Tiled(b, 0, |b|) && FirstMatch(Names(a), 0, name, Ino(a, 0)) && Names(b) == RemoveAt(Names(a), 0)
  {
    ghost var a := blk[..];
    Vacate(blk, 0);
    FirstGone(a, blk[..], 0, RecLen(a, 0), name);
  }

  lemma FirstGone(a: seq<Byte>, b: seq<Byte>, o: nat, len: nat, name: seq<Byte>)
    requires o < |a| && Tiled(a, o, |a|) && Matches(a, o, name) && len == RecLen(a, o) && Vacated(a, b, o)
    ensures Tiled(b, o, |b|) && FirstMatch(Entries(a, o, |a|), 0, name, Ino(a, o))
            && Entries(b, o, |b|) == RemoveAt(Entries(a, o, |a|), 0)
  {
    VacatedTile(a, b, o, o + len);
    Left(a, b, o, o, o, o + len, |a|, name, Ino(a, o), a[o + 7]);
  }
}
