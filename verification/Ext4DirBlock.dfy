/** One directory block as bytes: records of a length a multiple of four that tile it. */
module Ext4DirBlock {
  import opened RawBytes

  datatype Entry = Entry(name: seq<Byte>, ino: nat, ftype: Byte)

  const REC_HEAD := 8

  /** A multiple of four. */
  predicate Aligned(n: nat) { if n < 4 then n == 0 else Aligned(n - 4) }

  lemma {:induction false} AlignedIs(n: nat)
    ensures Aligned(n) <==> n % 4 == 0
  {
    if n >= 4 {
      AlignedIs(n - 4);
    }
  }

  lemma AlignedSum(m: nat, n: nat)
    requires Aligned(m)
    ensures Aligned(m + n) <==> Aligned(n)
  {
    AlignedIs(m);
    AlignedIs(n);
    AlignedIs(m + n);
  }

  /** Bytes a record with an `n`-byte name needs: header and name, rounded up to four. */
  function Need(n: nat): (r: nat)
    ensures Aligned(r) && REC_HEAD + n <= r < REC_HEAD + n + 4
  { if n == 0 then REC_HEAD else if n <= 4 then REC_HEAD + 4 else 4 + Need(n - 4) }

  lemma NeedIs(n: nat)
    ensures Need(n) == (REC_HEAD + n + 3) / 4 * 4
  {
    AlignedIs(Need(n));
  }

  lemma NeedFits(n: nat, len: nat)
    requires Aligned(len) && REC_HEAD + n <= len
    ensures Need(n) <= len
  {
    AlignedIs(len);
    AlignedIs(Need(n));
  }

  // ----- little-endian fields -------------------------------------------------------------------------------

  function Word2(x: nat, y: nat): nat { x + 0x100 * y }

  function Word4(x: nat, y: nat, z: nat, u: nat): nat { x + 0x100 * y + 0x1_0000 * z + 0x100_0000 * u }

  function Bytes2(v: nat): (s: seq<Byte>)
    requires v < 0x1_0000
    ensures |s| == 2 && Word2(s[0], s[1]) == v
  { [v % 0x100, v / 0x100] }

  function Bytes4(v: nat): (s: seq<Byte>)
    requires v < 0x1_0000_0000
    ensures |s| == 4 && Word4(s[0], s[1], s[2], s[3]) == v
  { Bytes2(v % 0x1_0000) + Bytes2(v / 0x1_0000) }

  // ----- the record at an offset -----------------------------------------------------------------------------

  predicate HasHead(b: seq<Byte>, o: nat) { o + REC_HEAD <= |b| }

  function Ino(b: seq<Byte>, o: nat): nat requires HasHead(b, o) { Word4(b[o], b[o + 1], b[o + 2], b[o + 3]) }

  function RecLen(b: seq<Byte>, o: nat): nat requires HasHead(b, o) { Word2(b[o + 4], b[o + 5]) }

  function NameLen(b: seq<Byte>, o: nat): Byte requires HasHead(b, o) { b[o + 6] }

  function NameAt(b: seq<Byte>, o: nat): seq<Byte>
    requires HasHead(b, o) && o + REC_HEAD + NameLen(b, o) <= |b|
  { b[o + REC_HEAD..o + REC_HEAD + NameLen(b, o)] }

  /** A record from `o` that ends by `end`, long enough for its name if it is in use. */
  predicate RecOk(b: seq<Byte>, o: nat, end: nat) {
    && end <= |b| && o + REC_HEAD <= end && REC_HEAD <= RecLen(b, o) && Aligned(RecLen(b, o)) && o + RecLen(b, o) <= end
    && (Ino(b, o) != 0 ==> REC_HEAD + NameLen(b, o) <= RecLen(b, o))
  }

  /** Records tile the bytes from `o` to `end`. */
  predicate Tiled(b: seq<Byte>, o: nat, end: nat)
    decreases end - o
  { o <= end <= |b| && (o == end || (RecOk(b, o, end) && Tiled(b, o + RecLen(b, o), end))) }

  /** What the record at `o` says: an entry, or nothing if it is not in use. */
  function EntryAt(b: seq<Byte>, o: nat, end: nat): seq<Entry>
    requires RecOk(b, o, end)
  { if Ino(b, o) == 0 then [] else [Entry(NameAt(b, o), Ino(b, o), b[o + 7])] }

  function Entries(b: seq<Byte>, o: nat, end: nat): seq<Entry>
    requires Tiled(b, o, end)
    decreases end - o
  { if o == end then [] else EntryAt(b, o, end) + Entries(b, o + RecLen(b, o), end) }

  // ----- pieces of a tiling -------------------------------------------------------------------------------------

  ghost predicate SameBytes(a: seq<Byte>, b: seq<Byte>, o: nat, end: nat) {
    end <= |a| && end <= |b| && forall i: nat :: o <= i < end ==> a[i] == b[i]
  }

  lemma SameRecord(a: seq<Byte>, b: seq<Byte>, o: nat, end: nat)
    requires RecOk(a, o, end) && SameBytes(a, b, o, end)
    ensures RecOk(b, o, end) && RecLen(b, o) == RecLen(a, o) && EntryAt(b, o, end) == EntryAt(a, o, end)
  {
    if Ino(a, o) != 0 {
      assert NameAt(a, o) == NameAt(b, o);
    }
  }

  /** Only the bytes tiled matter. */
  lemma {:induction false} SameTiles(a: seq<Byte>, b: seq<Byte>, o: nat, end: nat)
    requires Tiled(a, o, end) && SameBytes(a, b, o, end)
    ensures Tiled(b, o, end) && Entries(b, o, end) == Entries(a, o, end)
    decreases end - o
  {
    if o < end {
      SameRecord(a, b, o, end);
      SameTiles(a, b, o + RecLen(a, o), end);
    }
  }

  /** A record may end before the end given for it. */
  lemma WiderEnd(b: seq<Byte>, o: nat, end: nat, end': nat)
    requires RecOk(b, o, end) && end <= end' <= |b|
    ensures RecOk(b, o, end') && EntryAt(b, o, end') == EntryAt(b, o, end)
  { }

  lemma {:induction false} TilesJoin(b: seq<Byte>, o: nat, mid: nat, end: nat)
    requires Tiled(b, o, mid) && Tiled(b, mid, end)
    ensures Tiled(b, o, end) && Entries(b, o, end) == Entries(b, o, mid) + Entries(b, mid, end)
    decreases mid - o
  {
    if o < mid {
      TilesJoin(b, o + RecLen(b, o), mid, end);
      WiderEnd(b, o, mid, end);
      Joined(EntryAt(b, o, mid), Entries(b, o + RecLen(b, o), mid), Entries(b, mid, end));
    }
  }

  lemma Joined(a: seq<Entry>, b: seq<Entry>, c: seq<Entry>)
    ensures a + (b + c) == a + b + c
  { }

  /** One record is a tiling. */
  lemma OneTile(b: seq<Byte>, o: nat, end: nat)
    requires RecOk(b, o, end) && o + RecLen(b, o) == end
    ensures Tiled(b, o, end) && Entries(b, o, end) == EntryAt(b, o, end)
  {
    assert Entries(b, end, end) == [];
  }

  /** The record from `o` to `next` sits between the tiles before it and those behind it. */
  lemma Around(b: seq<Byte>, lo: nat, o: nat, next: nat, end: nat)
    requires Tiled(b, lo, o) && Tiled(b, o, end) && o < end && HasHead(b, o) && next == o + RecLen(b, o)
    ensures RecOk(b, o, end) && o < next && Tiled(b, next, end) && Tiled(b, lo, next) && Tiled(b, lo, end)
    ensures Entries(b, lo, next) == Entries(b, lo, o) + EntryAt(b, o, end)
    ensures Entries(b, lo, end) == Entries(b, lo, o) + EntryAt(b, o, end) + Entries(b, next, end)
  {
    FirstTile(b, o, next, end);
    OneTile(b, o, next);
    TwoTiles(b, lo, o, next, Entries(b, lo, o), EntryAt(b, o, end));
    TwoTiles(b, lo, next, end, Entries(b, lo, o) + EntryAt(b, o, end), Entries(b, next, end));
  }

  lemma FirstTile(b: seq<Byte>, o: nat, next: nat, end: nat)
    requires Tiled(b, o, end) && o < end && HasHead(b, o) && next == o + RecLen(b, o)
    ensures RecOk(b, o, end) && RecOk(b, o, next) && o < next && Tiled(b, next, end)
    ensures EntryAt(b, o, next) == EntryAt(b, o, end)
  {
  }

  lemma TwoTiles(b: seq<Byte>, o: nat, mid: nat, end: nat, x: seq<Entry>, y: seq<Entry>)
    requires Tiled(b, o, mid) && Entries(b, o, mid) == x && Tiled(b, mid, end) && Entries(b, mid, end) == y
    ensures Tiled(b, o, end) && Entries(b, o, end) == x + y
  {
    TilesJoin(b, o, mid, end);
  }

  /** Tiles of the bytes `o` to `next` replaced by others, the rest of the block as it was. */
  lemma Retiled(a: seq<Byte>, b: seq<Byte>, lo: nat, o: nat, next: nat, end: nat)
    requires Tiled(a, lo, o) && Tiled(a, next, end) && o <= next && Tiled(b, o, next)
    requires SameBytes(a, b, lo, o) && SameBytes(a, b, next, end)
    ensures Tiled(b, lo, end) && Entries(b, lo, end) == Entries(a, lo, o) + Entries(b, o, next) + Entries(a, next, end)
  {
    SameTiles(a, b, lo, o);
    SameTiles(a, b, next, end);
    TilesJoin(b, lo, o, next);
    TilesJoin(b, lo, next, end);
  }

  // ----- writing records --------------------------------------------------------------------------------------------

  /** A name length is stored in one byte. */
  function LowByte(n: nat): (r: Byte)
    ensures r <= n
  { if n < 256 then n else LowByte(n - 256) }

  lemma {:induction false} LowByteIs(n: nat)
    ensures LowByte(n) == n % 256
  {
    if n >= 256 {
      LowByteIs(n - 256);
    }
  }

  function StoredName(name: seq<Byte>): seq<Byte> { name[..LowByte(|name|)] }

  /** Bytes o.. hold the fields but for the record length, and nothing else changed. */
  ghost predicate Filled(a: seq<Byte>, b: seq<Byte>, o: nat, ino: nat, name: seq<Byte>, ftype: Byte) {
    && |b| == |a| && o + REC_HEAD + |name| <= |a|
    && Ino(b, o) == ino && b[o + 4] == a[o + 4] && b[o + 5] == a[o + 5]
    && b[o + 6] == LowByte(|name|) && b[o + 7] == ftype && b[o + REC_HEAD..o + REC_HEAD + |name|] == name
    && SameBytes(a, b, 0, o) && SameBytes(a, b, o + REC_HEAD + |name|, |a|)
  }

  lemma SliceOfSlice(b: seq<Byte>, o: nat, m: nat, n: nat)
    requires n <= m && o + m <= |b|
    ensures b[o..o + m][..n] == b[o..o + n]
  { }

  lemma FilledIs(a: seq<Byte>, b: seq<Byte>, o: nat, ino: nat, name: seq<Byte>, ftype: Byte)
    requires Filled(a, b, o, ino, name, ftype) && 0 < ino
    requires Aligned(RecLen(a, o)) && REC_HEAD + |name| <= RecLen(a, o) && o + RecLen(a, o) <= |a|
    ensures var end := o + RecLen(a, o);
            && SameBytes(a, b, 0, o) && SameBytes(a, b, end, |a|)
            && RecLen(b, o) == RecLen(a, o) && Tiled(b, o, end)
            && Entries(b, o, end) == [Entry(StoredName(name), ino, ftype)]
  {
    var n := LowByte(|name|);
    SliceOfSlice(b, o + REC_HEAD, |name|, n);
    OneTile(b, o, o + RecLen(a, o));
  }

  /** Bytes o + 4 and o + 5 hold `len`, and nothing else changed. */
  ghost predicate Resized(a: seq<Byte>, b: seq<Byte>, o: nat, len: nat) {
    && |b| == |a| && HasHead(a, o) && RecLen(b, o) == len
    && SameBytes(a, b, 0, o + 4) && SameBytes(a, b, o + 6, |a|)
  }

  /** A record keeps its entry when its length changes to one that is still enough. */
  lemma ResizedTile(a: seq<Byte>, b: seq<Byte>, o: nat, len: nat)
    requires Resized(a, b, o, len) && REC_HEAD <= len && Aligned(len) && o + len <= |a| && RecOk(a, o, |a|)
    requires Ino(a, o) != 0 ==> REC_HEAD + NameLen(a, o) <= len
    ensures Tiled(b, o, o + len) && Entries(b, o, o + len) == EntryAt(a, o, |a|)
  {
    if Ino(a, o) != 0 {
      assert NameAt(b, o) == NameAt(a, o);
    }
    OneTile(b, o, o + len);
  }

  method Store(blk: array<Byte>, at: nat, s: seq<Byte>)
    requires at + |s| <= blk.Length
    modifies blk
    ensures blk[at..at + |s|] == s
    ensures forall i: nat :: i < blk.Length && !(at <= i < at + |s|) ==> blk[i] == old(blk[i])
  {
    for k := 0 to |s|
      invariant forall i: nat :: at <= i < at + k ==> blk[i] == s[i - at]
      invariant forall i: nat :: i < blk.Length && !(at <= i < at + k) ==> blk[i] == old(blk[i])
    {
      blk[at + k] := s[k];
    }
  }

  method FillRecord(blk: array<Byte>, o: nat, ino: nat, name: seq<Byte>, ftype: Byte)
    requires o + REC_HEAD + |name| <= blk.Length && ino < 0x1_0000_0000
    modifies blk
    ensures Filled(old(blk[..]), blk[..], o, ino, name, ftype)
  {
    Store(blk, o, Bytes4(ino));
    assert Ino(blk[..], o) == ino by {
      var s := blk[o..o + 4];
      assert s[0] == blk[o] && s[1] == blk[o + 1] && s[2] == blk[o + 2] && s[3] == blk[o + 3];
    }
    LowByteIs(|name|);
    blk[o + 6] := |name| % 256;
    blk[o + 7] := ftype;
    Store(blk, o + REC_HEAD, name);
  }

  method Resize(blk: array<Byte>, o: nat, len: nat)
    requires o + REC_HEAD <= blk.Length && len < 0x1_0000
    modifies blk
    ensures Resized(old(blk[..]), blk[..], o, len)
  {
    Store(blk, o + 4, Bytes2(len));
    ghost var s := blk[o + 4..o + 6];
    assert s[0] == blk[o + 4] && s[1] == blk[o + 5];
  }

  /** The record at `o` is taken out of use, and nothing else changed. */
  ghost predicate Vacated(a: seq<Byte>, b: seq<Byte>, o: nat) {
    && |b| == |a| && HasHead(a, o) && Ino(b, o) == 0 && SameBytes(a, b, 0, o) && SameBytes(a, b, o + 4, |a|)
  }

  lemma VacatedTile(a: seq<Byte>, b: seq<Byte>, o: nat, next: nat)
    requires RecOk(a, o, |a|) && Vacated(a, b, o) && next == o + RecLen(a, o)
    ensures Tiled(b, o, next) && Entries(b, o, next) == []
  {
    OneTile(b, o, next);
  }

  method Vacate(blk: array<Byte>, o: nat)
    requires o + REC_HEAD <= blk.Length
    modifies blk
    ensures Vacated(old(blk[..]), blk[..], o)
  {
    Store(blk, o, Bytes4(0));
    ghost var s := blk[o..o + 4];
    assert s[0] == blk[o] && s[1] == blk[o + 1] && s[2] == blk[o + 2] && s[3] == blk[o + 3];
  }
}
