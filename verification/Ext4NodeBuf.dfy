/** Node buffers: the in-place record insertions into a leaf and an index node
    whose entry count says how much of the buffer is in use. */
module Ext4NodeBuf {
  import opened Ext4Extents
  import opened Ext4Tree

  /** Shift the records from `pos` on up by one and store `v` there. */
  method ShiftIn<T>(a: array<T>, n: nat, pos: nat, v: T)
    requires pos <= n < a.Length
    modifies a
    ensures a[..n + 1] == old(a[..n])[..pos] + [v] + old(a[..n])[pos..]
  {
    ghost var s := a[..n];
    var i := n;
    while i > pos
      invariant pos <= i <= n
      invariant forall j :: 0 <= j < i ==> a[j] == s[j]
      invariant forall j :: i < j <= n ==> a[j] == s[j - 1]
    {
      a[i] := a[i - 1];
      i := i - 1;
    }
    a[pos] := v;
  }

  method LeafPosition(ext: array<Extent>, n: nat, lblk: nat) returns (pos: nat)
    requires n <= ext.Length
    ensures pos == Position(ext[..n], lblk)
  {
    pos := 0;
    while pos < n && ext[pos].block <= lblk
      invariant pos <= n && forall i :: 0 <= i < pos ==> ext[..n][i].block <= lblk
    {
      pos := pos + 1;
    }
    PositionUnique(ext[..n], lblk, pos);
  }

  /** Insert a run into the `n` records of a leaf buffer with room for it,
      coalescing with a neighbour when that needs no new record. */
  method LeafPut(ext: array<Extent>, n: nat, lblk: nat, phys: nat, len: nat) returns (n': nat)
    requires n <= ext.Length
    requires n == ext.Length ==> Coalesces(ext[..n], lblk, phys, len)
    modifies ext
    ensures n' <= ext.Length && ext[..n'] == Put(old(ext[..n]), lblk, phys, len)
  {
    ghost var s := ext[..n];
    var pos := LeafPosition(ext, n, lblk);
    if pos > 0 {
      var pv := ext[pos - 1];
      if pv.block + pv.len == lblk && pv.start + pv.len == phys && pv.len + len <= MAX_LEN {
        ext[pos - 1] := pv.(len := pv.len + len);
        UpdatedSlice(s, ext[..n], pos - 1);
        return n;
      }
    }
    if pos < n {
      var nx := ext[pos];
      if lblk + len == nx.block && phys + len == nx.start && nx.len + len <= MAX_LEN {
        ext[pos] := Extent(lblk, nx.len + len, phys);
        UpdatedSlice(s, ext[..n], pos);
        return n;
      }
    }
    ShiftIn(ext, n, pos, Extent(lblk, len, phys));
    n' := n + 1;
  }

  lemma {:induction false} PositionUnique(s: seq<Extent>, block: nat, pos: nat)
    requires pos <= |s| && (forall i :: 0 <= i < pos ==> s[i].block <= block)
    requires pos < |s| ==> block < s[pos].block
    ensures Position(s, block) == pos
  {
    if pos > 0 {
      assert forall i :: 0 <= i < pos - 1 ==> s[1..][i] == s[i + 1];
      PositionUnique(s[1..], block, pos - 1);
    }
  }

  lemma UpdatedSlice<T>(s: seq<T>, t: seq<T>, i: nat)
    requires i < |s| == |t| && forall j :: 0 <= j < |s| && j != i ==> t[j] == s[j]
    ensures t == s[..i] + [t[i]] + s[i + 1..]
  {
  }

  /** Number of leading entries whose key is not above `key`. */
  function IdxPosition(s: seq<Idx>, key: nat): (pos: nat)
    ensures pos <= |s|
    ensures forall i :: 0 <= i < pos ==> s[i].key <= key
    ensures pos < |s| ==> key < s[pos].key
  {
    if s == [] || key < s[0].key then 0 else 1 + IdxPosition(s[1..], key)
  }

  function IdxInsert(s: seq<Idx>, e: Idx): seq<Idx> {
    var pos := IdxPosition(s, e.key);
    s[..pos] + [e] + s[pos..]
  }

  lemma {:induction false} IdxPositionUnique(s: seq<Idx>, key: nat, pos: nat)
    requires pos <= |s| && (forall i :: 0 <= i < pos ==> s[i].key <= key)
    requires pos < |s| ==> key < s[pos].key
    ensures IdxPosition(s, key) == pos
  {
    if pos > 0 {
      assert forall i :: 0 <= i < pos - 1 ==> s[1..][i] == s[i + 1];
      IdxPositionUnique(s[1..], key, pos - 1);
    }
  }

  /** Insert an index entry in key order into an index buffer with room. */
  method IdxPut(idx: array<Idx>, n: nat, key: nat, leaf: nat)
    requires n < idx.Length
    modifies idx
    ensures idx[..n + 1] == IdxInsert(old(idx[..n]), Idx(key, leaf))
  {
    ghost var s := idx[..n];
    var pos := 0;
    while pos < n && idx[pos].key <= key
      invariant pos <= n && idx[..n] == s && forall i :: 0 <= i < pos ==> s[i].key <= key
    {
      pos := pos + 1;
    }
    IdxPositionUnique(s, key, pos);
    ShiftIn(idx, n, pos, Idx(key, leaf));
  }

  /** Read a leaf's records into a buffer of `room` records, insert, and give the
      records back. */
  method PutRecords(exts: seq<Extent>, room: nat, lblk: nat, phys: nat, len: nat) returns (r: seq<Extent>)
    requires |exts| <= room && (|exts| == room ==> Coalesces(exts, lblk, phys, len))
    ensures r == Put(exts, lblk, phys, len)
  {
    var buf := new Extent[room](i => if 0 <= i < |exts| then exts[i] else Extent(0, 0, 0));
    assert buf[..|exts|] == exts;
    var n := LeafPut(buf, |exts|, lblk, phys, len);
    r := buf[..n];
  }

  method PutEntry(idxs: seq<Idx>, room: nat, key: nat, leaf: nat) returns (r: seq<Idx>)
    requires |idxs| < room
    ensures r == IdxInsert(idxs, Idx(key, leaf))
  {
    var buf := new Idx[room](i => if 0 <= i < |idxs| then idxs[i] else Idx(0, 0));
    assert buf[..|idxs|] == idxs;
    IdxPut(buf, |idxs|, key, leaf);
    r := buf[..|idxs| + 1];
  }
}
