/** Files on a FAT volume: reading and writing along the cluster chain. */
module Fat32File {
  import opened RawBytes
  import opened Division
  import opened Fat32Table

  /** An open file: its first cluster, 0 while it has none, its size and the chain behind it. */
  class File {
    var first: nat
    var size: nat
    ghost var chain: seq<nat>

    constructor ()
      ensures first == 0 && size == 0 && chain == []
    { first, size, chain := 0, 0, []; }
  }

  /** The chain is the one the table holds, and no cluster of it is marked free. */
  ghost predicate ChainOk(links: Links, first: nat, chain: seq<nat>) {
    && Chain(links, first, chain) && (chain == [] ==> first < FIRST)
    && forall i: nat :: i < |chain| ==> chain[i] < |links| && links[chain[i]] != FREE
  }

  ghost predicate FileOk(vol: Volume, file: File)
    reads vol, file
  { vol.Valid() && ChainOk(vol.Links(), file.first, file.chain) }

  /** Clusters were added behind the chain: free ones, zeroed; nothing else changed. */
  ghost predicate Extends(links0: Links, data0: seq<seq<Byte>>, chain0: seq<nat>,
                          links: Links, data: seq<seq<Byte>>, chain: seq<nat>, cluster: nat)
  {
    && |links| == |links0| == |data| == |data0| && |chain0| <= |chain| && chain[..|chain0|] == chain0
    && (forall i: nat :: |chain0| <= i < |chain| ==>
          chain[i] < |links0| && links0[chain[i]] == FREE && data[chain[i]] == Zeros(cluster))
    && (forall x: nat :: x < |links| && x !in chain ==> links[x] == links0[x])
    && (forall x: nat :: x < |links| && (x !in chain || x in chain0) ==> data[x] == data0[x])
  }

  /** Clusters of the file and clusters free, together. */
  ghost function Total(links: Links, chain: seq<nat>): nat { |chain| + Spare(links, |links|) }

  // ----- extending the chain -------------------------------------------------------------------------------------

  /** The chain of a file whose clusters are all in use. */
  ghost predicate Begun(links0: Links, chain0: seq<nat>) {
    forall i: nat :: i < |chain0| ==> chain0[i] < |links0| && links0[chain0[i]] != FREE
  }

  /** The first cluster of an empty file. */
  lemma ChainStarts(links: Links, c: nat)
    requires Leads(c) && c < |links|
    ensures ChainOk(links[c := END], c, [c])
  {
    assert [c][1..] == [];
  }

  /** A free cluster linked behind the last. */
  lemma ChainGrows(links: Links, first: nat, chain: seq<nat>, c: nat, links': Links)
    requires ChainOk(links, first, chain) && chain != [] && Leads(c) && c < |links| && links[c] == FREE
    requires links' == links[c := END][chain[|chain| - 1] := c]
    ensures ChainOk(links', first, chain + [c]) && forall x: nat :: x < |links| && x !in chain + [c] ==>
              links'[x] == links[x]
  {
    var mid := links[c := END];
    assert c !in chain;
    ChainDistinct(links, first, chain);
    ChainFrame(links, mid, first, chain);
    ChainSnoc(mid, first, chain, c);
    assert chain[|chain| - 1] in chain + [c];
  }

  lemma ExtendsMore(links0: Links, data0: seq<seq<Byte>>, chain0: seq<nat>, links: Links, data: seq<seq<Byte>>,
                    chain: seq<nat>,
                    cluster: nat, c: nat, links': Links, data': seq<seq<Byte>>)
    requires Extends(links0, data0, chain0, links, data, chain, cluster) && c < |links| && c !in chain
             && links[c] == FREE
    requires |links'| == |links| && forall x: nat :: x < |links| && x !in chain + [c] ==> links'[x] == links[x]
    requires data' == data[c := Zeros(cluster)]
    ensures Extends(links0, data0, chain0, links', data', chain + [c], cluster)
  {
    var chain' := chain + [c];
    assert chain'[..|chain0|] == chain[..|chain0|];
    assert forall x: nat :: x in chain' <==> x in chain || x == c;
    forall i: nat | |chain0| <= i < |chain'| ensures links0[chain'[i]] == FREE && data'[chain'[i]] == Zeros(cluster) {
      if i < |chain| {
        assert chain'[i] == chain[i] && chain[i] in chain;
      }
    }
    assert forall x: nat :: x in chain0 ==> x in chain;
  }

  /** A link changed between values that are not free. */
  lemma SpareSame(links: Links, x: nat, v: nat)
    requires FIRST <= x < |links| && links[x] != FREE && v != FREE
    ensures Spare(links[x := v], |links|) == Spare(links, |links|)
  {
    SpareSet(links, x, v, |links|);
  }

  /** One more cluster, behind the last if there is one. */
  method Extend(vol: Volume, file: File, last: nat, ghost links0: Links, ghost data0: seq<seq<Byte>>,
                ghost chain0: seq<nat>)
    returns (c: nat)
    requires FileOk(vol, file) && Extends(links0, data0, chain0, vol.Links(), vol.data, file.chain, vol.cluster)
    requires file.chain != [] ==> last == file.chain[|file.chain| - 1]
    modifies vol, file`first, file`chain
    ensures FileOk(vol, file) && Extends(links0, data0, chain0, vol.Links(), vol.data, file.chain, vol.cluster)
    ensures vol.Tops() == old(vol.Tops())
    ensures Total(vol.Links(), file.chain) == old(Total(vol.Links(), file.chain))
    ensures c == 0 ==> file.chain == old(file.chain) && vol.Free() == 0
    ensures c != 0 ==> file.chain == old(file.chain) + [c] && c < |vol.data|
  {
    ghost var links, data := vol.Links(), vol.data;
    c := vol.Alloc();
    if c == 0 {
      return;
    }
    if file.first < FIRST {
      ChainStarts(links, c);
      file.first := c;
    } else {
      ChainUsed(links, file.first, file.chain, |file.chain| - 1);
      SpareSame(vol.Links(), last, c);
      vol.WriteEntry(last, c);
      ChainGrows(links, file.first, file.chain, c, vol.Links());
    }
    ExtendsMore(links0, data0, chain0, links, data, file.chain, vol.cluster, c, vol.Links(), vol.data);
    file.chain := file.chain + [c];
  }

  lemma ExtendsNone(links: Links, data: seq<seq<Byte>>, chain: seq<nat>, cluster: nat)
    requires |links| == |data|
    ensures Extends(links, data, chain, links, data, chain, cluster)
  { }

  /** The file on its way to a longer chain. */
  ghost predicate Growing(vol: Volume, file: File, links0: Links, data0: seq<seq<Byte>>, chain0: seq<nat>,
                          tops0: seq<nat>)
    reads vol, file
  {
    && FileOk(vol, file) && vol.Tops() == tops0 && Total(vol.Links(), file.chain) == Total(links0, chain0)
    && Extends(links0, data0, chain0, vol.Links(), vol.data, file.chain, vol.cluster)
  }

  /** The first cluster, allocated if there is none. */
  method FirstCluster(vol: Volume, file: File, ghost links0: Links, ghost data0: seq<seq<Byte>>, ghost chain0: seq<nat>)
    returns (c: nat)
    requires Growing(vol, file, links0, data0, chain0, vol.Tops())
    modifies vol, file`first, file`chain
    ensures Growing(vol, file, links0, data0, chain0, old(vol.Tops())) && |file.chain| <= Max(|old(file.chain)|, 1)
    ensures c == 0 ==> vol.Free() == 0 && file.chain == []
    ensures c != 0 ==> 0 < |file.chain| && 0 < c == file.chain[0] < |vol.data|
  {
    if file.first < FIRST {
      c := Extend(vol, file, 0, links0, data0, chain0);
    } else {
      c := file.first;
      ChainUsed(vol.Links(), file.first, file.chain, 0);
    }
  }

  /** Cluster number `idx` of the file, the chain made longer as needed; 0 if the disk is full. */
  method NthCluster(vol: Volume, file: File, idx: nat) returns (cur: nat)
    requires FileOk(vol, file)
    modifies vol, file`first, file`chain
    ensures FileOk(vol, file) && vol.Tops() == old(vol.Tops())
    ensures Extends(old(vol.Links()), old(vol.data), old(file.chain), vol.Links(), vol.data, file.chain, vol.cluster)
    ensures Total(vol.Links(), file.chain) == old(Total(vol.Links(), file.chain))
    ensures cur == 0 ==> vol.Free() == 0 && |file.chain| <= idx
    ensures cur != 0 ==> idx < |file.chain| && cur == file.chain[idx] && cur < |vol.data|
    ensures |file.chain| <= Max(|old(file.chain)|, idx + 1)
  {
    ghost var links0, data0, chain0, tops0 := vol.Links(), vol.data, file.chain, vol.Tops();
    ExtendsNone(links0, data0, chain0, vol.cluster);
    cur := FirstCluster(vol, file, links0, data0, chain0);
    if cur == 0 { return; }
    for i := 0 to idx
      invariant Growing(vol, file, links0, data0, chain0, tops0)
      invariant i < |file.chain| <= Max(|chain0|, i + 1) && 0 < cur == file.chain[i] < |vol.data|
    {
      cur := Follow(vol, file, cur, i, links0, data0, chain0);
      if cur == 0 { return; }
    }
  }

  /** The link of cluster i leads to cluster i + 1, if there is one. */
  lemma NextOn(links: Links, first: nat, chain: seq<nat>, i: nat)
    requires ChainOk(links, first, chain) && i < |chain|
    ensures Leads(links[chain[i]]) <==> i + 1 < |chain|
    ensures i + 1 < |chain| ==> links[chain[i]] == chain[i + 1] < |links|
  {
    ChainUsed(links, first, chain, i);
    if i + 1 < |chain| {
      ChainUsed(links, first, chain, i + 1);
    }
  }

  /** The cluster behind number i, allocated if there is none. */
  method Follow(vol: Volume, file: File, cur: nat, ghost i: nat, ghost links0: Links, ghost data0: seq<seq<Byte>>,
                ghost chain0: seq<nat>)
    returns (next: nat)
    requires Growing(vol, file, links0, data0, chain0, vol.Tops()) && i < |file.chain| && cur == file.chain[i]
    modifies vol, file`first, file`chain
    ensures Growing(vol, file, links0, data0, chain0, old(vol.Tops()))
    ensures |old(file.chain)| <= |file.chain| <= Max(|old(file.chain)|, i + 2)
    ensures next == 0 ==> vol.Free() == 0 && |file.chain| == i + 1
    ensures next != 0 ==> i + 1 < |file.chain| && next == file.chain[i + 1] < |vol.data|
  {
    NextOn(vol.Links(), file.first, file.chain, i);
    next := vol.ReadEntry(cur);
    if !Leads(next) {
      next := Extend(vol, file, cur, links0, data0, chain0);
    }
  }


  // ----- bytes -------------------------------------------------------------------------------------------------

  /** Byte j of cluster k of the chain; 0 behind its end. */
  ghost function ByteIn(data: seq<seq<Byte>>, chain: seq<nat>, k: nat, j: nat): Byte {
    if k < |chain| && chain[k] < |data| && j < |data[chain[k]]| then data[chain[k]][j] else 0
  }

  ghost function ByteAt(data: seq<seq<Byte>>, chain: seq<nat>, size: nat, i: nat): Byte
    requires size > 0
  { ByteIn(data, chain, Div(i, size), Mod(i, size)) }

  /** New clusters read as zeros, so a longer chain shows the same. */
  lemma ExtendsBytes(links0: Links, data0: seq<seq<Byte>>, chain0: seq<nat>, links: Links, data: seq<seq<Byte>>,
                     chain: seq<nat>,
                     cluster: nat, k: nat, j: nat)
    requires Extends(links0, data0, chain0, links, data, chain, cluster)
    ensures ByteIn(data, chain, k, j) == ByteIn(data0, chain0, k, j)
  {
    if k < |chain0| {
      assert chain[k] == chain[..|chain0|][k] == chain0[k];
      assert chain0[k] in chain0;
    }
  }

  /** Storing a cluster changes the bytes of that cluster. */
  lemma StoreBytes(data: seq<seq<Byte>>, chain: seq<nat>, m: nat, buf: seq<Byte>, k: nat, j: nat)
    requires Distinct(chain) && m < |chain| && chain[m] < |data|
    ensures ByteIn(data[chain[m] := buf], chain, k, j) ==
            if k != m then ByteIn(data, chain, k, j) else if j < |buf| then buf[j] else 0
  {
    if k < |chain| && k != m {
      assert chain[k] != chain[m];
    }
  }

  /** The bytes are the old ones overlaid with the first `w` bytes of `src`. */
  ghost predicate Overlaid(data0: seq<seq<Byte>>, chain0: seq<nat>, data: seq<seq<Byte>>, chain: seq<nat>, size: nat,
                           pos: nat, src: seq<Byte>, w: nat)
    requires size > 0 && w <= |src|
  {
    forall i: nat :: ByteAt(data, chain, size, i) == if pos <= i < pos + w then src[i - pos]
      else ByteAt(data0, chain0, size, i)
  }

  /** Positions in one cluster differ as their offsets do. */
  lemma SameCluster(i: nat, p: nat, size: nat)
    requires size > 0 && Div(i, size) == Div(p, size)
    ensures i - p == Mod(i, size) - Mod(p, size)
  {
    DivMod(i, size);
    DivMod(p, size);
  }

  /** What the cluster at hand becomes: the chunk over what it held. */
  ghost predicate Patched(buf: seq<Byte>, held: seq<Byte>, src: seq<Byte>, w: nat, off: nat, n: nat) {
    && |buf| == |held| && off + n <= |held| && w + n <= |src|
    && forall j: nat :: j < |buf| ==> buf[j] == if off <= j < off + n then src[w + (j - off)] else held[j]
  }

  lemma ChunkOverlays(data0: seq<seq<Byte>>, chain0: seq<nat>, data: seq<seq<Byte>>, chain: seq<nat>, size: nat,
                      pos: nat, src: seq<Byte>, w: nat, n: nat, buf: seq<Byte>)
    requires size > 0 && w + n <= |src| && Overlaid(data0, chain0, data, chain, size, pos, src, w) && Distinct(chain)
    requires var m := Div(pos + w, size); m < |chain| && chain[m] < |data| && |data[chain[m]]| == size
    requires Patched(buf, data[chain[Div(pos + w, size)]], src, w, Mod(pos + w, size), n)
    ensures Overlaid(data0, chain0, data[chain[Div(pos + w, size)] := buf], chain, size, pos, src, w + n)
  {
    var p, m := pos + w, Div(pos + w, size);
    var data' := data[chain[m] := buf];
    forall i: nat
      ensures ByteAt(data', chain, size, i) == if pos <= i < pos + (w + n) then src[i - pos]
              else ByteAt(data0, chain0, size, i)
    {
      StoreBytes(data, chain, m, buf, Div(i, size), Mod(i, size));
      assert ByteAt(data, chain, size, i) == if pos <= i < pos + w then src[i - pos]
             else ByteAt(data0, chain0, size, i);
      if Div(i, size) == m {
        SameCluster(i, p, size);
      } else {
        Elsewhere(i, p, n, size);
      }
    }
  }

  /** The chunk lies in one cluster. */
  lemma Elsewhere(i: nat, p: nat, n: nat, size: nat)
    requires size > 0 && Mod(p, size) + n <= size && Div(i, size) != Div(p, size)
    ensures !(p <= i < p + n)
  {
    if p <= i < p + n {
      DivMod(p, size);
      DivUnique(i, Div(p, size), Mod(p, size) + (i - p), size);
    }
  }

  // ----- writing -------------------------------------------------------------------------------------------------

  /** Clusters outside the file are as they were, and those it gained were free. */
  ghost predicate Beside(links0: Links, data0: seq<seq<Byte>>, chain0: seq<nat>, links: Links, data: seq<seq<Byte>>,
                         chain: seq<nat>) {
    && |links| == |links0| == |data| == |data0| && |chain0| <= |chain| && chain[..|chain0|] == chain0
    && (forall i: nat :: |chain0| <= i < |chain| ==> chain[i] < |links0| && links0[chain[i]] == FREE)
    && (forall x: nat :: x < |links| && x !in chain ==> links[x] == links0[x] && data[x] == data0[x])
  }

  lemma BesideExtends(links0: Links, data0: seq<seq<Byte>>, chain0: seq<nat>, links1: Links, data1: seq<seq<Byte>>,
                      chain1: seq<nat>,
                      links: Links, data: seq<seq<Byte>>, chain: seq<nat>, cluster: nat)
    requires Beside(links0, data0, chain0, links1, data1, chain1)
             && Extends(links1, data1, chain1, links, data, chain, cluster)
    requires Begun(links1, chain1)
    ensures Beside(links0, data0, chain0, links, data, chain)
  {
    assert forall x: nat :: x in chain1 ==> x in chain by {
      forall x: nat | x in chain1 ensures x in chain {
        var i :| 0 <= i < |chain1| && chain1[i] == x;
        assert chain[i] == chain[..|chain1|][i];
      }
    }
    assert chain[..|chain0|] == chain[..|chain1|][..|chain0|];
    forall i: nat | |chain0| <= i < |chain| ensures links0[chain[i]] == FREE {
      if i < |chain1| {
        assert chain[i] == chain[..|chain1|][i] == chain1[i];
      } else {
        assert chain[i] !in chain1 by {
          NewIsNew(links1, data1, chain1, links, data, chain, cluster, i);
        }
      }
    }
  }

  /** A cluster gained was free, so it was on no chain of clusters in use. */
  lemma NewIsNew(links1: Links, data1: seq<seq<Byte>>, chain1: seq<nat>, links: Links, data: seq<seq<Byte>>,
                 chain: seq<nat>,
                 cluster: nat, i: nat)
    requires Extends(links1, data1, chain1, links, data, chain, cluster) && Begun(links1, chain1)
             && |chain1| <= i < |chain|
    ensures chain[i] !in chain1
  { }

  /** Fetch, patch and store one chunk. */
  method StoreChunk(vol: Volume, file: File, cur: nat, ghost m: nat, src: seq<Byte>, w: nat, off: nat, n: nat)
    returns (ghost buf: seq<Byte>)
    requires FileOk(vol, file) && m < |file.chain| && cur == file.chain[m] < |vol.data|
    requires off + n <= vol.cluster && w + n <= |src|
    modifies vol`data
    ensures FileOk(vol, file) && vol.data == old(vol.data)[cur := buf]
    ensures Patched(buf, old(vol.data)[cur], src, w, off, n)
  {
    var held := if off != 0 || n != vol.cluster then vol.data[cur] else Zeros(vol.cluster);
    var b := held[..off] + src[w..w + n] + held[off + n..];
    vol.data := vol.data[cur := b];
    buf := b;
  }

  /** A write that has laid `w` bytes of `src` over the file. */
  ghost predicate Writing(vol: Volume, file: File, links0: Links, data0: seq<seq<Byte>>, chain0: seq<nat>,
                          tops0: seq<nat>,
                          pos: nat, src: seq<Byte>, w: nat)
    reads vol, file
  {
    && FileOk(vol, file) && vol.Tops() == tops0 && Total(vol.Links(), file.chain) == Total(links0, chain0)
    && Beside(links0, data0, chain0, vol.Links(), vol.data, file.chain)
    && w <= |src| && Overlaid(data0, chain0, vol.data, file.chain, vol.cluster, pos, src, w)
    && (w > 0 ==> Div(pos + w - 1, vol.cluster) < |file.chain|)
  }

  lemma StoreBeside(links0: Links, data0: seq<seq<Byte>>, chain0: seq<nat>, links: Links, data: seq<seq<Byte>>,
                    chain: seq<nat>,
                    m: nat, buf: seq<Byte>)
    requires Beside(links0, data0, chain0, links, data, chain) && m < |chain| && chain[m] < |data|
    ensures Beside(links0, data0, chain0, links, data[chain[m] := buf], chain)
  {
    assert chain[m] in chain;
  }

  lemma ExtendsOverlaid(data0: seq<seq<Byte>>, chain0: seq<nat>, links1: Links, data1: seq<seq<Byte>>, chain1: seq<nat>,
                        links: Links, data: seq<seq<Byte>>, chain: seq<nat>, size: nat, pos: nat, src: seq<Byte>,
                          w: nat)
    requires size > 0 && w <= |src| && Overlaid(data0, chain0, data1, chain1, size, pos, src, w)
    requires Extends(links1, data1, chain1, links, data, chain, size)
    ensures Overlaid(data0, chain0, data, chain, size, pos, src, w)
  {
    forall i: nat ensures ByteAt(data, chain, size, i) == ByteAt(data1, chain1, size, i) {
      ExtendsBytes(links1, data1, chain1, links, data, chain, size, Div(i, size), Mod(i, size));
    }
  }

  /** The next cluster of the write, and what a longer chain leaves as it was. */
  method Reach(vol: Volume, file: File, pos: nat, src: seq<Byte>, w: nat,
               ghost links0: Links, ghost data0: seq<seq<Byte>>, ghost chain0: seq<nat>, ghost tops0: seq<nat>)
                 returns (cur: nat)
    requires Writing(vol, file, links0, data0, chain0, tops0, pos, src, w) && w < |src|
    modifies vol, file`first, file`chain
    ensures Writing(vol, file, links0, data0, chain0, tops0, pos, src, w) && |old(file.chain)| <= |file.chain|
    ensures |file.chain| <= Max(|old(file.chain)|, Div(pos + w, vol.cluster) + 1)
    ensures cur == 0 ==> vol.Free() == 0 && |file.chain| <= Div(pos + w, vol.cluster)
    ensures cur != 0 ==> var m := Div(pos + w, vol.cluster); m < |file.chain| && cur == file.chain[m] < |vol.data|
  {
    ghost var links1, data1, chain1 := vol.Links(), vol.data, file.chain;
    cur := NthCluster(vol, file, Div(pos + w, vol.cluster));
    BesideExtends(links0, data0, chain0, links1, data1, chain1, vol.Links(), vol.data, file.chain, vol.cluster);
    ExtendsOverlaid(data0, chain0, links1, data1, chain1, vol.Links(), vol.data, file.chain, vol.cluster, pos, src, w);
  }

  /** Lay the next `n` bytes of `src` over cluster `m` of the file. */
  method PutChunk(vol: Volume, file: File, cur: nat, ghost m: nat, pos: nat, src: seq<Byte>, w: nat, off: nat, n: nat,
                  ghost links0: Links, ghost data0: seq<seq<Byte>>, ghost chain0: seq<nat>, ghost tops0: seq<nat>)
    requires Writing(vol, file, links0, data0, chain0, tops0, pos, src, w) && 0 < n && w + n <= |src|
    requires m == Div(pos + w, vol.cluster) < |file.chain| && cur == file.chain[m] < |vol.data|
    requires off == Mod(pos + w, vol.cluster) && off + n <= vol.cluster
    modifies vol`data
    ensures Writing(vol, file, links0, data0, chain0, tops0, pos, src, w + n)
  {
    ghost var data1 := vol.data;
    ChainDistinct(vol.Links(), file.first, file.chain);
    ghost var buf := StoreChunk(vol, file, cur, m, src, w, off, n);
    ChunkOverlays(data0, chain0, data1, file.chain, vol.cluster, pos, src, w, n, buf);
    StoreBeside(links0, data0, chain0, vol.Links(), data1, file.chain, m, buf);
    LastInCluster(pos + w, n, vol.cluster);
  }

  /** One chunk, up to the end of its cluster; 0 if the disk is full. */
  method WriteChunk(vol: Volume, file: File, pos: nat, src: seq<Byte>, w: nat,
                    ghost links0: Links, ghost data0: seq<seq<Byte>>, ghost chain0: seq<nat>, ghost tops0: seq<nat>)
    returns (n: nat)
    requires Writing(vol, file, links0, data0, chain0, tops0, pos, src, w) && w < |src|
    modifies vol, file`first, file`chain
    ensures w + n <= |src| && Writing(vol, file, links0, data0, chain0, tops0, pos, src, w + n)
    ensures n == 0 ==> vol.Free() == 0 && |file.chain| <= Div(pos + w, vol.cluster)
    ensures n > 0 ==> |file.chain| <= Max(|old(file.chain)|, Div(pos + w, vol.cluster) + 1)
    ensures |old(file.chain)| <= |file.chain|
  {
    var off := Mod(pos + w, vol.cluster);
    var cur := Reach(vol, file, pos, src, w, links0, data0, chain0, tops0);
    if cur == 0 {
      return 0;
    }
    n := if vol.cluster - off > |src| - w then |src| - w else vol.cluster - off;
    PutChunk(vol, file, cur, Div(pos + w, vol.cluster), pos, src, w, off, n, links0, data0, chain0, tops0);
  }

  lemma LastInCluster(p: nat, n: nat, size: nat)
    requires size > 0 && 0 < n && Mod(p, size) + n <= size
    ensures Div(p + n - 1, size) == Div(p, size)
  {
    DivMod(p, size);
    DivUnique(p + n - 1, Div(p, size), Mod(p, size) + n - 1, size);
  }

  /** The chain reaches to the end of the file. */
  ghost predicate Covered(size: nat, chain: seq<nat>, cluster: nat)
    requires cluster > 0
  { Reaches(|chain|, size, cluster) }

  /** How many of `n` bytes at `pos` fit into `total` clusters. */
  function Fitting(pos: nat, n: nat, total: nat, cluster: nat): (w: nat)
    requires cluster > 0
    ensures w <= n
  {
    if Div(pos, cluster) >= total then 0
    else
      RoomLeft(pos, total, cluster);
      if n < total * cluster - pos then n else total * cluster - pos
  }

  lemma RoomLeft(pos: nat, total: nat, cluster: nat)
    requires cluster > 0
    ensures Div(pos, cluster) < total <==> pos < total * cluster
  {
    DivMod(pos, cluster);
    if Div(pos, cluster) < total {
      GroupStep(Div(pos, cluster), total, cluster);
    } else if total < Div(pos, cluster) {
      GroupStep(total, Div(pos, cluster), cluster);
    }
  }

  /** The one number of bytes that fit: the last of them does, and there is no more room or no more to write. */
  lemma FittingIs(pos: nat, n: nat, total: nat, cluster: nat, w: nat)
    requires cluster > 0 && w <= n && (w > 0 ==> Div(pos + w - 1, cluster) < total)
    requires w == n || total <= Div(pos + w, cluster)
    ensures w == Fitting(pos, n, total, cluster)
  {
    RoomLeft(pos, total, cluster);
    RoomLeft(pos + w, total, cluster);
    if w > 0 {
      RoomLeft(pos + w - 1, total, cluster);
    }
  }

  /** The clusters of a file after a write of `n` bytes at `pos`. */
  function ClustersAfter(clusters: nat, spare: nat, pos: nat, n: nat, cluster: nat): nat
    requires cluster > 0
  {
    if n == 0 then clusters
    else if Fitting(pos, n, clusters + spare, cluster) < n then clusters + spare
    else Max(clusters, Div(pos + n - 1, cluster) + 1)
  }

  /** Where a write of `n` bytes stopped, after `w` of them, with `c` clusters of `c0` and those free, `total`. */
  ghost predicate Stopped(c0: nat, c: nat, total: nat, pos: nat, n: nat, w: nat, cluster: nat)
    requires cluster > 0
  {
    && c0 <= c <= total && w <= n && 0 < n && (w > 0 ==> Div(pos + w - 1, cluster) < c)
    && (if w < n then c == total <= Div(pos + w, cluster) else c == Max(c0, Div(pos + n - 1, cluster) + 1))
  }

  /** The size after a write of which `w` bytes fitted. */
  function SizeAfter(size: nat, pos: nat, n: nat, w: nat): nat { if n > 0 && pos + w > size then pos + w else size }

  /** A write of `n` bytes at `pos` to a file of `size` bytes and `c0` clusters, with `spare` clusters free, took `w`
      bytes and left `c` clusters. Where the file was covered by its clusters it is again if and only if they and the
      free ones reach to the position. */
  ghost predicate Outcome(size: nat, c0: nat, spare: nat, pos: nat, n: nat, w: nat, c: nat, cluster: nat)
    requires cluster > 0
  {
    && w == Fitting(pos, n, c0 + spare, cluster) && c == ClustersAfter(c0, spare, pos, n, cluster)
    && (n > 0 && Reaches(c0, size, cluster) ==>
          (Reaches(c, SizeAfter(size, pos, n, w), cluster) <==> pos <= size || Div(pos - 1, cluster) < c0 + spare))
  }

  /** `c` clusters hold `size` bytes. */
  predicate Reaches(c: nat, size: nat, cluster: nat)
    requires cluster > 0
  { size > 0 ==> Div(size - 1, cluster) < c }

  /** The outcome of a write is decided by where it starts from. */
  lemma WriteOutcome(size: nat, c0: nat, spare: nat, pos: nat, n: nat, cluster: nat)
    requires cluster > 0
    ensures Outcome(size, c0, spare, pos, n, Fitting(pos, n, c0 + spare, cluster),
                    ClustersAfter(c0, spare, pos, n, cluster), cluster)
    ensures c0 <= ClustersAfter(c0, spare, pos, n, cluster) <= c0 + spare
  {
    if n > 0 {
      var w, c := Fitting(pos, n, c0 + spare, cluster), ClustersAfter(c0, spare, pos, n, cluster);
      RoomLeft(pos, c0 + spare, cluster);
      RoomLeft(pos + w, c0 + spare, cluster);
      if w > 0 {
        RoomLeft(pos + w - 1, c0 + spare, cluster);
      }
      StoppedAt(size, c0, spare, pos, n, w, c, cluster);
    }
  }

  lemma NothingWritten(size: nat, c: nat, spare: nat, pos: nat, cluster: nat)
    requires cluster > 0
    ensures Outcome(size, c, spare, pos, 0, 0, c, cluster)
  { }

  lemma StoppedAt(size: nat, c0: nat, spare: nat, pos: nat, n: nat, w: nat, c: nat, cluster: nat)
    requires cluster > 0 && Stopped(c0, c, c0 + spare, pos, n, w, cluster)
    ensures Outcome(size, c0, spare, pos, n, w, c, cluster)
  {
    FittingIs(pos, n, c0 + spare, cluster, w);
    if w > 0 && pos > 0 {
      Monotone(pos - 1, pos + w - 1, cluster);
    }
  }

  /** The chain is no longer than it was or `w` bytes need. */
  ghost predicate Bounded(c: nat, c0: nat, pos: nat, w: nat, cluster: nat)
    requires cluster > 0
  { c <= c0 || (w > 0 && c <= Div(pos + w - 1, cluster) + 1) }

  lemma BoundedMore(c: nat, c': nat, c0: nat, pos: nat, w: nat, n: nat, cluster: nat)
    requires cluster > 0 && n > 0 && Bounded(c, c0, pos, w, cluster) && c' <= Max(c, Div(pos + w, cluster) + 1)
    ensures Bounded(c', c0, pos, w + n, cluster)
  {
    Monotone(pos + w, pos + (w + n) - 1, cluster);
    if w > 0 {
      Monotone(pos + w - 1, pos + (w + n) - 1, cluster);
    }
  }

  /** The next chunk of a write; 0 if it stops here. */
  method WriteNext(vol: Volume, file: File, pos: nat, src: seq<Byte>, w: nat,
                   ghost links0: Links, ghost data0: seq<seq<Byte>>, ghost chain0: seq<nat>, ghost tops0: seq<nat>)
    returns (n: nat)
    requires Writing(vol, file, links0, data0, chain0, tops0, pos, src, w) && w < |src|
    requires |chain0| <= |file.chain| && Bounded(|file.chain|, |chain0|, pos, w, vol.cluster)
    modifies vol, file`first, file`chain
    ensures w + n <= |src| && Writing(vol, file, links0, data0, chain0, tops0, pos, src, w + n)
    ensures n > 0 ==> |chain0| <= |file.chain| && Bounded(|file.chain|, |chain0|, pos, w + n, vol.cluster)
    ensures n == 0 ==> Stopped(|chain0|, |file.chain|, Total(links0, chain0), pos, |src|, w, vol.cluster)
  {
    ghost var c := |file.chain|;
    n := WriteChunk(vol, file, pos, src, w, links0, data0, chain0, tops0);
    if n > 0 {
      BoundedMore(c, |file.chain|, |chain0|, pos, w, n, vol.cluster);
    } else {
      assert |file.chain| == Total(links0, chain0);
    }
  }

  /** Chunk after chunk, until all is written or there is no cluster. */
  method WriteChunks(vol: Volume, file: File, pos: nat, src: seq<Byte>,
                     ghost links0: Links, ghost data0: seq<seq<Byte>>, ghost chain0: seq<nat>, ghost tops0: seq<nat>)
    returns (done: nat)
    requires Writing(vol, file, links0, data0, chain0, tops0, pos, src, 0) && src != [] && |file.chain| == |chain0|
    modifies vol, file`first, file`chain
    ensures Writing(vol, file, links0, data0, chain0, tops0, pos, src, done)
    ensures Stopped(|chain0|, |file.chain|, Total(links0, chain0), pos, |src|, done, vol.cluster)
  {
    done := 0;
    while done < |src|
      invariant done <= |src| && Writing(vol, file, links0, data0, chain0, tops0, pos, src, done)
      invariant |chain0| <= |file.chain| && Bounded(|file.chain|, |chain0|, pos, done, vol.cluster)
      decreases |src| - done
    {
      var n := WriteNext(vol, file, pos, src, done, links0, data0, chain0, tops0);
      if n == 0 {
        return;
      }
      done := done + n;
    }
    assert |file.chain| <= Total(links0, chain0);
  }

  lemma WriteStarts(vol: Volume, file: File, pos: nat, src: seq<Byte>)
    requires FileOk(vol, file)
    ensures Writing(vol, file, vol.Links(), vol.data, file.chain, vol.Tops(), pos, src, 0)
  { }

  /** Write `src` at `pos`: as much of it as fits into the file's clusters and the free ones is laid over the file;
      clusters outside the file stay as they were. The size is raised to where the write stopped, so that after a
      write past the end the chain covers it if and only if the file and the free clusters reach to the position. */
  method FileWrite(vol: Volume, file: File, pos: nat, src: seq<Byte>) returns (rc: int, ghost w: nat)
    requires FileOk(vol, file)
    modifies vol, file
    ensures FileOk(vol, file) && vol.Tops() == old(vol.Tops())
    ensures Outcome(old(file.size), |old(file.chain)|, old(vol.Free()), pos, |src|, w, |file.chain|, vol.cluster)
    ensures |file.chain| + vol.Free() == old(|file.chain| + vol.Free())
    ensures file.size == SizeAfter(old(file.size), pos, |src|, w)
    ensures rc == if |src| == 0 then 0 else if w > 0 then w else -1
    ensures Overlaid(old(vol.data), old(file.chain), vol.data, file.chain, vol.cluster, pos, src, w)
    ensures Beside(old(vol.Links()), old(vol.data), old(file.chain), vol.Links(), vol.data, file.chain)
  {
    ghost var links0, data0, chain0, tops0 := vol.Links(), vol.data, file.chain, vol.Tops();
    if |src| == 0 {
      NothingWritten(file.size, |chain0|, vol.Free(), pos, vol.cluster);
      return 0, 0;
    }
    WriteStarts(vol, file, pos, src);
    var done := WriteChunks(vol, file, pos, src, links0, data0, chain0, tops0);
    w := done;
    StoppedAt(file.size, |chain0|, old(vol.Free()), pos, |src|, w, |file.chain|, vol.cluster);
    if pos + done > file.size {
      file.size := pos + done;
    }
    rc := if done > 0 then done else -1;
  }

  // ----- reading -------------------------------------------------------------------------------------------------

  /** Cluster number `idx`, or 0 if the chain is shorter. */
  method SkipTo(vol: Volume, file: File, idx: nat) returns (cur: nat)
    requires FileOk(vol, file)
    ensures cur == if idx < |file.chain| then file.chain[idx] else 0
    ensures idx < |file.chain| ==> Leads(cur) && cur < |vol.data|
  {
    cur := file.first;
    if !Leads(cur) {
      return 0;
    }
    ChainUsed(vol.Links(), file.first, file.chain, 0);
    for i := 0 to idx
      invariant i < |file.chain| && cur == file.chain[i] < |vol.data| && Leads(cur)
    {
      NextOn(vol.Links(), file.first, file.chain, i);
      cur := vol.ReadEntry(cur);
      if !Leads(cur) {
        return 0;
      }
    }
  }

  /** The bytes read so far are those from `pos` on. */
  ghost predicate ReadSoFar(data: seq<seq<Byte>>, chain: seq<nat>, size: nat, pos: nat, r: seq<Byte>)
    requires size > 0
  { forall k: nat :: k < |r| ==> r[k] == ByteAt(data, chain, size, pos + k) }

  lemma ReadMore(data: seq<seq<Byte>>, chain: seq<nat>, size: nat, pos: nat, r: seq<Byte>, m: nat, off: nat, n: nat)
    requires size > 0 && ReadSoFar(data, chain, size, pos, r) && m == Div(pos + |r|, size)
             && off == Mod(pos + |r|, size)
    requires m < |chain| && chain[m] < |data| && |data[chain[m]]| == size && off + n <= size
    ensures ReadSoFar(data, chain, size, pos, r + data[chain[m]][off..off + n])
  {
    var r' := r + data[chain[m]][off..off + n];
    forall k: nat | k < |r'| ensures r'[k] == ByteAt(data, chain, size, pos + k) {
      if k >= |r| {
        DivMod(pos + |r|, size);
        DivUnique(pos + k, m, off + (k - |r|), size);
      }
    }
  }

  /** How many of `count` bytes at `pos` the size allows. */
  function Want(size: nat, pos: nat, count: nat): nat {
    if pos >= size then 0 else if pos + count > size then size - pos else count
  }

  /** Read up to `count` bytes at `pos`: as many as the size allows and the chain holds. */
  method FileRead(vol: Volume, file: File, pos: nat, count: nat) returns (r: seq<Byte>)
    requires FileOk(vol, file)
    ensures ReadSoFar(vol.data, file.chain, vol.cluster, pos, r)
    ensures |r| == Fitting(pos, Want(file.size, pos, count), |file.chain|, vol.cluster)
  {
    r := [];
    if pos >= file.size {
      return;
    }
    var want := Want(file.size, pos, count);
    var size, m: nat := vol.cluster, Div(pos, vol.cluster);
    var cur: nat := SkipTo(vol, file, m);
    var off: nat := Mod(pos, size);
    while |r| < want && Leads(cur)
      invariant |r| <= want && ReadSoFar(vol.data, file.chain, size, pos, r)
      invariant |r| < want ==> m == Div(pos + |r|, size) && off == Mod(pos + |r|, size)
      invariant |r| < want ==> (Leads(cur) <==> m < |file.chain|)
      invariant |r| < want && Leads(cur) ==> cur == file.chain[m] < |vol.data|
      invariant |r| > 0 ==> Div(pos + |r| - 1, size) < |file.chain|
      decreases want - |r|
    {
      var n := if want - |r| > size - off then size - off else want - |r|;
      ReadMore(vol.data, file.chain, size, pos, r, m, off, n);
      NextOn(vol.Links(), file.first, file.chain, m);
      LastInCluster(pos + |r|, n, size);
      r := r + vol.data[cur][off..off + n];
      cur := vol.ReadEntry(cur);
      if |r| < want {
        NextCluster(pos + |r| - n, n, size);
      }
      m, off := m + 1, 0;
    }
    FittingIs(pos, want, |file.chain|, size, |r|);
  }

  /** If the chain covers the size, a read gets all the size allows. */
  lemma CoveredRead(size: nat, pos: nat, count: nat, clusters: nat, cluster: nat)
    requires cluster > 0 && Reaches(clusters, size, cluster)
    ensures Fitting(pos, Want(size, pos, count), clusters, cluster) == Want(size, pos, count)
  {
    var w := Want(size, pos, count);
    if w > 0 {
      Monotone(pos + w - 1, size - 1, cluster);
    }
    FittingIs(pos, w, clusters, cluster, w);
  }

  lemma NextCluster(p: nat, n: nat, size: nat)
    requires size > 0 && n == size - Mod(p, size)
    ensures Div(p + n, size) == Div(p, size) + 1 && Mod(p + n, size) == 0
  {
    DivMod(p, size);
    assert (Div(p, size) + 1) * size == Div(p, size) * size + size;
    DivUnique(p + n, Div(p, size) + 1, 0, size);
  }

  lemma Monotone(a: nat, b: nat, size: nat)
    requires size > 0 && a <= b
    ensures Div(a, size) <= Div(b, size)
  {
    DivMod(a, size);
    DivMod(b, size);
    if Div(b, size) < Div(a, size) {
      GroupStep(Div(b, size), Div(a, size), size);
    }
  }

  // ----- a write seen through a read, and another file -------------------------------------------------------

  /** Writing within or right behind the file and reading the whole of it gives the old bytes overlaid. */
  method WriteThenRead(vol: Volume, file: File, pos: nat, src: seq<Byte>) returns (r: seq<Byte>, ghost w: nat)
    requires FileOk(vol, file) && Covered(file.size, file.chain, vol.cluster) && pos <= file.size && src != []
    modifies vol, file
    ensures FileOk(vol, file) && Covered(file.size, file.chain, vol.cluster)
    ensures w == Fitting(pos, |src|, old(|file.chain| + vol.Free()), vol.cluster)
    ensures |r| == file.size == if pos + w > old(file.size) then pos + w else old(file.size)
    ensures forall i: nat :: i < |r| ==>
              r[i] == if pos <= i < pos + w then src[i - pos] else old(ByteAt(vol.data, file.chain, vol.cluster, i))
  {
    var rc;
    rc, w := FileWrite(vol, file, pos, src);
    r := FileRead(vol, file, 0, file.size);
    CoveredRead(file.size, 0, file.size, |file.chain|, vol.cluster);
    forall i: nat | i < |r|
      ensures r[i] == if pos <= i < pos + w then src[i - pos] else old(ByteAt(vol.data, file.chain, vol.cluster, i))
    {
      assert r[i] == ByteAt(vol.data, file.chain, vol.cluster, 0 + i);
    }
  }

  /** Two files of which no cluster is shared. */
  ghost predicate Disjoint(a: seq<nat>, b: seq<nat>) { forall x :: x in a ==> x !in b }

  lemma OtherKept(links0: Links, data0: seq<seq<Byte>>, chain0: seq<nat>, links: Links, data: seq<seq<Byte>>,
                  chain: seq<nat>,
                  first: nat, other: seq<nat>, size: nat)
    requires size > 0 && Beside(links0, data0, chain0, links, data, chain) && Disjoint(chain0, other)
             && ChainOk(links0, first, other)
    ensures ChainOk(links, first, other) && Disjoint(chain, other)
    ensures forall i: nat :: ByteAt(data, other, size, i) == ByteAt(data0, other, size, i)
  {
    forall x | x in chain ensures x !in other {
      var i: nat :| i < |chain| && chain[i] == x;
      if i < |chain0| {
        assert chain[..|chain0|][i] == chain0[i] == x;
      }
    }
    assert forall k: nat :: k < |other| ==> other[k] in other && other[k] !in chain;
    ChainFrame(links0, links, first, other);
  }

  /** Truncating to nothing frees the chain, exactly; to any other length it changes nothing. */
  method Truncate(vol: Volume, file: File, length: nat)
    requires FileOk(vol, file)
    modifies vol, file
    ensures FileOk(vol, file) && vol.Tops() == old(vol.Tops()) && vol.data == old(vol.data)
    ensures length == 0 ==>
              file.chain == [] && file.size == 0 && vol.Links() == Freed(old(vol.Links()), old(file.chain))
    ensures length != 0 ==>
              file.chain == old(file.chain) && file.size == old(file.size) && vol.Links() == old(vol.Links())
  {
    if length == 0 {
      vol.FreeChain(file.first, file.chain);
      file.first, file.size, file.chain := 0, 0, [];
    }
  }
}
