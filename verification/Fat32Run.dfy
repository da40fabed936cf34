/** Any sequence of requests on any number of files of a FAT volume: each file is a sequence of bytes. */
module Fat32Run {
  import opened RawBytes
  import opened Division
  import opened Folds
  import opened Fat32Table
  import opened Fat32File

  datatype Request = Write(i: nat, pos: nat, src: seq<Byte>) | Truncate(i: nat, length: nat)
                   | Read(i: nat, pos: nat, count: nat)

  /** The result code of a write or truncation, or the bytes read. */
  datatype Answer = Code(rc: int) | Got(bytes: seq<Byte>)

  // ----- the files as byte sequences -----------------------------------------------------------------------------

  /** A file: its bytes, and how many clusters it has. */
  datatype Text = Text(bytes: seq<Byte>, clusters: nat)

  /** A disk: the files, how many clusters are free, and how many bytes a cluster holds. */
  datatype Disk = Disk(texts: seq<Text>, spare: nat, cluster: nat)

  /** `w` bytes of `src` laid over `c` at `pos`, a gap before them filled with zeros. */
  function Poured(c: seq<Byte>, pos: nat, src: seq<Byte>, w: nat): (r: seq<Byte>)
    requires w <= |src|
    ensures |r| == SizeAfter(|c|, pos, |src|, w)
    ensures forall k: nat :: k < |r| ==>
              r[k] == if pos <= k < pos + w then src[k - pos] else if k < |c| then c[k] else 0
  {
    seq(SizeAfter(|c|, pos, |src|, w),
        k requires k >= 0 => if pos <= k < pos + w then src[k - pos] else if k < |c| then c[k] else 0)
  }

  /** How many bytes of a write the disk takes. */
  function Taken(d: Disk, req: Request): (w: nat)
    requires d.cluster > 0 && req.Write? && req.i < |d.texts|
    ensures w <= |req.src|
  { Fitting(req.pos, |req.src|, d.texts[req.i].clusters + d.spare, d.cluster) }

  /** The disk after a request. */
  function After(d: Disk, req: Request): Disk {
    if req.i >= |d.texts| || d.cluster == 0 then d
    else
      var t := d.texts[req.i];
      match req
      case Write(i, pos, src) =>
        var c := ClustersAfter(t.clusters, d.spare, pos, |src|, d.cluster);
        d.(texts := d.texts[i := Text(Poured(t.bytes, pos, src, Taken(d, req)), c)],
           spare := if c <= t.clusters + d.spare then t.clusters + d.spare - c else 0)
      case Truncate(i, length) =>
        if length == 0 then d.(texts := d.texts[i := Text([], 0)], spare := d.spare + t.clusters) else d
      case Read(_, _, _) => d
  }

  /** What a request is answered. */
  function Reply(d: Disk, req: Request): Answer {
    if req.i >= |d.texts| || d.cluster == 0 then Code(-1)
    else
      var t := d.texts[req.i];
      match req
      case Write(_, _, src) =>
        var w := Taken(d, req);
        Code(if src == [] then 0 else if w > 0 then w else -1)
      case Truncate(_, _) => Code(0)
      case Read(_, pos, count) =>
        var w := Fitting(pos, Want(|t.bytes|, pos, count), t.clusters, d.cluster);
        Got(if w == 0 then [] else t.bytes[pos..pos + w])
  }

  // ----- what the machine does -----------------------------------------------------------------------------------

  /** Every file's clusters reach to its end. */
  predicate AllReach(d: Disk) {
    d.cluster > 0 && forall i: nat :: i < |d.texts| ==> Reaches(d.texts[i].clusters, |d.texts[i].bytes|, d.cluster)
  }

  /** What a read of `count` bytes at `pos` should give. */
  function Slice(c: seq<Byte>, pos: nat, count: nat): seq<Byte> {
    if pos >= |c| then [] else if pos + count > |c| then c[pos..] else c[pos..pos + count]
  }

  /** A write behind the end of its file for which file and free clusters do not reach to the position. */
  predicate Beyond(d: Disk, req: Request)
    requires d.cluster > 0 && req.i < |d.texts|
  {
    && req.Write? && req.src != [] && req.pos > |d.texts[req.i].bytes|
    && Div(req.pos - 1, d.cluster) >= d.texts[req.i].clusters + d.spare
  }

  /** The clusters of all files reach to their ends again if and only if the request was no write beyond the disk. */
  lemma ReachIff(d: Disk, req: Request)
    requires AllReach(d) && req.i < |d.texts|
    ensures AllReach(After(d, req)) <==> !Beyond(d, req)
  {
    var t := d.texts[req.i];
    if req.Write? {
      var w, c := Taken(d, req), ClustersAfter(t.clusters, d.spare, req.pos, |req.src|, d.cluster);
      WriteOutcome(|t.bytes|, t.clusters, d.spare, req.pos, |req.src|, d.cluster);
      var d' := After(d, req);
      assert d'.texts[req.i] == Text(Poured(t.bytes, req.pos, req.src, w), c);
    }
  }

  /** Where clusters reach to the end, a read gives exactly the bytes asked for. */
  lemma ReadExact(d: Disk, req: Request)
    requires AllReach(d) && req.Read? && req.i < |d.texts|
    ensures Reply(d, req) == Got(Slice(d.texts[req.i].bytes, req.pos, req.count))
  {
    CoveredRead(|d.texts[req.i].bytes|, req.pos, req.count, d.texts[req.i].clusters, d.cluster);
  }

  /** A read after a write gives the old bytes overlaid with those written. */
  lemma WrittenRead(d: Disk, i: nat, pos: nat, src: seq<Byte>)
    requires AllReach(d) && i < |d.texts| && !Beyond(d, Write(i, pos, src))
    ensures var d' := After(d, Write(i, pos, src));
            Reply(d', Read(i, 0, |d'.texts[i].bytes|)) ==
            Got(Poured(d.texts[i].bytes, pos, src, Taken(d, Write(i, pos, src))))
  {
    var d' := After(d, Write(i, pos, src));
    ReachIff(d, Write(i, pos, src));
    ReadExact(d', Read(i, 0, |d'.texts[i].bytes|));
  }

  /** The clusters of all files. */
  ghost function Clusters(texts: seq<Text>): nat {
    if texts == [] then 0 else Clusters(texts[..|texts| - 1]) + texts[|texts| - 1].clusters
  }

  lemma {:induction false} ClustersSet(texts: seq<Text>, i: nat, t: Text)
    requires i < |texts|
    ensures Clusters(texts[i := t]) + texts[i].clusters == Clusters(texts) + t.clusters
  {
    var n := |texts| - 1;
    if i < n {
      assert texts[i := t][..n] == texts[..n][i := t];
      ClustersSet(texts[..n], i, t);
    } else {
      assert texts[i := t][..n] == texts[..n];
    }
  }

  /** No request makes or loses a cluster. */
  lemma ClustersConserved(d: Disk, req: Request)
    requires d.cluster > 0
    ensures Clusters(After(d, req).texts) + After(d, req).spare == Clusters(d.texts) + d.spare
  {
    if req.i < |d.texts| {
      var t := d.texts[req.i];
      if req.Write? {
        WriteOutcome(|t.bytes|, t.clusters, d.spare, req.pos, |req.src|, d.cluster);
      }
      ClustersSet(d.texts, req.i, After(d, req).texts[req.i]);
      assert req.Read? ==> d.texts[req.i := t] == d.texts;
    }
  }

  // ----- the files on the volume ---------------------------------------------------------------------------------

  ghost function Contents(data: seq<seq<Byte>>, chain: seq<nat>, cluster: nat, size: nat): (r: seq<Byte>)
    requires cluster > 0
    ensures |r| == size && forall k: nat :: k < size ==> r[k] == ByteAt(data, chain, cluster, k)
  { seq(size, k requires k >= 0 => ByteAt(data, chain, cluster, k)) }

  /** Behind its end a file holds zeros. */
  ghost predicate Clean(data: seq<seq<Byte>>, chain: seq<nat>, cluster: nat, size: nat)
    requires cluster > 0
  { forall k: nat :: k >= size ==> ByteAt(data, chain, cluster, k) == 0 }

  /** Every file has its chain, and no two share a cluster. */
  ghost predicate FilesOk(vol: Volume, files: seq<File>)
    reads vol, files
  {
    && vol.Valid()
    && (forall i: nat :: i < |files| ==>
          FileOk(vol, files[i]) && Clean(vol.data, files[i].chain, vol.cluster, files[i].size))
    && (forall i: nat, j: nat :: i < j < |files| ==> files[i] != files[j])
    && (forall i: nat, j: nat :: i < |files| && j < |files| && i != j ==> Disjoint(files[i].chain, files[j].chain))
  }

  ghost function TextOf(vol: Volume, file: File): Text
    reads vol, file
    requires vol.cluster > 0
  { Text(Contents(vol.data, file.chain, vol.cluster, file.size), |file.chain|) }

  ghost function Texts(vol: Volume, files: seq<File>): (r: seq<Text>)
    reads vol, files
    requires vol.cluster > 0
    ensures |r| == |files| && forall i: nat :: i < |r| ==> r[i] == TextOf(vol, files[i])
  { seq(|files|, i requires 0 <= i < |files| reads vol, files => TextOf(vol, files[i])) }

  ghost function View(vol: Volume, files: seq<File>): Disk
    reads vol, files
    requires vol.cluster > 0
  { Disk(Texts(vol, files), vol.Free(), vol.cluster) }

  lemma WriteContents(data0: seq<seq<Byte>>, chain0: seq<nat>, size0: nat, data: seq<seq<Byte>>, chain: seq<nat>,
                      size: nat, cluster: nat, pos: nat, src: seq<Byte>, w: nat)
    requires cluster > 0 && w <= |src| && Clean(data0, chain0, cluster, size0)
    requires Overlaid(data0, chain0, data, chain, cluster, pos, src, w)
    requires size == SizeAfter(size0, pos, |src|, w)
    ensures Clean(data, chain, cluster, size)
    ensures Contents(data, chain, cluster, size) == Poured(Contents(data0, chain0, cluster, size0), pos, src, w)
  { }

  method DoWrite(vol: Volume, files: seq<File>, i: nat, pos: nat, src: seq<Byte>) returns (rc: int)
    requires FilesOk(vol, files) && i < |files|
    modifies vol, files[i]
    ensures FilesOk(vol, files) && View(vol, files) == After(old(View(vol, files)), Write(i, pos, src))
    ensures Code(rc) == Reply(old(View(vol, files)), Write(i, pos, src))
  {
    ghost var w := 0;
    rc, w := Pour(vol, files, i, pos, src);
  }

  method Pour(vol: Volume, files: seq<File>, i: nat, pos: nat, src: seq<Byte>) returns (rc: int, ghost w: nat)
    requires FilesOk(vol, files) && i < |files|
    modifies vol, files[i]
    ensures FilesOk(vol, files) && rc == if |src| == 0 then 0 else if w > 0 then w else -1
    ensures w == Fitting(pos, |src|, old(|files[i].chain| + vol.Free()), vol.cluster)
    ensures |files[i].chain| + vol.Free() == old(|files[i].chain| + vol.Free())
    ensures |files[i].chain| == ClustersAfter(|old(files[i].chain)|, old(vol.Free()), pos, |src|, vol.cluster)
    ensures Texts(vol, files) ==
            old(Texts(vol, files))[i := Text(Poured(old(TextOf(vol, files[i])).bytes, pos, src, w), |files[i].chain|)]
  {
    ghost var links0, data0, chain0, size0 := vol.Links(), vol.data, files[i].chain, files[i].size;
    rc, w := FileWrite(vol, files[i], pos, src);
    WriteContents(data0, chain0, size0, vol.data, files[i].chain, files[i].size, vol.cluster, pos, src, w);
    OthersKept(vol, files, i, links0, data0, chain0);
  }

  /** The files beside the one written are as they were. */
  lemma OthersKept(vol: Volume, files: seq<File>, i: nat, links0: Links, data0: seq<seq<Byte>>, chain0: seq<nat>)
    requires vol.Valid() && i < |files|
    requires Beside(links0, data0, chain0, vol.Links(), vol.data, files[i].chain)
    requires forall j: nat :: j < |files| && j != i ==>
               ChainOk(links0, files[j].first, files[j].chain) && Disjoint(chain0, files[j].chain)
               && Clean(data0, files[j].chain, vol.cluster, files[j].size)
    ensures forall j: nat :: j < |files| && j != i ==>
              && FileOk(vol, files[j]) && Disjoint(files[i].chain, files[j].chain)
              && Disjoint(files[j].chain, files[i].chain)
              && Clean(vol.data, files[j].chain, vol.cluster, files[j].size)
              && TextOf(vol, files[j]).bytes == Contents(data0, files[j].chain, vol.cluster, files[j].size)
  {
    forall j: nat | j < |files| && j != i
      ensures FileOk(vol, files[j]) && Disjoint(files[i].chain, files[j].chain)
              && Disjoint(files[j].chain, files[i].chain)
      ensures forall k: nat ::
                ByteAt(vol.data, files[j].chain, vol.cluster, k) == ByteAt(data0, files[j].chain, vol.cluster, k)
    {
      OtherKept(links0, data0, chain0, vol.Links(), vol.data, files[i].chain, files[j].first, files[j].chain,
                vol.cluster);
    }
  }

  /** Freeing one chain leaves one apart from it. */
  lemma FreedBeside(links: Links, chain: seq<nat>, first: nat, other: seq<nat>)
    requires ChainOk(links, first, other) && Disjoint(chain, other)
    ensures ChainOk(Freed(links, chain), first, other)
  {
    forall k: nat | k < |other| ensures Freed(links, chain)[other[k]] == links[other[k]] {
      assert other[k] in other;
    }
    ChainFrame(links, Freed(links, chain), first, other);
  }

  /** A chain freed is as many clusters more to spare. */
  lemma {:induction false} SpareFreed(links: Links, cs: seq<nat>)
    requires Distinct(cs) && forall i: nat :: i < |cs| ==> FIRST <= cs[i] < |links| && links[cs[i]] != FREE
    ensures Spare(Freed(links, cs), |links|) == Spare(links, |links|) + |cs|
  {
    if cs == [] {
      assert Freed(links, cs) == links;
    } else {
      var n := |cs| - 1;
      SpareFreed(links, cs[..n]);
      FreedMore(links, cs[..n], cs[n]);
      assert cs[..n] + [cs[n]] == cs;
      assert cs[n] !in cs[..n];
      SpareSet(Freed(links, cs[..n]), cs[n], FREE, |links|);
    }
  }

  lemma ChainFreed(links: Links, first: nat, chain: seq<nat>)
    requires ChainOk(links, first, chain)
    ensures Spare(Freed(links, chain), |links|) == Spare(links, |links|) + |chain|
  {
    ChainDistinct(links, first, chain);
    forall i: nat | i < |chain| ensures FIRST <= chain[i] {
      ChainUsed(links, first, chain, i);
    }
    SpareFreed(links, chain);
  }

  method DoTruncate(vol: Volume, files: seq<File>, i: nat, length: nat)
    requires FilesOk(vol, files) && i < |files|
    modifies vol, files[i]
    ensures FilesOk(vol, files) && View(vol, files) == After(old(View(vol, files)), Truncate(i, length))
  {
    if length == 0 {
      Clear(vol, files, i);
    } else {
      Fat32File.Truncate(vol, files[i], length);
      assert Texts(vol, files) == old(Texts(vol, files));
    }
  }

  method Clear(vol: Volume, files: seq<File>, i: nat)
    requires FilesOk(vol, files) && i < |files|
    modifies vol, files[i]
    ensures FilesOk(vol, files) && vol.Free() == old(vol.Free()) + |old(files[i].chain)|
    ensures Texts(vol, files) == old(Texts(vol, files))[i := Text([], 0)]
  {
    ghost var links0, chain0 := vol.Links(), files[i].chain;
    ChainFreed(links0, files[i].first, chain0);
    Fat32File.Truncate(vol, files[i], 0);
    OthersFreed(vol, files, i, links0, chain0);
  }

  lemma OthersFreed(vol: Volume, files: seq<File>, i: nat, links0: Links, chain0: seq<nat>)
    requires vol.Valid() && i < |files| && vol.Links() == Freed(links0, chain0)
    requires forall j: nat :: j < |files| && j != i ==>
               ChainOk(links0, files[j].first, files[j].chain) && Disjoint(chain0, files[j].chain)
    ensures forall j: nat :: j < |files| && j != i ==> FileOk(vol, files[j])
  {
    forall j: nat | j < |files| && j != i ensures FileOk(vol, files[j]) {
      FreedBeside(links0, chain0, files[j].first, files[j].chain);
    }
  }

  /** One request does to the disk of byte sequences what it should, and is answered from it. */
  method Perform(vol: Volume, files: seq<File>, req: Request) returns (a: Answer)
    requires FilesOk(vol, files) && req.i < |files|
    modifies vol, files
    ensures FilesOk(vol, files) && View(vol, files) == After(old(View(vol, files)), req)
    ensures a == Reply(old(View(vol, files)), req)
  {
    match req
    case Write(i, pos, src) =>
      var rc := DoWrite(vol, files, i, pos, src);
      a := Code(rc);
    case Truncate(i, length) =>
      DoTruncate(vol, files, i, length);
      a := Code(0);
    case Read(i, pos, count) =>
      var r := FileRead(vol, files[i], pos, count);
      a := Got(r);
  }

  /** Any requests, in any order, on any of the files: byte sequences, clusters and every answer, the results of writes
      included, are those of the machine above, and the chains stay chains that share no cluster. */
  method PerformAll(vol: Volume, files: seq<File>, reqs: seq<Request>) returns (answers: seq<Answer>)
    requires FilesOk(vol, files) && forall k: nat :: k < |reqs| ==> reqs[k].i < |files|
    modifies vol, files
    ensures FilesOk(vol, files) && View(vol, files) == Fold(After, old(View(vol, files)), reqs)
    ensures Answers(After, Reply, old(View(vol, files)), reqs, answers)
  {
    answers := [];
    ghost var d := View(vol, files);
    for k := 0 to |reqs|
      invariant FilesOk(vol, files) && View(vol, files) == Fold(After, d, reqs[..k])
      invariant Answers(After, Reply, d, reqs[..k], answers)
    {
      FoldMore(After, d, reqs, k);
      var a := Perform(vol, files, reqs[k]);
      AnswersMore(After, Reply, d, reqs, answers, k, a);
      answers := answers + [a];
    }
    assert reqs[..|reqs|] == reqs;
  }

  // ----- a write that leaves its file uncovered -------------------------------------------------------------------

  lemma {:induction false} AllSpare(links: Links, n: nat)
    requires n <= |links| && forall c: nat :: c < |links| ==> links[c] == FREE
    ensures Spare(links, n) == if n <= FIRST then 0 else n - FIRST
  {
    if n > FIRST {
      AllSpare(links, n - 1);
    }
  }

  /** A disk of `n` clusters filled by one file; a write to another behind its end finds no cluster, fails, and still
      raises the size, for any position that is not the beginning. */
  method BeyondCall(cluster: nat, copies: nat, n: nat, pos: nat, src: seq<Byte>)
    returns (vol: Volume, file: File, rc: int)
    requires cluster > 0 && copies > 0 && FIRST + n <= LAST + 1 && pos > 0 && src != []
    ensures FileOk(vol, file) && rc == -1 && file.size == pos && file.chain == []
    ensures !Covered(file.size, file.chain, vol.cluster)
  {
    vol := new Volume(cluster, copies, n);
    AllSpare(vol.Links(), |vol.data|);
    var first := new File();
    ghost var w: nat;
    rc, w := FileWrite(vol, first, 0, Zeros(n * cluster));
    WholeFits(n, cluster);
    file := new File();
    rc, w := FileWrite(vol, file, pos, src);
  }

  lemma WholeFits(n: nat, cluster: nat)
    requires cluster > 0
    ensures ClustersAfter(0, n, 0, n * cluster, cluster) == n
  {
    if n > 0 {
      assert n * cluster >= cluster;
      assert n * cluster - 1 == (n - 1) * cluster + (cluster - 1);
      DivUnique(n * cluster - 1, n - 1, cluster - 1, cluster);
    }
  }
}
