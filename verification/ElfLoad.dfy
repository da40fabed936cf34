/** Loading a program: segments are filled page by page, from memory or streamed
    from a file. */
module ElfLoad {
  import opened Division
  import opened RawBytes
  import opened LccWords
  import opened ElfSpace
  import VmmTables

  const ENOMEM: int := 12
  const ENOEXEC: int := 8

  /** A loadable segment: `filesz` bytes at `off` of the file go to `vaddr`, and
      zeros up to `memsz`. */
  datatype Segment = Segment(vaddr: nat, off: nat, filesz: nat, memsz: nat)

  function FirstPage(s: Segment): nat { s.vaddr / PAGE }
  function EndPage(s: Segment): nat { (s.vaddr + s.memsz + PAGE - 1) / PAGE }

  function SegPages(s: Segment): (n: nat)
    ensures n == EndPage(s) - FirstPage(s)
  { EndPage(s) - FirstPage(s) }

  /** What address `a` of the segment's pages holds. */
  function SegByte(src: seq<Byte>, s: Segment, a: nat): Byte
    requires s.off + s.filesz <= |src|
  { if s.vaddr <= a < s.vaddr + s.filesz then src[s.off + (a - s.vaddr)] else 0 }

  function SegBytes(src: seq<Byte>, s: Segment, a: nat, n: nat): (b: seq<Byte>)
    requires s.off + s.filesz <= |src|
    ensures |b| == n && forall i: nat :: i < n ==> b[i] == SegByte(src, s, a + i)
  { if n == 0 then [] else SegBytes(src, s, a, n - 1) + [SegByte(src, s, a + n - 1)] }

  function SegPage(src: seq<Byte>, s: Segment, p: nat): seq<Byte>
    requires s.off + s.filesz <= |src|
  { SegBytes(src, s, p * PAGE, PAGE) }

  /** The pages of the segment up to `hi` are mapped and filled, the others as before. */
  ghost predicate Filled(before: Pages, after: Pages, src: seq<Byte>, s: Segment, hi: nat)
    requires s.off + s.filesz <= |src|
  { FilledFrom(before, after, src, s, FirstPage(s), hi) }

  ghost predicate FilledFrom(before: Pages, after: Pages, src: seq<Byte>, s: Segment, lo: nat, hi: nat)
    requires s.off + s.filesz <= |src|
  {
    && (forall p: nat :: p in after <==> p in before || lo <= p < hi)
    && (forall p: nat :: p in after ==> after[p] == if lo <= p < hi then SegPage(src, s, p) else before[p])
  }

  function Min(a: nat, b: nat): nat { if a < b then a else b }

  /** The part of page `p` that comes from the file: from `lo` up to `hi`. */
  function CopyStart(s: Segment, p: nat): nat { Max(p * PAGE, s.vaddr) }
  function CopyEnd(s: Segment, p: nat): nat { Min(p * PAGE + PAGE, s.vaddr + s.filesz) }

  /** A zeroed page with `data` copied to offset `at`. */
  function Overlaid(at: nat, data: seq<Byte>): (b: seq<Byte>)
    requires at + |data| <= PAGE
    ensures |b| == PAGE
  { Zeros(at) + data + Zeros(PAGE - at - |data|) }

  /** Copying the page's slice of the file over zeros gives the page's bytes. */
  lemma SliceIsPage(src: seq<Byte>, s: Segment, p: nat)
    requires s.off + s.filesz <= |src|
    requires CopyStart(s, p) < CopyEnd(s, p)
    ensures var lo, hi := CopyStart(s, p), CopyEnd(s, p);
            Overlaid(lo - p * PAGE, src[s.off + (lo - s.vaddr)..s.off + (hi - s.vaddr)]) == SegPage(src, s, p)
  {
  }

  lemma NoSliceIsZero(src: seq<Byte>, s: Segment, p: nat)
    requires s.off + s.filesz <= |src| && (s.filesz == 0 || CopyEnd(s, p) <= CopyStart(s, p))
    ensures Zeros(PAGE) == SegPage(src, s, p)
  {
  }

  // ----- from an image in memory ---------------------------------------------------------------------

  /** The bytes of page `p`: zeros, and the page's slice of the image over them. */
  method FillPage(src: seq<Byte>, s: Segment, p: nat) returns (kp: seq<Byte>)
    requires s.off + s.filesz <= |src|
    ensures kp == SegPage(src, s, p)
  {
    kp := Zeros(PAGE);
    var lo, hi := CopyStart(s, p), CopyEnd(s, p);
    if s.filesz != 0 && p * PAGE < s.vaddr + s.filesz && hi > lo {
      SliceIsPage(src, s, p);
      kp := Overlaid(lo - p * PAGE, src[s.off + (lo - s.vaddr)..s.off + (hi - s.vaddr)]);
    } else {
      NoSliceIsZero(src, s, p);
    }
  }

  /** The segment's pages are none of the kernel's. */
  ghost predicate UserSegment(space: Space, s: Segment)
    reads space, space.ram
  { forall p: nat :: FirstPage(s) <= p < EndPage(s) ==> space.User(p) }

  /** Each page mapped took a frame, and at most three more for tables; a page that
      could not be mapped may have left tables behind. */
  predicate Took(free0: nat, free: nat, pages: int, failed: bool) {
    free + pages <= free0 <= free + 4 * pages + if failed then 3 else 0
  }

  /** Allocate, fill and map one page. */
  method LoadPage(space: Space, src: seq<Byte>, s: Segment, p: nat, flags: VmmTables.Flags) returns (ok: bool)
    requires space.Valid() && space.User(p) && !flags.huge && s.off + s.filesz <= |src|
    modifies space, space.ram
    ensures space.Valid() && (forall q: nat :: old(space.User(q)) ==> space.User(q))
    ensures space.pages == if ok then old(space.pages)[p := SegPage(src, s, p)] else old(space.pages)
    ensures Took(old(space.ram.freeCount), space.ram.freeCount, if ok then 1 else 0, !ok)
    ensures !ok ==> old(space.ram.freeCount) < 4
  {
    var f := space.AllocPage();
    if f == 0 { return false; }
    var kp := FillPage(src, s, p);
    ok := space.MapPage(p, f, kp, flags);
    if !ok {
      space.FreePage(f);
    }
  }

  /** Allocate, fill and map every page of the segment. On failure the pages below
      `done` are mapped; with four frames free for each page there is none. */
  method MapAndFill(space: Space, src: seq<Byte>, s: Segment, flags: VmmTables.Flags) returns (rc: int, ghost done: nat)
    requires space.Valid() && UserSegment(space, s) && !flags.huge && s.off + s.filesz <= |src|
    modifies space, space.ram
    ensures space.Valid() && (forall p: nat :: old(space.User(p)) ==> space.User(p))
    ensures rc == 0 || rc == -ENOMEM
    ensures FirstPage(s) <= done && (rc == 0 ==> done == EndPage(s)) && (rc != 0 ==> done < EndPage(s))
    ensures Filled(old(space.pages), space.pages, src, s, done)
    ensures Took(old(space.ram.freeCount), space.ram.freeCount, done - FirstPage(s), rc != 0)
    ensures rc != 0 ==> old(space.ram.freeCount) < 4 * SegPages(s)
  {
    var p, end := FirstPage(s), EndPage(s);
    done := p;
    while p < end
      invariant FirstPage(s) <= p == done <= end
      invariant space.Valid() && (forall q: nat :: old(space.User(q)) ==> space.User(q))
      invariant Filled(old(space.pages), space.pages, src, s, p)
      invariant Took(old(space.ram.freeCount), space.ram.freeCount, p - FirstPage(s), false)
    {
      ghost var pages := space.pages;
      var ok := LoadPage(space, src, s, p, flags);
      if !ok { return -ENOMEM, done; }
      FilledMore(old(space.pages), pages, src, s, p);
      p := p + 1;
      done := p;
    }
    rc := 0;
  }

  lemma FilledMore(before: Pages, pages: Pages, src: seq<Byte>, s: Segment, p: nat)
    requires s.off + s.filesz <= |src| && Filled(before, pages, src, s, p) && FirstPage(s) <= p
    ensures Filled(before, pages[p := SegPage(src, s, p)], src, s, p + 1)
  {
    FilledNext(before, pages, src, s, FirstPage(s), p, SegPage(src, s, p));
  }

  lemma FilledNext(before: Pages, pages: Pages, src: seq<Byte>, s: Segment, lo: nat, p: nat, bytes: seq<Byte>)
    requires s.off + s.filesz <= |src| && FilledFrom(before, pages, src, s, lo, p) && lo <= p
    requires bytes == SegPage(src, s, p)
    ensures FilledFrom(before, pages[p := bytes], src, s, lo, p + 1)
  {
  }

  // ----- streamed from a file -----------------------------------------------------------------------

  /** An open file; a read returns at most `burst` bytes at a time. */
  class File {
    const data: seq<Byte>
    var fpos: nat
    var burst: nat

    method Seek(at: nat)
      modifies this`fpos
      ensures fpos == at
    {
      fpos := at;
    }

    /** Some bytes from the position on; none only at the end or if none are asked for. */
    method Read(n: nat) returns (b: seq<Byte>)
      requires burst > 0
      modifies this`fpos
      ensures |b| <= n && (b == [] <==> n == 0 || old(fpos) >= |data|)
      ensures b != [] ==> old(fpos) + |b| <= |data| && b == data[old(fpos)..old(fpos) + |b|] && fpos == old(fpos) + |b|
    {
      if fpos >= |data| { return []; }
      var k := Min(Min(n, burst), |data| - fpos);
      b := data[fpos..fpos + k];
      fpos := fpos + k;
    }
  }

  /** Read `want` bytes at `at`: all of them, unless the file is too short. */
  method ReadFully(file: File, at: nat, want: nat) returns (got: seq<Byte>)
    requires file.burst > 0
    modifies file`fpos
    ensures at + want <= |file.data| ==> got == file.data[at..at + want]
    ensures |got| == want ==> want == 0 || at + want <= |file.data|
    ensures |got| <= want
  {
    file.Seek(at);
    got := [];
    while |got| < want
      invariant |got| <= want && file.fpos == at + |got|
      invariant |got| > 0 ==> at + |got| <= |file.data|
      invariant at + |got| <= |file.data| ==> got == file.data[at..at + |got|]
      decreases want - |got|
    {
      var b := file.Read(want - |got|);
      if b == [] { break; }
      got := got + b;
    }
  }

  /** A file of `n` bytes holds the slice of page `q`, if that page has one. */
  predicate SliceThere(n: nat, s: Segment, q: nat) {
    s.filesz > 0 && CopyStart(s, q) < CopyEnd(s, q) ==> s.off + (CopyEnd(s, q) - s.vaddr) <= n
  }

  method FillPageFile(file: File, s: Segment, p: nat) returns (ok: bool, kp: seq<Byte>)
    requires file.burst > 0
    modifies file`fpos
    ensures s.off + s.filesz <= |file.data| ==> ok && kp == SegPage(file.data, s, p)
    ensures ok ==> SliceThere(|file.data|, s, p)
  {
    kp := Zeros(PAGE);
    ok := true;
    var lo, hi := CopyStart(s, p), CopyEnd(s, p);
    if s.filesz != 0 && p * PAGE < s.vaddr + s.filesz && hi > lo {
      var got := ReadFully(file, s.off + (lo - s.vaddr), hi - lo);
      if |got| != hi - lo { return false, kp; }
      kp := Overlaid(lo - p * PAGE, got);
      if s.off + s.filesz <= |file.data| {
        SliceIsPage(file.data, s, p);
      }
    } else if s.off + s.filesz <= |file.data| {
      NoSliceIsZero(file.data, s, p);
    }
  }

  /** The same for one page, streamed. */
  method LoadPageFile(space: Space, file: File, s: Segment, p: nat, flags: VmmTables.Flags) returns (rc: int)
    requires space.Valid() && space.User(p) && !flags.huge && file.burst > 0
    modifies space, space.ram, file`fpos
    ensures space.Valid() && (forall q: nat :: old(space.User(q)) ==> space.User(q))
    ensures rc == 0 || rc == -ENOMEM || rc == -ENOEXEC
    ensures s.off + s.filesz <= |file.data| ==>
              && rc != -ENOEXEC
              && space.pages == if rc == 0 then old(space.pages)[p := SegPage(file.data, s, p)] else old(space.pages)
    ensures rc == 0 ==> SliceThere(|file.data|, s, p)
    ensures Took(old(space.ram.freeCount), space.ram.freeCount, if rc == 0 then 1 else 0, rc != 0)
    ensures rc == -ENOMEM ==> old(space.ram.freeCount) < 4
  {
    var f := space.AllocPage();
    if f == 0 { return -ENOMEM; }
    var ok, kp := FillPageFile(file, s, p);
    if !ok {
      space.FreePage(f);
      return -ENOEXEC;
    }
    ok := space.MapPage(p, f, kp, flags);
    if !ok {
      space.FreePage(f);
      return -ENOMEM;
    }
    rc := 0;
  }

  /** The same as `MapAndFill`, reading the file as it goes: when the file holds the
      whole segment, the pages come out the same; when a page's slice is missing,
      the segment is refused. */
  method MapAndFillFile(space: Space, file: File, s: Segment, flags: VmmTables.Flags)
    returns (rc: int, ghost done: nat)
    requires space.Valid() && UserSegment(space, s) && !flags.huge && file.burst > 0
    modifies space, space.ram, file`fpos
    ensures space.Valid() && (forall p: nat :: old(space.User(p)) ==> space.User(p))
    ensures rc == 0 || rc == -ENOMEM || rc == -ENOEXEC
    ensures FirstPage(s) <= done && (rc == 0 ==> done == EndPage(s)) && (rc != 0 ==> done < EndPage(s))
    ensures s.off + s.filesz <= |file.data| ==>
              rc != -ENOEXEC && Filled(old(space.pages), space.pages, file.data, s, done)
    ensures rc == 0 && 0 < s.filesz <= s.memsz ==> s.off + s.filesz <= |file.data|
    ensures Took(old(space.ram.freeCount), space.ram.freeCount, done - FirstPage(s), rc != 0)
    ensures rc == -ENOMEM ==> old(space.ram.freeCount) < 4 * SegPages(s)
  {
    var p, end := FirstPage(s), EndPage(s);
    done := p;
    while p < end
      invariant FirstPage(s) <= p == done <= end
      invariant space.Valid() && (forall q: nat :: old(space.User(q)) ==> space.User(q))
      invariant Streamed(old(space.pages), space.pages, file.data, s, p, old(space.ram.freeCount), space.ram.freeCount)
    {
      ghost var pages, free := space.pages, space.ram.freeCount;
      rc := LoadPageFile(space, file, s, p, flags);
      if rc != 0 { return rc, done; }
      StreamedMore(old(space.pages), pages, space.pages, file.data, s, p, old(space.ram.freeCount), free,
                   space.ram.freeCount);
      p := p + 1;
      done := p;
    }
    rc := 0;
    if 0 < s.filesz <= s.memsz {
      LastSlice(s);
      assert SliceThere(|file.data|, s, (s.vaddr + s.filesz - 1) / PAGE);
    }
  }

  /** The pages up to `p` are in place, the file has their slices, and frames were taken for them. */
  ghost predicate Streamed(before: Pages, pages: Pages, data: seq<Byte>, s: Segment, p: nat, free0: nat, free: nat) {
    && FirstPage(s) <= p && (s.off + s.filesz <= |data| ==> Filled(before, pages, data, s, p))
    && (forall q: nat :: FirstPage(s) <= q < p ==> SliceThere(|data|, s, q))
    && Took(free0, free, p - FirstPage(s), false)
  }

  lemma StreamedMore(before: Pages, pages: Pages, pages': Pages, data: seq<Byte>, s: Segment, p: nat, free0: nat,
                     free: nat, free': nat)
    requires Streamed(before, pages, data, s, p, free0, free) && SliceThere(|data|, s, p) && Took(free, free', 1, false)
    requires s.off + s.filesz <= |data| ==> pages' == pages[p := SegPage(data, s, p)]
    ensures Streamed(before, pages', data, s, p + 1, free0, free')
  {
    if s.off + s.filesz <= |data| {
      FilledMore(before, pages, data, s, p);
    }
  }

  /** The page with the last byte of the file part. */
  lemma LastSlice(s: Segment)
    requires 0 < s.filesz <= s.memsz
    ensures var q := (s.vaddr + s.filesz - 1) / PAGE;
            FirstPage(s) <= q < EndPage(s) && CopyStart(s, q) < CopyEnd(s, q) && CopyEnd(s, q) == s.vaddr + s.filesz
  {
  }

  // ----- what a program sees -------------------------------------------------------------------------

  /** Address `a` holds byte `x`. */
  ghost predicate At(pages: Pages, a: nat, x: Byte) {
    a / PAGE in pages && |pages[a / PAGE]| == PAGE && pages[a / PAGE][a % PAGE] == x
  }

  /** A filled segment is the flat image, zero-extended: each of its addresses holds
      its byte of the file, or zero past the file part. */
  lemma SegmentFlat(before: Pages, after: Pages, src: seq<Byte>, s: Segment, hi: nat, i: nat)
    requires s.off + s.filesz <= |src| && Filled(before, after, src, s, hi) && EndPage(s) <= hi && i < s.memsz
    ensures At(after, s.vaddr + i, if i < s.filesz then src[s.off + i] else 0)
  {
    var a := s.vaddr + i;
    assert a == a / PAGE * PAGE + a % PAGE;
    assert FirstPage(s) <= a / PAGE < EndPage(s);
  }
}
