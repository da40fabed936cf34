/** The program headers of an ELF image, and the pages that loading it maps. */
module ElfExec {
  import opened RawBytes
  import opened LccWords
  import opened ElfImage
  import opened ElfLoad
  import opened ElfSpace
  import VmmTables

  const PT_LOAD: nat := 1
  const ET_EXEC: nat := 2
  const ET_DYN: nat := 3
  const USER_DYN_BASE: nat := 0x4000_0000

  /** The `n`-byte number at `off`. */
  function Field(image: seq<Byte>, off: nat, n: nat): nat
    requires off + n <= |image|
  { UnLE(image[off..off + n]) }

  predicate HasHeader(image: seq<Byte>) {
    && |image| >= EHDR_SZ && Field(image, 0, 4) == 0x464C_457F
    && (Field(image, 16, 2) == ET_EXEC || Field(image, 16, 2) == ET_DYN)
  }

  function Entry(image: seq<Byte>): nat
    requires HasHeader(image)
  { Field(image, 24, 8) }

  function PhOff(image: seq<Byte>): nat
    requires HasHeader(image)
  { Field(image, 32, 8) }

  function PhNum(image: seq<Byte>): nat
    requires HasHeader(image)
  { Field(image, 56, 2) }

  /** The program headers lie in the image; the loader takes this for granted. */
  predicate TableInside(image: seq<Byte>)
    requires HasHeader(image)
  { PhOff(image) + PHDR_SZ * PhNum(image) <= |image| }

  function PhType(image: seq<Byte>, i: nat): nat
    requires HasHeader(image) && TableInside(image) && i < PhNum(image)
  { Field(image, PhOff(image) + PHDR_SZ * i, 4) }

  function PhSegment(image: seq<Byte>, i: nat, bias: nat): Segment
    requires HasHeader(image) && TableInside(image) && i < PhNum(image)
  {
    var ph := PhOff(image) + PHDR_SZ * i;
    Segment(Field(image, ph + 16, 8) + bias, Field(image, ph + 8, 8), Field(image, ph + 32, 8),
            Field(image, ph + 40, 8))
  }

  /** Every loadable segment's file part lies in the image. */
  predicate SegmentsInside(image: seq<Byte>)
    requires HasHeader(image) && TableInside(image)
  {
    forall i: nat :: i < PhNum(image) && PhType(image, i) == PT_LOAD ==>
      PhSegment(image, i, 0).off + PhSegment(image, i, 0).filesz <= |image|
  }

  predicate Loadable(image: seq<Byte>) { HasHeader(image) && TableInside(image) && SegmentsInside(image) }

  /** The lowest loadable segment of the first `k` headers is linked at 0. */
  predicate LinkedAtZero(image: seq<Byte>, k: nat)
    requires HasHeader(image) && TableInside(image) && k <= PhNum(image)
  { exists i: nat :: i < k && PhType(image, i) == PT_LOAD && PhSegment(image, i, 0).vaddr == 0 }

  /** Position-independent images linked at 0 are moved, others stay. */
  function Bias(image: seq<Byte>): nat
    requires HasHeader(image) && TableInside(image)
  { if Field(image, 16, 2) == ET_DYN && LinkedAtZero(image, PhNum(image)) then USER_DYN_BASE else 0 }

  // ----- the pages after loading ------------------------------------------------------------------------

  ghost function PageRange(lo: nat, hi: nat): (r: set<nat>)
    ensures forall p: nat :: p in r <==> lo <= p < hi
  { if hi <= lo then {} else PageRange(lo, hi - 1) + {hi - 1} }

  /** `before` with the segment's pages mapped and filled. */
  ghost function WithSegment(before: Pages, src: seq<Byte>, s: Segment): Pages
    requires s.off + s.filesz <= |src|
  {
    map p | p in before.Keys + PageRange(FirstPage(s), EndPage(s)) ::
      if FirstPage(s) <= p < EndPage(s) then SegPage(src, s, p) else before[p]
  }

  /** There is one way to fill a segment, whichever way its bytes come. */
  lemma FilledIs(before: Pages, after: Pages, src: seq<Byte>, s: Segment, hi: nat)
    requires s.off + s.filesz <= |src| && Filled(before, after, src, s, hi) && hi == EndPage(s)
    ensures after == WithSegment(before, src, s)
  {
    var w := WithSegment(before, src, s);
    assert forall p: nat :: p in after <==> p in w;
    assert forall p: nat :: p in after ==> after[p] == w[p];
  }

  /** The pages after the first `k` program headers. */
  ghost function PagesAfter(before: Pages, image: seq<Byte>, bias: nat, k: nat): Pages
    requires Loadable(image) && k <= PhNum(image)
  {
    if k == 0 then before
    else if PhType(image, k - 1) != PT_LOAD then PagesAfter(before, image, bias, k - 1)
    else WithSegment(PagesAfter(before, image, bias, k - 1), image, PhSegment(image, k - 1, bias))
  }

  method FindBias(image: seq<Byte>) returns (bias: nat)
    requires HasHeader(image) && TableInside(image)
    ensures bias == Bias(image)
  {
    bias := 0;
    if Field(image, 16, 2) == ET_DYN {
      var zero, i := false, 0;
      while i < PhNum(image)
        invariant i <= PhNum(image) && zero == LinkedAtZero(image, i)
      {
        if PhType(image, i) == PT_LOAD && PhSegment(image, i, 0).vaddr == 0 {
          zero := true;
        }
        i := i + 1;
      }
      if zero { bias := USER_DYN_BASE; }
    }
  }

  // ----- loading -------------------------------------------------------------------------------------------

  /** User pages, writable if the header says so. */
  function PhFlags(image: seq<Byte>, i: nat): VmmTables.Flags
    requires HasHeader(image) && TableInside(image) && i < PhNum(image)
  { VmmTables.Flags(true, false, if Field(image, PhOff(image) + PHDR_SZ * i + 4, 4) / 2 % 2 == 1 then 6 else 4) }

  /** None of the segments goes to pages of the kernel's. */
  ghost predicate UserImage(space: Space, image: seq<Byte>)
    requires HasHeader(image) && TableInside(image)
    reads space, space.ram
  {
    forall i: nat :: i < PhNum(image) && PhType(image, i) == PT_LOAD ==>
      UserSegment(space, PhSegment(image, i, Bias(image)))
  }

  /** How many pages the segments of the first `k` headers have. */
  function PageCount(image: seq<Byte>, bias: nat, k: nat): nat
    requires HasHeader(image) && TableInside(image) && k <= PhNum(image)
  {
    if k == 0 then 0
    else
      PageCount(image, bias, k - 1)
      + if PhType(image, k - 1) == PT_LOAD then SegPages(PhSegment(image, k - 1, bias)) else 0
  }

  lemma {:induction false} MorePages(image: seq<Byte>, bias: nat, i: nat, k: nat)
    requires HasHeader(image) && TableInside(image) && i <= k <= PhNum(image)
    ensures PageCount(image, bias, i) <= PageCount(image, bias, k)
    decreases k
  {
    if i < k {
      MorePages(image, bias, i, k - 1);
    }
  }

  /** Map one loadable segment. */
  method LoadOne(space: Space, image: seq<Byte>, i: nat, bias: nat) returns (rc: int)
    requires Loadable(image) && i < PhNum(image) && PhType(image, i) == PT_LOAD && bias == Bias(image)
    requires space.Valid() && UserSegment(space, PhSegment(image, i, bias))
    modifies space, space.ram
    ensures space.Valid() && (forall p: nat :: old(space.User(p)) ==> space.User(p))
    ensures rc == 0 || rc == -ENOMEM
    ensures rc == 0 ==> space.pages == WithSegment(old(space.pages), image, PhSegment(image, i, bias))
    ensures rc == 0 ==> Took(old(space.ram.freeCount), space.ram.freeCount, SegPages(PhSegment(image, i, bias)), false)
    ensures rc != 0 ==> old(space.ram.freeCount) < 4 * SegPages(PhSegment(image, i, bias))
  {
    ghost var before := space.pages;
    var s := PhSegment(image, i, bias);
    assert PhSegment(image, i, 0).off == s.off && PhSegment(image, i, 0).filesz == s.filesz;
    ghost var done;
    rc, done := MapAndFill(space, image, s, PhFlags(image, i));
    if rc == 0 {
      FilledIs(before, space.pages, image, s, done);
    }
  }

  /** Map every loadable segment of an image held in memory; with four frames free for
      each page of them it succeeds. */
  method LoadImage(space: Space, image: seq<Byte>) returns (rc: int, entry: nat)
    requires Loadable(image) && space.Valid() && UserImage(space, image)
    modifies space, space.ram
    ensures space.Valid() && (forall p: nat :: old(space.User(p)) ==> space.User(p))
    ensures rc == 0 || rc == -ENOMEM
    ensures rc == 0 ==> space.pages == PagesAfter(old(space.pages), image, Bias(image), PhNum(image))
    ensures rc == 0 ==> entry == Entry(image) + Bias(image)
    ensures rc != 0 ==> old(space.ram.freeCount) < 4 * PageCount(image, Bias(image), PhNum(image))
  {
    var bias := FindBias(image);
    entry := Entry(image) + bias;
    var i := 0;
    while i < PhNum(image)
      invariant i <= PhNum(image) && space.Valid() && (forall p: nat :: old(space.User(p)) ==> space.User(p))
      invariant space.pages == PagesAfter(old(space.pages), image, bias, i)
      invariant Took(old(space.ram.freeCount), space.ram.freeCount, PageCount(image, bias, i), false)
    {
      if PhType(image, i) == PT_LOAD {
        assert old(UserSegment(space, PhSegment(image, i, bias)));
        rc := LoadOne(space, image, i, bias);
        if rc != 0 {
          MorePages(image, bias, i + 1, PhNum(image));
          return;
        }
      }
      i := i + 1;
    }
    rc := 0;
  }
}
