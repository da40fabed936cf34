/** The address space a program is loaded into: page tables in physical memory, and
    the pages of its own that they show. */
module ElfSpace {
  import opened RawBytes
  import opened VmmTables
  import opened VmmRam
  import opened VmmFree
  import opened VmmSpace
  import opened VmmMap
  import opened VmmIsolation

  const PAGE: nat := 4096

  type Pages = map<nat, seq<Byte>>

  /** `pages` are exactly the pages the space has of its own, with what their frames hold. */
  ghost predicate PagesAre(frames: Frames, t: Tree, pages: Pages) {
    forall p: nat :: if p in pages then p < Span(3) && ShowsBytes(View(frames, t, 3, p), pages[p])
                     else p < Span(3) ==> !View(frames, t, 3, p).Mine?
  }

  predicate ShowsBytes(v: Seen, b: seq<Byte>) { v.Mine? && v.data == Page(b) }

  lemma PagesSame(frames0: Frames, t0: Tree, frames: Frames, t: Tree, pages: Pages)
    requires PagesAre(frames0, t0, pages) && forall p: nat :: View(frames, t, 3, p) == View(frames0, t0, 3, p)
    ensures PagesAre(frames, t, pages)
  {
    forall p: nat ensures if p in pages then p < Span(3) && ShowsBytes(View(frames, t, 3, p), pages[p])
                          else p < Span(3) ==> !View(frames, t, 3, p).Mine? {
      assert View(frames, t, 3, p) == View(frames0, t0, 3, p);
    }
  }

  lemma PagesMapped(frames0: Frames, t0: Tree, frames: Frames, t: Tree, pages: Pages, n: nat, flags: Flags,
                    bytes: seq<Byte>)
    requires PagesAre(frames0, t0, pages) && n < Span(3)
    requires Shows(frames0, t0, frames, t, 3, n, true, Mine(flags, Page(bytes)))
    ensures PagesAre(frames, t, pages[n := bytes])
    ensures forall p: nat :: View(frames, t, 3, p).Foreign? ==> View(frames0, t0, 3, p).Foreign?
  {
    var pages' := pages[n := bytes];
    forall p: nat ensures if p in pages' then p < Span(3) && ShowsBytes(View(frames, t, 3, p), pages'[p])
                          else p < Span(3) ==> !View(frames, t, 3, p).Mine? {
      assert View(frames, t, 3, p) == Now(frames0, t0, 3, p, n, true, Mine(flags, Page(bytes)));
      assert SameWay(n, n, 3);
      if p < Span(3) && SameWay(p, n, 3) {
        SameWaySame(p, n, 3);
      }
    }
  }

  /** A frame that is in use for nothing may be written. */
  lemma LooseWrite(frames: Frames, bits: seq<bool>, t: Tree, k: Kernel, f: nat, z: Frame)
    requires Workable(frames, bits, t, 3, k) && Loose(frames, bits, t, k, f, 3)
    ensures Workable(frames[f := z], bits, t, 3, k) && Loose(frames[f := z], bits, t, k, f, 3)
    ensures forall p: nat :: View(frames[f := z], t, 3, p) == View(frames, t, 3, p)
  {
    var bits0 := bits[f := false];
    PageDropped(frames, bits, bits0, t, k, f, frames, t);
    StaysWorkable(bits0, frames, frames[f := z], t, k, f);
    assert bits0[f := true] == bits;
  }

  /** A frame that was not mapped after all is in use for nothing still. */
  lemma StillLoose(bits0: seq<bool>, bits: seq<bool>, frames0: Frames, frames: Frames, t: Tree, t': Tree, k: Kernel,
                   f: nat)
    requires Changed(bits0, bits, frames0, frames, t, t', -1) && Workable(frames0, bits0, t, 3, k)
    requires Workable(frames, bits, t', 3, k) && Loose(frames0, bits0, t, k, f, 3)
    ensures Loose(frames, bits, t', k, f, 3)
  {
    KernelSafe(bits0, bits, frames0, frames, t, t', k, -1, 3);
    forall j: nat ensures Outside(Below(frames, k, j), t', f) {
      assert Outside(Below(frames0, k, j), t, f) && Outside(Below(frames, k, j), t', -1);
    }
  }

  class Space {
    const ram: Ram
    const root: nat
    const k: Kernel
    ghost var t: Tree
    ghost var pages: Pages

    ghost predicate Valid()
      reads this, ram
    {
      && ram.Valid() && root == t.phys && Workable(ram.frames, ram.bits, t, 3, k)
      && PagesAre(ram.frames, t, pages)
    }

    /** A page that is not the kernel's. */
    ghost predicate User(p: nat)
      reads this, ram
    { p < Span(3) && !View(ram.frames, t, 3, p).Foreign? }

    /** A frame taken and not yet mapped. */
    ghost predicate Unmapped(f: nat)
      reads this, ram
    { Loose(ram.frames, ram.bits, t, k, f, 3) }

    /** A space without pages of its own. */
    constructor (ram: Ram, root: nat, k: Kernel, ghost t: Tree)
      requires ram.Valid() && root == t.phys && Workable(ram.frames, ram.bits, t, 3, k)
      requires forall p: nat :: !View(ram.frames, t, 3, p).Mine?
      ensures Valid() && pages == map[] && this.ram == ram && this.t == t
    {
      this.ram, this.root, this.k, this.t, this.pages := ram, root, k, t, map[];
    }

    method AllocPage() returns (f: nat)
      requires Valid()
      modifies ram
      ensures Valid() && (forall p: nat :: old(User(p)) ==> User(p))
      ensures f == 0 <==> old(ram.freeCount) == 0
      ensures f == 0 ==> ram.freeCount == 0
      ensures f != 0 ==> Unmapped(f) && ram.freeCount + 1 == old(ram.freeCount)
    {
      ghost var bits0, frames0 := ram.bits, ram.frames;
      f := ram.AllocPage();
      if f != 0 {
        StaysWorkable(bits0, frames0, ram.frames, t, k, f);
      }
    }

    method FreePage(f: nat)
      requires Valid() && Unmapped(f)
      modifies ram
      ensures Valid() && ram.freeCount == old(ram.freeCount) + 1 && (forall p: nat :: old(User(p)) ==> User(p))
    {
      ghost var bits0 := ram.bits;
      ram.FreePage(f);
      PageDropped(ram.frames, bits0, ram.bits, t, k, f, ram.frames, t);
    }

    /** Fill frame `f` and map it as page `p`; fails only for want of frames for tables. */
    method MapPage(p: nat, f: nat, bytes: seq<Byte>, flags: Flags) returns (ok: bool)
      requires Valid() && Unmapped(f) && User(p) && !flags.huge
      modifies this, ram
      ensures Valid() && (forall q: nat :: old(User(q)) ==> User(q))
      ensures pages == if ok then old(pages)[p := bytes] else old(pages)
      ensures ok ==> View(ram.frames, t, 3, p) == Mine(Present(flags), Page(bytes))
      ensures ram.freeCount <= old(ram.freeCount) <= ram.freeCount + 3
      ensures !ok ==> old(ram.freeCount) < 3 && Unmapped(f)
    {
      LooseWrite(ram.frames, ram.bits, t, k, f, Page(bytes));
      PagesSame(ram.frames, t, ram.frames[f := Page(bytes)], t, pages);
      ram.frames := ram.frames[f := Page(bytes)];
      ghost var bits1, frames1, t1 := ram.bits, ram.frames, t;
      InsideOnWay(frames1, t, 3, k, p);
      var rc;
      rc, t := MapIn(ram, root, 3, p, f, flags, k, t);
      ok := rc == 0;
      if ok {
        PagesMapped(frames1, t1, ram.frames, t, pages, p, Present(flags), bytes);
        pages := pages[p := bytes];
        assert SameWay(p, p, 3);
      } else {
        PagesSame(frames1, t1, ram.frames, t, pages);
        StillLoose(bits1, ram.bits, frames1, ram.frames, t1, t, k, f);
      }
    }
  }
}
