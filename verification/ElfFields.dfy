/** What a loader reads from the header of an image that lcc wrote. */
module ElfFields {
  import opened RawBytes
  import opened LccWords
  import opened ElfImage
  import opened ElfLoad
  import opened ElfExec

  /** A numeric piece, read back. */
  lemma PieceField(ps: seq<seq<Byte>>, i: nat, v: nat, n: nat)
    requires i < |ps| && ps[i] == LE(v, n) && v < Pow256(n)
    ensures Offset(ps, i) + n <= |Concat(ps)| && Field(Concat(ps), Offset(ps, i), n) == v
  {
    PieceAt(ps, i);
    LERound(v, n);
  }

  /** A field of a piece is a field of the whole. */
  lemma FieldWithin(pre: seq<Byte>, b: seq<Byte>, post: seq<Byte>, off: nat, n: nat)
    requires off + n <= |b|
    ensures Field(pre + b + post, |pre| + off, n) == Field(b, off, n)
  {
    assert (pre + b + post)[|pre| + off..|pre| + off + n] == b[off..off + n];
  }

  lemma Magic(b: seq<Byte>)
    requires |b| >= 16 && b[..16] == ELF_IDENT
    ensures Field(b, 0, 4) == 0x464C_457F
  {
    var c := b[0..4];
    assert c == b[..16][..4] == [0x7F, 0x45, 0x4C, 0x46];
    assert c[1..] == [0x45, 0x4C, 0x46] && c[1..][1..] == [0x4C, 0x46] && c[1..][1..][1..] == [0x46]
           && c[1..][1..][1..][1..] == [];
    assert UnLE(c[1..][1..]) == 0x4C + 256 * UnLE(c[1..][1..][1..]);
    assert UnLE(c[1..]) == 0x45 + 256 * UnLE(c[1..][1..]);
  }

  /** The header names an executable with this entry and one program header. */
  predicate EhdrOk(b: seq<Byte>, entry: nat) {
    && |b| >= EHDR_SZ && Field(b, 0, 4) == 0x464C_457F && Field(b, 16, 2) == ET_EXEC && Field(b, 24, 8) == entry
    && Field(b, 32, 8) == EHDR_SZ && Field(b, 56, 2) == 1
  }

  /** The program header at `at` asks for the first `t` bytes of the file at BASE. */
  predicate PhdrOk(b: seq<Byte>, at: nat, t: nat) {
    && |b| >= at + PHDR_SZ && Field(b, at, 4) == PT_LOAD && Field(b, at + 8, 8) == 0 && Field(b, at + 16, 8) == BASE
    && Field(b, at + 32, 8) == t && Field(b, at + 40, 8) == t
  }

  /** The loader reads back what was written, for any header. */
  lemma EhdrFields(h: Header)
    requires h.etype < 0x1_0000 && h.entry < W && h.phoff < W && h.phnum < 0x1_0000
    ensures var b := Ehdr(h);
            && Field(b, 0, 4) == 0x464C_457F && Field(b, 16, 2) == h.etype && Field(b, 24, 8) == h.entry
            && Field(b, 32, 8) == h.phoff && Field(b, 56, 2) == h.phnum
  {
    var ps := EhdrPieces(h);
    Powers();
    EhdrLength(h);
    PieceAt(ps, 0);
    Magic(Ehdr(h));
    PieceField(ps, 1, h.etype, 2);
    PieceField(ps, 4, h.entry, 8);
    PieceField(ps, 5, h.phoff, 8);
    PieceField(ps, 10, h.phnum, 2);
  }

  lemma PhdrFields(p: ProgramHeader)
    requires p.ptype < 0x1_0000_0000 && p.offset < W && p.vaddr < W && p.filesz < W && p.memsz < W
    ensures var b := Phdr(p);
            && Field(b, 0, 4) == p.ptype && Field(b, 8, 8) == p.offset && Field(b, 16, 8) == p.vaddr
            && Field(b, 32, 8) == p.filesz && Field(b, 40, 8) == p.memsz
  {
    var ps := PhdrPieces(p);
    Powers();
    PhdrLength(p);
    PieceField(ps, 0, p.ptype, 4);
    PieceField(ps, 2, p.offset, 8);
    PieceField(ps, 3, p.vaddr, 8);
    PieceField(ps, 5, p.filesz, 8);
    PieceField(ps, 6, p.memsz, 8);
  }

  lemma HeaderFields(image: seq<Byte>, h: seq<Byte>, post: seq<Byte>, entry: nat)
    requires |h| == EHDR_SZ && image == [] + h + post && EhdrOk(h, entry)
    ensures EhdrOk(image, entry)
  {
    FieldWithin([], h, post, 0, 4);
    FieldWithin([], h, post, 16, 2);
    FieldWithin([], h, post, 24, 8);
    FieldWithin([], h, post, 32, 8);
    FieldWithin([], h, post, 56, 2);
  }

  lemma TableFields(image: seq<Byte>, h: seq<Byte>, p: seq<Byte>, post: seq<Byte>, t: nat)
    requires |h| == EHDR_SZ && |p| == PHDR_SZ && image == h + p + post && PhdrOk(p, 0, t)
    ensures PhdrOk(image, EHDR_SZ, t)
  {
    FieldWithin(h, p, post, 0, 4);
    FieldWithin(h, p, post, 8, 8);
    FieldWithin(h, p, post, 16, 8);
    FieldWithin(h, p, post, 32, 8);
    FieldWithin(h, p, post, 40, 8);
  }

  /** An image with such headers loads as one segment. */
  lemma OneSegment(image: seq<Byte>, entry: nat)
    requires EhdrOk(image, entry) && PhdrOk(image, EHDR_SZ, |image|)
    ensures Loadable(image) && Bias(image) == 0 && Entry(image) == entry && PhNum(image) == 1
    ensures PhType(image, 0) == PT_LOAD && PhSegment(image, 0, 0) == Segment(BASE, 0, |image|, |image|)
  {
    assert HasHeader(image) && TableInside(image);
    assert PhSegment(image, 0, 0) == Segment(BASE, 0, |image|, |image|);
  }

  lemma HeadersFirst(image: seq<Byte>, h: seq<Byte>, p: seq<Byte>, rest: seq<Byte>, entry: nat)
    requires |h| == EHDR_SZ && |p| == PHDR_SZ && image == h + p + rest && EhdrOk(h, entry) && PhdrOk(p, 0, |image|)
    ensures EhdrOk(image, entry) && PhdrOk(image, EHDR_SZ, |image|)
  {
    assert image == [] + h + (p + rest);
    HeaderFields(image, h, p + rest, entry);
    TableFields(image, h, p, rest, |image|);
  }

  /** The loader finds one segment: the whole file, at BASE. */
  lemma ImageFields(code: seq<Byte>, pool: seq<Byte>, n: nat)
    requires Total(|code|, |pool|, n) < W
    ensures var image := Image(code, pool, n);
            && Loadable(image) && Bias(image) == 0 && Entry(image) == BASE + CODE_OFF && PhNum(image) == 1
            && PhType(image, 0) == PT_LOAD && PhSegment(image, 0, 0) == Segment(BASE, 0, |image|, |image|)
  {
    var t := Total(|code|, |pool|, n);
    EhdrFields(LccHeader());
    PhdrFields(LccSegment(t));
    var pad := Zeros(t - StrOff(|code|) - |pool|);
    Grouped(Ehdr(LccHeader()) + Phdr(LccSegment(t)), code, pool, pad);
    HeadersFirst(Image(code, pool, n), Ehdr(LccHeader()), Phdr(LccSegment(t)), code + pool + pad, BASE + CODE_OFF);
    OneSegment(Image(code, pool, n), BASE + CODE_OFF);
  }

  lemma Grouped(h: seq<Byte>, a: seq<Byte>, b: seq<Byte>, c: seq<Byte>)
    ensures h + a + b + c == h + (a + b + c)
  {
  }

  /** Loaded into an empty address space, byte `i` of the file is at BASE + i, and
      control starts at the first emitted byte. */
  lemma ImageLoads(code: seq<Byte>, pool: seq<Byte>, n: nat, i: nat)
    requires Total(|code|, |pool|, n) < W && i < Total(|code|, |pool|, n)
    ensures var image := Image(code, pool, n);
            && Loadable(image) && At(PagesAfter(map[], image, Bias(image), PhNum(image)), BASE + i, image[i])
            && Entry(image) + Bias(image) == BASE + CODE_OFF
  {
    var image := Image(code, pool, n);
    var s := Segment(BASE, 0, |image|, |image|);
    ImageFields(code, pool, n);
    var pages := WithSegment(map[], image, s);
    assert PagesAfter(map[], image, 0, 1) == WithSegment(PagesAfter(map[], image, 0, 0), image, s);
    assert Filled(map[], pages, image, s, EndPage(s));
    SegmentFlat(map[], pages, image, s, EndPage(s), i);
  }
}
