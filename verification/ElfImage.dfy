/** The file lcc writes: an ELF header, one program header, code, strings and
    zeroed locals. */
module ElfImage {
  import opened RawBytes
  import opened LccWords

  const BASE: nat := 0x4000_0000
  const EHDR_SZ: nat := 64
  const PHDR_SZ: nat := 56
  const CODE_OFF: nat := 120

  /** Round up to a multiple of 8. */
  function Align8(x: nat): (r: nat)
    ensures x <= r < x + 8 && r % 8 == 0
  { (x + 7) / 8 * 8 }

  function StrOff(code: nat): nat { CODE_OFF + code }
  function LocOff(code: nat, pool: nat): nat { Align8(StrOff(code) + pool) }
  function Total(code: nat, pool: nat, n: nat): nat { LocOff(code, pool) + 8 * n }

  /** Pieces one after the other. */
  function Concat(ps: seq<seq<Byte>>): seq<Byte> {
    if ps == [] then [] else Concat(ps[..|ps| - 1]) + ps[|ps| - 1]
  }

  lemma ConcatSnoc(ps: seq<seq<Byte>>, x: seq<Byte>)
    ensures Concat(ps + [x]) == Concat(ps) + x
  {
    assert (ps + [x])[..|ps|] == ps;
  }

  /** Where piece `i` starts. */
  function Offset(ps: seq<seq<Byte>>, i: nat): nat
    requires i <= |ps|
  { if i == 0 then 0 else Offset(ps, i - 1) + |ps[i - 1]| }

  lemma {:induction false} PieceAt(ps: seq<seq<Byte>>, i: nat)
    requires i < |ps|
    ensures Offset(ps, i) + |ps[i]| <= |Concat(ps)| == Offset(ps, |ps|)
    ensures Concat(ps)[Offset(ps, i)..Offset(ps, i) + |ps[i]|] == ps[i]
    decreases |ps|
  {
    var k := |ps| - 1;
    var init := ps[..k];
    ConcatLength(init);
    OffsetPrefix(ps, k, i);
    OffsetPrefix(ps, k, k);
    if i < k {
      PieceAt(init, i);
      var o, n := Offset(ps, i), |ps[i]|;
      assert (Concat(init) + ps[k])[o..o + n] == Concat(init)[o..o + n];
    }
  }

  lemma {:induction false} ConcatLength(ps: seq<seq<Byte>>)
    ensures |Concat(ps)| == Offset(ps, |ps|)
    decreases |ps|
  {
    if ps != [] {
      ConcatLength(ps[..|ps| - 1]);
      OffsetPrefix(ps, |ps| - 1, |ps| - 1);
    }
  }

  lemma {:induction false} OffsetPrefix(ps: seq<seq<Byte>>, k: nat, i: nat)
    requires i <= k <= |ps|
    ensures Offset(ps[..k], i) == Offset(ps, i)
    decreases i
  {
    if i > 0 {
      OffsetPrefix(ps, k, i - 1);
    }
  }

  const ELF_IDENT: seq<Byte> := [0x7F, 0x45, 0x4C, 0x46, 2, 1, 1, 0, 0, 0, 0, 0, 0, 0, 0, 0]

  /** The fields of an ELF64 header after its identification, and of a program header. */
  datatype Header = Header(etype: nat, machine: nat, version: nat, entry: nat, phoff: nat, shoff: nat, flags: nat,
                           ehsize: nat, phentsize: nat, phnum: nat, shentsize: nat, shnum: nat, shstrndx: nat)
  datatype ProgramHeader = ProgramHeader(ptype: nat, flags: nat, offset: nat, vaddr: nat, paddr: nat, filesz: nat,
                                         memsz: nat, align: nat)

  function EhdrPieces(h: Header): seq<seq<Byte>> {
    [ELF_IDENT, LE(h.etype, 2), LE(h.machine, 2), LE(h.version, 4), LE(h.entry, 8), LE(h.phoff, 8), LE(h.shoff, 8),
     LE(h.flags, 4),
     LE(h.ehsize, 2), LE(h.phentsize, 2), LE(h.phnum, 2), LE(h.shentsize, 2), LE(h.shnum, 2), LE(h.shstrndx, 2)]
  }

  function PhdrPieces(p: ProgramHeader): seq<seq<Byte>> {
    [LE(p.ptype, 4), LE(p.flags, 4), LE(p.offset, 8), LE(p.vaddr, 8), LE(p.paddr, 8), LE(p.filesz, 8), LE(p.memsz, 8),
     LE(p.align, 8)]
  }

  function Ehdr(h: Header): (b: seq<Byte>)
    ensures |b| == EHDR_SZ
  { EhdrLength(h); Concat(EhdrPieces(h)) }

  function Phdr(p: ProgramHeader): (b: seq<Byte>)
    ensures |b| == PHDR_SZ
  { PhdrLength(p); Concat(PhdrPieces(p)) }

  lemma EhdrLength(h: Header)
    ensures |Concat(EhdrPieces(h))| == EHDR_SZ
    ensures var ps := EhdrPieces(h);
            Offset(ps, 1) == 16 && Offset(ps, 4) == 24 && Offset(ps, 5) == 32 && Offset(ps, 10) == 56
  {
    var ps := EhdrPieces(h);
    ConcatLength(ps);
    assert Offset(ps, 1) == 16 && Offset(ps, 2) == 18 && Offset(ps, 3) == 20 && Offset(ps, 4) == 24;
    assert Offset(ps, 5) == 32 && Offset(ps, 6) == 40 && Offset(ps, 7) == 48 && Offset(ps, 8) == 52;
    assert Offset(ps, 9) == 54 && Offset(ps, 10) == 56 && Offset(ps, 11) == 58 && Offset(ps, 12) == 60;
    assert Offset(ps, 13) == 62 && Offset(ps, 14) == 64;
  }

  lemma PhdrLength(p: ProgramHeader)
    ensures |Concat(PhdrPieces(p))| == PHDR_SZ
    ensures var ps := PhdrPieces(p);
            Offset(ps, 0) == 0 && Offset(ps, 2) == 8 && Offset(ps, 3) == 16 && Offset(ps, 5) == 32
              && Offset(ps, 6) == 40
  {
    var ps := PhdrPieces(p);
    ConcatLength(ps);
    assert Offset(ps, 1) == 4 && Offset(ps, 2) == 8 && Offset(ps, 3) == 16 && Offset(ps, 4) == 24;
    assert Offset(ps, 5) == 32 && Offset(ps, 6) == 40 && Offset(ps, 7) == 48 && Offset(ps, 8) == 56;
  }

  /** An executable with one program header right after the header. */
  function LccHeader(): Header {
    Header(2, 0x3E, 1, BASE + CODE_OFF, EHDR_SZ, 0, 0, EHDR_SZ, PHDR_SZ, 1, 0, 0, 0)
  }

  /** One readable, writable, executable segment that is the whole file. */
  function LccSegment(total: nat): ProgramHeader {
    ProgramHeader(1, 7, 0, BASE, BASE, total, total, 0x1000)
  }

  function Image(code: seq<Byte>, pool: seq<Byte>, n: nat): (b: seq<Byte>)
    ensures |b| == Total(|code|, |pool|, n)
  {
    var t := Total(|code|, |pool|, n);
    Ehdr(LccHeader()) + Phdr(LccSegment(t)) + code + pool + Zeros(t - StrOff(|code|) - |pool|)
  }

  /** `image` holds the bytes `b` at `at`. */
  ghost predicate Within(image: seq<Byte>, at: nat, b: seq<Byte>) {
    at + |b| <= |image| && image[at..at + |b|] == b
  }

  lemma WithinConcat(pre: seq<Byte>, b: seq<Byte>, post: seq<Byte>)
    ensures Within(pre + b + post, |pre|, b)
  {
  }

  /** Where the pieces are: code, strings and locals lie one after the other. */
  lemma ImagePieces(code: seq<Byte>, pool: seq<Byte>, n: nat)
    ensures var image := Image(code, pool, n);
            && HasPieces(image, code, pool, n)
            && CODE_OFF + |code| <= StrOff(|code|) && StrOff(|code|) + |pool| <= LocOff(|code|, |pool|)
            && LocOff(|code|, |pool|) + 8 * n == |image|
  {
    var t := Total(|code|, |pool|, n);
    var h, pad := Ehdr(LccHeader()) + Phdr(LccSegment(t)), Zeros(t - StrOff(|code|) - |pool|);
    var image := Image(code, pool, n);
    assert image == h + code + (pool + pad);
    WithinConcat(h, code, pool + pad);
    assert image == (h + code) + pool + pad;
    WithinConcat(h + code, pool, pad);
    assert image[LocOff(|code|, |pool|)..] == Zeros(8 * n);
  }

  /** `image` has these pieces at their places. */
  ghost predicate HasPieces(image: seq<Byte>, code: seq<Byte>, pool: seq<Byte>, n: nat) {
    && Within(image, CODE_OFF, code) && Within(image, StrOff(|code|), pool)
    && Within(image, LocOff(|code|, |pool|), Zeros(8 * n))
  }
}
