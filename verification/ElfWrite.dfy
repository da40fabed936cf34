/** Writing the image into a zeroed buffer, field by field. */
module ElfWrite {
  import opened RawBytes
  import opened LccWords
  import opened ElfImage

  /** The buffer starts with `b` and is zero after it. */
  ghost predicate Begins(a: array<Byte>, b: seq<Byte>)
    reads a
  { |b| <= a.Length && a[..] == b + Zeros(a.Length - |b|) }

  lemma ZeroNext(b: seq<Byte>, z: nat, k: nat)
    requires k <= z
    ensures b + Zeros(z) == b + Zeros(k) + Zeros(z - k)
  {
  }

  lemma {:induction false} ZeroLE(n: nat)
    ensures LE(0, n) == Zeros(n)
  {
    if n > 0 {
      ZeroLE(n - 1);
    }
  }

  method PutByte(a: array<Byte>, at: nat, x: Byte, ghost b: seq<Byte>)
    requires Begins(a, b) && at == |b| < a.Length
    modifies a
    ensures Begins(a, b + [x])
  {
    a[at] := x;
  }

  /** Store bytes one by one. */
  method PutBytes(a: array<Byte>, at: nat, s: seq<Byte>, ghost b: seq<Byte>)
    requires Begins(a, b) && at == |b| && at + |s| <= a.Length
    modifies a
    ensures Begins(a, b + s)
  {
    var i := 0;
    assert b + s[..0] == b;
    while i < |s|
      invariant i <= |s| && Begins(a, b + s[..i])
    {
      PutByte(a, at + i, s[i], b + s[..i]);
      assert b + s[..i] + [s[i]] == b + s[..i + 1];
      i := i + 1;
    }
    assert s[..|s|] == s;
  }

  /** Store an `n`-byte little-endian number. */
  method PutLE(a: array<Byte>, at: nat, v: nat, n: nat, ghost b: seq<Byte>)
    requires Begins(a, b) && at == |b| && at + n <= a.Length
    modifies a
    ensures Begins(a, b + LE(v, n))
  {
    var i, y := 0, v;
    ghost var now: seq<Byte> := b;
    while i < n
      invariant i <= n && Begins(a, now) && |now| == at + i && now + LE(y, n - i) == b + LE(v, n)
    {
      var x: Byte := y % 256;
      PutByte(a, at + i, x, now);
      assert now + ([x] + LE(y / 256, n - i - 1)) == now + [x] + LE(y / 256, n - i - 1);
      now := now + [x];
      y := y / 256;
      i := i + 1;
    }
    assert now + [] == now;
  }

  /** Bytes never written are zero. */
  lemma Untouched(a: array<Byte>, b: seq<Byte>, k: nat)
    requires Begins(a, b) && |b| + k <= a.Length
    ensures Begins(a, b + Zeros(k))
  {
    ZeroNext(b, a.Length - |b|, k);
  }

  /** Append one field to the pieces written so far. */
  method PutField(a: array<Byte>, at: nat, v: nat, n: nat, ghost pre: seq<Byte>, ghost ps: seq<seq<Byte>>)
    requires Begins(a, pre + Concat(ps)) && at == |pre + Concat(ps)| && at + n <= a.Length
    modifies a
    ensures Begins(a, pre + Concat(ps + [LE(v, n)])) && |pre + Concat(ps + [LE(v, n)])| == at + n
  {
    PutLE(a, at, v, n, pre + Concat(ps));
    ConcatSnoc(ps, LE(v, n));
    assert pre + Concat(ps) + LE(v, n) == pre + (Concat(ps) + LE(v, n));
  }

  method WriteIdent(a: array<Byte>)
    requires Begins(a, []) && EHDR_SZ <= a.Length
    modifies a
    ensures Begins(a, [] + Concat([ELF_IDENT])) && |[] + Concat([ELF_IDENT])| == 16
  {
    PutBytes(a, 0, [0x7F, 0x45, 0x4C, 0x46, 2, 1, 1], []);
    Untouched(a, [] + [0x7F, 0x45, 0x4C, 0x46, 2, 1, 1], 9);
    assert [] + [0x7F, 0x45, 0x4C, 0x46, 2, 1, 1] + Zeros(9) == ELF_IDENT;
    ConcatSnoc([], ELF_IDENT);
    assert [] + [ELF_IDENT] == [ELF_IDENT];
    assert [] + ([] + ELF_IDENT) == ELF_IDENT;
  }

  function EhdrStart(h: Header): seq<seq<Byte>> {
    [ELF_IDENT, LE(h.etype, 2), LE(h.machine, 2), LE(h.version, 4), LE(h.entry, 8), LE(h.phoff, 8), LE(h.shoff, 8)]
  }

  method WriteEhdrStart(a: array<Byte>, h: Header)
    requires Begins(a, []) && EHDR_SZ <= a.Length
    modifies a
    ensures Begins(a, [] + Concat(EhdrStart(h))) && |[] + Concat(EhdrStart(h))| == 48
  {
    WriteIdent(a);
    ghost var z: seq<Byte> := [];
    ghost var ps: seq<seq<Byte>> := [ELF_IDENT];
    PutField(a, 16, h.etype, 2, z, ps);      ps := ps + [LE(h.etype, 2)];
    PutField(a, 18, h.machine, 2, z, ps);    ps := ps + [LE(h.machine, 2)];
    PutField(a, 20, h.version, 4, z, ps);    ps := ps + [LE(h.version, 4)];
    PutField(a, 24, h.entry, 8, z, ps);      ps := ps + [LE(h.entry, 8)];
    PutField(a, 32, h.phoff, 8, z, ps);      ps := ps + [LE(h.phoff, 8)];
    PutField(a, 40, h.shoff, 8, z, ps);      ps := ps + [LE(h.shoff, 8)];
    assert ps == EhdrStart(h);
  }

  method WriteEhdr(a: array<Byte>, h: Header)
    requires Begins(a, []) && EHDR_SZ <= a.Length
    modifies a
    ensures Begins(a, Ehdr(h))
  {
    WriteEhdrStart(a, h);
    ghost var z: seq<Byte> := [];
    ghost var ps := EhdrStart(h);
    PutField(a, 48, h.flags, 4, z, ps);      ps := ps + [LE(h.flags, 4)];
    PutField(a, 52, h.ehsize, 2, z, ps);     ps := ps + [LE(h.ehsize, 2)];
    PutField(a, 54, h.phentsize, 2, z, ps);  ps := ps + [LE(h.phentsize, 2)];
    PutField(a, 56, h.phnum, 2, z, ps);      ps := ps + [LE(h.phnum, 2)];
    PutField(a, 58, h.shentsize, 2, z, ps);  ps := ps + [LE(h.shentsize, 2)];
    PutField(a, 60, h.shnum, 2, z, ps);      ps := ps + [LE(h.shnum, 2)];
    PutField(a, 62, h.shstrndx, 2, z, ps);   ps := ps + [LE(h.shstrndx, 2)];
    assert ps == EhdrPieces(h);
    assert z + Concat(ps) == Concat(ps);
  }

  method WritePhdr(a: array<Byte>, p: ProgramHeader, ghost h: seq<Byte>)
    requires Begins(a, h) && |h| == EHDR_SZ && CODE_OFF <= a.Length
    modifies a
    ensures Begins(a, h + Phdr(p))
  {
    ghost var ps: seq<seq<Byte>> := [];
    assert h + Concat(ps) == h;
    PutField(a, 64, p.ptype, 4, h, ps);      ps := ps + [LE(p.ptype, 4)];
    PutField(a, 68, p.flags, 4, h, ps);      ps := ps + [LE(p.flags, 4)];
    PutField(a, 72, p.offset, 8, h, ps);     ps := ps + [LE(p.offset, 8)];
    PutField(a, 80, p.vaddr, 8, h, ps);      ps := ps + [LE(p.vaddr, 8)];
    PutField(a, 88, p.paddr, 8, h, ps);      ps := ps + [LE(p.paddr, 8)];
    PutField(a, 96, p.filesz, 8, h, ps);     ps := ps + [LE(p.filesz, 8)];
    PutField(a, 104, p.memsz, 8, h, ps);     ps := ps + [LE(p.memsz, 8)];
    PutField(a, 112, p.align, 8, h, ps);     ps := ps + [LE(p.align, 8)];
    assert ps == PhdrPieces(p);
  }

  /** The file image of a program with its code already patched. */
  method WriteImage(code: seq<Byte>, pool: seq<Byte>, n: nat) returns (out: array<Byte>)
    ensures fresh(out) && out[..] == Image(code, pool, n)
  {
    var total := Total(|code|, |pool|, n);
    out := new Byte[total](_ => 0);
    assert out[..] == [] + Zeros(total);
    ghost var h, p := Ehdr(LccHeader()), Phdr(LccSegment(total));
    WriteEhdr(out, LccHeader());
    WritePhdr(out, LccSegment(total), h);
    PutBytes(out, CODE_OFF, code, h + p);
    PutBytes(out, StrOff(|code|), pool, h + p + code);
  }
}
