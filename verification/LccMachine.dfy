/** The part of an x86-64 processor that compiled programs use: registers, byte
    memory, a decoder for the emitted encodings, and the two system calls. */
module LccMachine {
  import opened RawBytes
  import opened LccWords
  import opened LccSyntax
  import opened LccGen

  datatype Instr =
    | MovR15(v: Word) | MovRax(v: Word) | MovRsi(v: Word)
    | MovEax(d: nat) | MovEdi(d: nat) | MovEdx(d: nat)
    | LoadRax(d: nat) | StoreRax(d: nat)
    | PushRax | PopRax | NegRax | MovRcxRax | MovRaxRdx | MovRdiRax
    | AddRaxRcx | SubRaxRcx | ImulRaxRcx | Cqo | IdivRcx | Syscall

  /** Immediates and displacements fit their fields. */
  predicate Fits(i: Instr) {
    i.MovEax? || i.MovEdi? || i.MovEdx? || i.LoadRax? || i.StoreRax? ==> i.d < 0x1_0000_0000
  }

  function Encoding(i: Instr): (b: seq<Byte>)
    ensures 1 <= |b| <= 10
  {
    match i
    case MovR15(v) => [0x49, 0xBF] + LE(v, 8)
    case MovRax(v) => [0x48, 0xB8] + LE(v, 8)
    case MovRsi(v) => [0x48, 0xBE] + LE(v, 8)
    case MovEax(d) => [0xB8] + LE(d, 4)
    case MovEdi(d) => [0xBF] + LE(d, 4)
    case MovEdx(d) => [0xBA] + LE(d, 4)
    case LoadRax(d) => [0x49, 0x8B, 0x87] + LE(d, 4)
    case StoreRax(d) => [0x49, 0x89, 0x87] + LE(d, 4)
    case PushRax => [0x50]
    case PopRax => [0x58]
    case NegRax => [0x48, 0xF7, 0xD8]
    case MovRcxRax => [0x48, 0x89, 0xC1]
    case MovRaxRdx => [0x48, 0x89, 0xD0]
    case MovRdiRax => [0x48, 0x89, 0xC7]
    case AddRaxRcx => [0x48, 0x01, 0xC8]
    case SubRaxRcx => [0x48, 0x29, 0xC8]
    case ImulRaxRcx => [0x48, 0x0F, 0xAF, 0xC1]
    case Cqo => [0x48, 0x99]
    case IdivRcx => [0x48, 0xF7, 0xF9]
    case Syscall => [0x0F, 0x05]
  }

  // ----- decoding --------------------------------------------------------------------------------

  datatype Decoded = Illegal | Instruction(i: Instr, len: nat)

  function Word8(b: seq<Byte>): Word
    requires |b| == 8
  { UnLERound(b); Powers(); UnLE(b) }

  /** The immediate after an opcode of `k` bytes; 0 if it is cut off. */
  function Imm64(b: seq<Byte>, k: nat): Word {
    if |b| < k + 8 then 0 else Word8(b[k..k + 8])
  }

  function Imm32(b: seq<Byte>, k: nat): nat {
    if |b| < k + 4 then 0 else UnLE(b[k..k + 4])
  }

  function Whole(i: Instr, len: nat, b: seq<Byte>): Decoded {
    if |b| < len then Illegal else Instruction(i, len)
  }

  /** After the prefix 0x48 (64-bit operands). */
  function DecodeRexW(b: seq<Byte>): Decoded
    requires |b| >= 2
  {
    if b[1] == 0xB8 then Whole(MovRax(Imm64(b, 2)), 10, b)
    else if b[1] == 0xBE then Whole(MovRsi(Imm64(b, 2)), 10, b)
    else if b[1] == 0x99 then Instruction(Cqo, 2)
    else if |b| < 3 then Illegal
    else if b[1] == 0xF7 && b[2] == 0xD8 then Instruction(NegRax, 3)
    else if b[1] == 0xF7 && b[2] == 0xF9 then Instruction(IdivRcx, 3)
    else if b[1] == 0x89 && b[2] == 0xC1 then Instruction(MovRcxRax, 3)
    else if b[1] == 0x89 && b[2] == 0xD0 then Instruction(MovRaxRdx, 3)
    else if b[1] == 0x89 && b[2] == 0xC7 then Instruction(MovRdiRax, 3)
    else if b[1] == 0x01 && b[2] == 0xC8 then Instruction(AddRaxRcx, 3)
    else if b[1] == 0x29 && b[2] == 0xC8 then Instruction(SubRaxRcx, 3)
    else if |b| >= 4 && b[1] == 0x0F && b[2] == 0xAF && b[3] == 0xC1 then Instruction(ImulRaxRcx, 4)
    else Illegal
  }

  /** After the prefix 0x49 (64-bit operands, r8 to r15 as base or target). */
  function DecodeRexWB(b: seq<Byte>): Decoded
    requires |b| >= 2
  {
    if b[1] == 0xBF then Whole(MovR15(Imm64(b, 2)), 10, b)
    else if |b| < 3 then Illegal
    else if b[1] == 0x8B && b[2] == 0x87 then Whole(LoadRax(Imm32(b, 3)), 7, b)
    else if b[1] == 0x89 && b[2] == 0x87 then Whole(StoreRax(Imm32(b, 3)), 7, b)
    else Illegal
  }

  function Decode(b: seq<Byte>): Decoded {
    if b == [] then Illegal
    else if b[0] == 0x50 then Instruction(PushRax, 1)
    else if b[0] == 0x58 then Instruction(PopRax, 1)
    else if b[0] == 0xB8 then Whole(MovEax(Imm32(b, 1)), 5, b)
    else if b[0] == 0xBF then Whole(MovEdi(Imm32(b, 1)), 5, b)
    else if b[0] == 0xBA then Whole(MovEdx(Imm32(b, 1)), 5, b)
    else if |b| < 2 then Illegal
    else if b[0] == 0x0F && b[1] == 0x05 then Instruction(Syscall, 2)
    else if b[0] == 0x48 then DecodeRexW(b)
    else if b[0] == 0x49 then DecodeRexWB(b)
    else Illegal
  }

  lemma ReadImm64(p: seq<Byte>, v: Word, rest: seq<Byte>)
    ensures Imm64(p + LE(v, 8) + rest, |p|) == v
  {
    LERound8(v);
    assert (p + LE(v, 8) + rest)[|p|..|p| + 8] == LE(v, 8);
  }

  lemma ReadImm32(p: seq<Byte>, d: nat, rest: seq<Byte>)
    requires d < 0x1_0000_0000
    ensures Imm32(p + LE(d, 4) + rest, |p|) == d
  {
    LERound4(d);
    assert (p + LE(d, 4) + rest)[|p|..|p| + 4] == LE(d, 4);
  }

  predicate HasImm64(i: Instr) { i.MovR15? || i.MovRax? || i.MovRsi? }
  predicate HasImm32(i: Instr) { i.MovEax? || i.MovEdi? || i.MovEdx? || i.LoadRax? || i.StoreRax? }

  lemma DecodeImm64(i: Instr, rest: seq<Byte>)
    requires HasImm64(i)
    ensures Decode(Encoding(i) + rest) == Instruction(i, |Encoding(i)|)
  {
    var p := Encoding(i)[..2];
    assert Encoding(i) == p + LE(i.v, 8);
    ReadImm64(p, i.v, rest);
  }

  lemma DecodeImm32(i: Instr, rest: seq<Byte>)
    requires HasImm32(i) && Fits(i)
    ensures Decode(Encoding(i) + rest) == Instruction(i, |Encoding(i)|)
  {
    var p := Encoding(i)[..|Encoding(i)| - 4];
    assert Encoding(i) == p + LE(i.d, 4);
    ReadImm32(p, i.d, rest);
  }

  /** Decoding inverts encoding, whatever follows. */
  lemma DecodeEncoding(i: Instr, rest: seq<Byte>)
    requires Fits(i)
    ensures Decode(Encoding(i) + rest) == Instruction(i, |Encoding(i)|)
  {
    if HasImm64(i) {
      DecodeImm64(i, rest);
    } else if HasImm32(i) {
      DecodeImm32(i, rest);
    }
  }

  // ----- memory -------------------------------------------------------------------------------------

  type Memory = map<nat, Byte>

  predicate Mapped(m: Memory, a: nat, n: nat) {
    forall k: nat :: a <= k < a + n ==> k in m
  }

  function Read(m: Memory, a: nat, n: nat): (b: seq<Byte>)
    requires Mapped(m, a, n)
    ensures |b| == n && forall k: nat :: k < n ==> b[k] == m[a + k]
  {
    if n == 0 then [] else Read(m, a, n - 1) + [m[a + n - 1]]
  }

  function Put(m: Memory, a: nat, b: seq<Byte>): (r: Memory)
    ensures r.Keys == m.Keys && forall k: nat :: k in m ==> r[k] == if a <= k < a + |b| then b[k - a] else m[k]
  {
    map k | k in m :: if a <= k < a + |b| then b[k - a] else m[k]
  }

  /** Memory holds the bytes `b` at `a`. */
  ghost predicate Holds(m: Memory, a: nat, b: seq<Byte>) {
    forall k: nat :: a <= k < a + |b| ==> k in m && m[k] == b[k - a]
  }

  lemma HoldsSplit(m: Memory, a: nat, x: seq<Byte>, y: seq<Byte>)
    ensures Holds(m, a, x + y) <==> Holds(m, a, x) && Holds(m, a + |x|, y)
  {
    if Holds(m, a, x + y) {
      forall k: nat | a <= k < a + |x| ensures k in m && m[k] == x[k - a] {
        assert (x + y)[k - a] == x[k - a];
      }
      forall k: nat | a + |x| <= k < a + |x| + |y| ensures k in m && m[k] == y[k - a - |x|] {
        assert (x + y)[k - a] == y[k - a - |x|];
      }
    }
  }

  lemma ReadHeld(m: Memory, a: nat, b: seq<Byte>)
    requires Holds(m, a, b)
    ensures Mapped(m, a, |b|) && Read(m, a, |b|) == b
  {
  }

  lemma HoldsPut(m: Memory, a: nat, b: seq<Byte>)
    requires Mapped(m, a, |b|)
    ensures Holds(Put(m, a, b), a, b)
  {
  }

  // ----- execution ----------------------------------------------------------------------------------

  datatype State = State(rip: nat, rax: Word, rcx: Word, rdx: Word, rdi: Word, rsi: Word, r15: Word, rsp: Word,
                         mem: Memory, out: seq<Byte>, st: Status)

  /** The bytes the processor fetches at `a`, as far as they are mapped. */
  function Fetch(m: Memory, a: nat, n: nat): seq<Byte>
    decreases n
  {
    if n == 0 || a !in m then [] else [m[a]] + Fetch(m, a + 1, n - 1)
  }

  function SignExtend(d: nat): int { if d < 0x8000_0000 then d else d - 0x1_0000_0000 }

  function Trap(s: State): State { s.(st := Trapped) }

  /** Dividend rdx:rax, divisor rcx; #DE when there is no 64-bit quotient. */
  function Divide(s: State): State {
    if s.rcx == 0 then Trap(s)
    else
      var n, d := Signed(s.rdx) * W + s.rax, Signed(s.rcx);
      if 0 - HALF <= Quotient(n, d) < HALF
      then s.(rax := ToWord(Quotient(n, d)), rdx := ToWord(Remainder(n, d)))
      else Trap(s)
  }

  /** write(1, ...) and exit; what any other call does is of no concern here. */
  function Call(s: State): State {
    if s.rax == 60 then s.(st := Halted(s.rdi))
    else if s.rax == 1 && s.rdi == 1 && Mapped(s.mem, s.rsi, s.rdx)
    then s.(rax := s.rdx, rcx := ToWord(s.rip), out := s.out + Read(s.mem, s.rsi, s.rdx))
    else s.(rax := ToWord(-1), rcx := ToWord(s.rip))
  }

  function Do(i: Instr, s: State): State {
    match i
    case MovR15(v) => s.(r15 := v)
    case MovRax(v) => s.(rax := v)
    case MovRsi(v) => s.(rsi := v)
    case MovEax(d) => s.(rax := d % 0x1_0000_0000)
    case MovEdi(d) => s.(rdi := d % 0x1_0000_0000)
    case MovEdx(d) => s.(rdx := d % 0x1_0000_0000)
    case LoadRax(d) =>
      var a := ToWord(s.r15 + SignExtend(d));
      if Mapped(s.mem, a, 8) then s.(rax := Word8(Read(s.mem, a, 8))) else Trap(s)
    case StoreRax(d) =>
      var a := ToWord(s.r15 + SignExtend(d));
      if Mapped(s.mem, a, 8) then s.(mem := Put(s.mem, a, LE(s.rax, 8))) else Trap(s)
    case PushRax =>
      var a := ToWord(s.rsp - 8);
      if Mapped(s.mem, a, 8) then s.(rsp := a, mem := Put(s.mem, a, LE(s.rax, 8))) else Trap(s)
    case PopRax =>
      if Mapped(s.mem, s.rsp, 8) then s.(rax := Word8(Read(s.mem, s.rsp, 8)), rsp := ToWord(s.rsp + 8)) else Trap(s)
    case NegRax => s.(rax := ToWord(0 - s.rax))
    case MovRcxRax => s.(rcx := s.rax)
    case MovRaxRdx => s.(rax := s.rdx)
    case MovRdiRax => s.(rdi := s.rax)
    case AddRaxRcx => s.(rax := ToWord(s.rax + s.rcx))
    case SubRaxRcx => s.(rax := ToWord(s.rax - s.rcx))
    case ImulRaxRcx => s.(rax := ToWord(Signed(s.rax) * Signed(s.rcx)))
    case Cqo => s.(rdx := if s.rax < HALF then 0 else W - 1)
    case IdivRcx => Divide(s)
    case Syscall => Call(s)
  }

  /** The effect of what was fetched; `rip` moves past it first. */
  function After(d: Decoded, s: State): State {
    match d
    case Illegal => Trap(s)
    case Instruction(i, len) => Do(i, s.(rip := s.rip + len))
  }

  function Step(s: State): State {
    if s.st != Running then s else After(Decode(Fetch(s.mem, s.rip, 15)), s)
  }

  function Iterate<T>(f: T -> T, x: T, n: nat): T
    decreases n
  { if n == 0 then x else Iterate(f, f(x), n - 1) }

  lemma {:induction false} IterateAdd<T>(f: T -> T, x: T, n: nat, k: nat)
    ensures Iterate(f, x, n + k) == Iterate(f, Iterate(f, x, n), k)
    decreases n
  {
    if n > 0 {
      IterateAdd(f, f(x), n - 1, k);
    }
  }

  lemma {:induction false} IterateFixed<T>(f: T -> T, x: T, n: nat)
    requires f(x) == x
    ensures Iterate(f, x, n) == x
    decreases n
  {
    if n > 0 {
      IterateFixed(f, x, n - 1);
    }
  }

  /** The state after `n` instructions; a stopped processor stays as it is. */
  function Steps(s: State, n: nat): State { Iterate(Step, s, n) }

  lemma StepsAdd(s: State, n: nat, k: nat)
    ensures Steps(s, n + k) == Steps(Steps(s, n), k)
  {
    IterateAdd(Step, s, n, k);
  }

  lemma Stutter(s: State, n: nat)
    requires s.st != Running
    ensures Steps(s, n) == s
  {
    IterateFixed(Step, s, n);
  }

  lemma {:induction false} FetchHeld(m: Memory, a: nat, b: seq<Byte>, n: nat)
    requires Holds(m, a, b) && |b| <= n
    ensures b <= Fetch(m, a, n)
    decreases n
  {
    if b != [] {
      HoldsSplit(m, a, [b[0]], b[1..]);
      assert b == [b[0]] + b[1..];
      FetchHeld(m, a + 1, b[1..], n - 1);
    }
  }

  lemma DecodeFetched(m: Memory, a: nat, i: Instr)
    requires Fits(i) && Holds(m, a, Encoding(i))
    ensures Decode(Fetch(m, a, 15)) == Instruction(i, |Encoding(i)|)
  {
    var b, f := Encoding(i), Fetch(m, a, 15);
    FetchHeld(m, a, b, 15);
    DecodeEncoding(i, f[|b|..]);
    assert f == b + f[|b|..];
  }

  /** One instruction, wherever it is. */
  function Adv(i: Instr, s: State): State {
    if s.st != Running then s else After(Instruction(i, |Encoding(i)|), s)
  }

  /** The processor executes the instruction whose encoding is at rip. */
  lemma StepDoes(s: State, i: Instr)
    requires s.st == Running && Fits(i) && Holds(s.mem, s.rip, Encoding(i))
    ensures Step(s) == Adv(i, s)
  {
    DecodeFetched(s.mem, s.rip, i);
  }
}
