/** The bytes of the emitted code: what each item is on the processor, the code
    with holes for addresses, and the fixups that fill the holes. */
module LccCode {
  import opened RawBytes
  import opened LccWords
  import opened LccSyntax
  import opened LccGen
  import opened LccMachine

  /** Where the strings and the locals are; unknown while code is emitted. */
  datatype Layout = Unplaced | Placed(str: nat, loc: nat)

  function Lower(i: Item, lay: Layout): (is_: seq<Instr>)
    ensures 1 <= |is_| <= 5
  {
    match i
    case SetBase => [MovR15(if lay.Unplaced? then 0 else lay.loc % W)]
    case Imm(v) => [MovRax(v)]
    case Load(n) => [LoadRax(8 * n)]
    case Store(n) => [StoreRax(8 * n)]
    case Push => [PushRax]
    case Negate => [NegRax]
    case Apply(Add) => [MovRcxRax, PopRax, AddRaxRcx]
    case Apply(Sub) => [MovRcxRax, PopRax, SubRaxRcx]
    case Apply(Mul) => [MovRcxRax, PopRax, ImulRaxRcx]
    case Apply(Div) => [MovRcxRax, PopRax, Cqo, IdivRcx]
    case Apply(Mod) => [MovRcxRax, PopRax, Cqo, IdivRcx, MovRaxRdx]
    case Print(off, len) =>
      [MovEax(1), MovEdi(1), MovRsi(if lay.Unplaced? then 0 else (lay.str + off) % W), MovEdx(len), Syscall]
    case Quit => [MovRdiRax, MovEax(60), Syscall]
  }

  /** The bytes of the elements, one after the other. */
  function FlatMap<T>(f: T -> seq<Byte>, list: seq<T>): seq<Byte> {
    if list == [] then [] else f(list[0]) + FlatMap(f, list[1..])
  }

  lemma Join(a: seq<Byte>, b: seq<Byte>, c: seq<Byte>)
    ensures a + b + c == a + (b + c)
  {
  }

  lemma {:induction false} FlatMapConcat<T>(f: T -> seq<Byte>, a: seq<T>, b: seq<T>)
    ensures FlatMap(f, a + b) == FlatMap(f, a) + FlatMap(f, b)
  {
    if a == [] {
      assert a + b == b;
      assert FlatMap(f, a) + FlatMap(f, b) == FlatMap(f, b);
    } else {
      FlatMapConcat(f, a[1..], b);
      assert (a + b)[1..] == a[1..] + b && (a + b)[0] == a[0];
      Join(f(a[0]), FlatMap(f, a[1..]), FlatMap(f, b));
    }
  }

  lemma FlatMapOne<T>(f: T -> seq<Byte>, x: T)
    ensures FlatMap(f, [x]) == f(x)
  {
    assert [x][1..] == [];
    assert f(x) + [] == f(x);
  }

  function Assemble(list: seq<Instr>): seq<Byte> { FlatMap(Encoding, list) }

  /** The bytes of one item. */
  function Emit(i: Item, lay: Layout): seq<Byte> { Assemble(Lower(i, lay)) }

  function Emitter(lay: Layout): Item -> seq<Byte> { (i: Item) => Emit(i, lay) }

  function Code(items: seq<Item>, lay: Layout): seq<Byte> { FlatMap(Emitter(lay), items) }

  lemma CodeConcat(a: seq<Item>, b: seq<Item>, lay: Layout)
    ensures Code(a + b, lay) == Code(a, lay) + Code(b, lay)
  {
    FlatMapConcat(Emitter(lay), a, b);
  }

  lemma CodeOne(i: Item, lay: Layout)
    ensures Code([i], lay) == Emit(i, lay)
  {
    FlatMapOne(Emitter(lay), i);
  }

  lemma AssembleHead(i: Instr, list: seq<Instr>)
    ensures Assemble([i] + list) == Encoding(i) + Assemble(list)
  {
    FlatMapConcat(Encoding, [i], list);
    FlatMapOne(Encoding, i);
  }

  // ----- fixups ---------------------------------------------------------------------------------

  /** A hole of eight bytes at `at`, for the locals' address or for that of a string. */
  datatype Fixup = FixBase(at: nat) | FixStr(at: nat, off: nat)

  function Target(f: Fixup, lay: Layout): Word
    requires lay.Placed?
  { (if f.FixBase? then lay.loc else lay.str + f.off) % W }

  /** The fixup of an item emitted at `at`. */
  function FixupOf(i: Item, at: nat): seq<Fixup> {
    match i
    case SetBase => [FixBase(at + 2)]
    case Print(off, _) => [FixStr(at + 12, off)]
    case _ => []
  }

  /** The fixups of items that are emitted with `f`, from `at` on. */
  function FixupsBy(f: Item -> seq<Byte>, items: seq<Item>, at: nat): seq<Fixup> {
    if items == [] then []
    else FixupOf(items[0], at) + FixupsBy(f, items[1..], at + |f(items[0])|)
  }

  function Fixups(items: seq<Item>, at: nat): seq<Fixup> { FixupsBy(Emitter(Unplaced), items, at) }

  predicate InRange(f: Fixup, n: nat) { f.at + 8 <= n }

  function Patch(code: seq<Byte>, f: Fixup, lay: Layout): (r: seq<Byte>)
    requires lay.Placed? && InRange(f, |code|)
    ensures |r| == |code|
    ensures forall k :: 0 <= k < |code| && !(f.at <= k < f.at + 8) ==> r[k] == code[k]
  { code[..f.at] + LE(Target(f, lay), 8) + code[f.at + 8..] }

  function PatchAll(code: seq<Byte>, fs: seq<Fixup>, lay: Layout): (r: seq<Byte>)
    requires lay.Placed? && forall f :: f in fs ==> InRange(f, |code|)
    ensures |r| == |code|
    decreases |fs|
  {
    if fs == [] then code else PatchAll(Patch(code, fs[0], lay), fs[1..], lay)
  }

  /** A byte outside the holes is never touched. */
  lemma {:induction false} PatchOnlyHoles(code: seq<Byte>, fs: seq<Fixup>, lay: Layout, k: nat)
    requires lay.Placed? && (forall f :: f in fs ==> InRange(f, |code|)) && k < |code|
    requires forall f :: f in fs ==> !(f.at <= k < f.at + 8)
    ensures PatchAll(code, fs, lay)[k] == code[k]
    decreases |fs|
  {
    if fs != [] {
      assert fs[0] in fs;
      PatchOnlyHoles(Patch(code, fs[0], lay), fs[1..], lay, k);
    }
  }

  /** The bytes of a `Print` before its hole, and after it. */
  function PrintHead(): (b: seq<Byte>)
    ensures |b| == 12
  { Encoding(MovEax(1)) + Encoding(MovEdi(1)) + [0x48, 0xBE] }

  function PrintTail(len: nat): seq<Byte> { Encoding(MovEdx(len)) + Encoding(Syscall) }

  lemma Regroup(a: seq<Byte>, b: seq<Byte>, p: seq<Byte>, h: seq<Byte>, t: seq<Byte>)
    ensures a + (b + (p + h + t)) == (a + b + p) + h + t
  {
  }

  lemma FlatMapFive<A>(f: A -> seq<Byte>, a: A, b: A, c: A, d: A, e: A)
    ensures FlatMap(f, [a, b, c, d, e]) == f(a) + (f(b) + (f(c) + (f(d) + f(e))))
  {
    assert [a, b, c, d, e][1..] == [b, c, d, e] && [b, c, d, e][1..] == [c, d, e] && [c, d, e][1..] == [d, e]
           && [d, e][1..] == [e];
    FlatMapOne(f, e);
    assert FlatMap(f, [d, e]) == f(d) + f(e);
    assert FlatMap(f, [c, d, e]) == f(c) + (f(d) + f(e));
    assert FlatMap(f, [b, c, d, e]) == f(b) + (f(c) + (f(d) + f(e)));
  }

  lemma PrintShape(off: nat, len: nat, lay: Layout)
    ensures Emit(Print(off, len), lay) == PrintHead() + LE(if lay.Unplaced? then 0 else (lay.str + off) % W, 8)
            + PrintTail(len)
  {
    var v: Word := if lay.Unplaced? then 0 else (lay.str + off) % W;
    var a, b, c, d, e := MovEax(1), MovEdi(1), MovRsi(v), MovEdx(len), Syscall;
    FlatMapFive(Encoding, a, b, c, d, e);
    Regroup(Encoding(a), Encoding(b), [0x48, 0xBE], LE(v, 8), PrintTail(len));
  }

  lemma BaseShape(lay: Layout)
    ensures Emit(SetBase, lay) == [0x49, 0xBF] + LE(if lay.Unplaced? then 0 else lay.loc % W, 8) + []
  {
    FlatMapOne(Encoding, Lower(SetBase, lay)[0]);
  }

  lemma PatchMiddle(pre: seq<Byte>, a: seq<Byte>, hole: seq<Byte>, b: seq<Byte>, rest: seq<Byte>, f: Fixup, lay: Layout)
    requires lay.Placed? && |hole| == 8 && f.at == |pre| + |a|
    ensures InRange(f, |pre + (a + hole + b) + rest|)
    ensures Patch(pre + (a + hole + b) + rest, f, lay) == pre + (a + LE(Target(f, lay), 8) + b) + rest
  {
    Around(pre, a, hole, b, rest);
    Around(pre, a, LE(Target(f, lay), 8), b, rest);
    Cut(pre + a, hole, b + rest);
  }

  lemma Around(pre: seq<Byte>, a: seq<Byte>, hole: seq<Byte>, b: seq<Byte>, rest: seq<Byte>)
    ensures pre + (a + hole + b) + rest == (pre + a) + hole + (b + rest)
  {
  }

  lemma Cut(x: seq<Byte>, hole: seq<Byte>, y: seq<Byte>)
    ensures (x + hole + y)[..|x|] == x && (x + hole + y)[|x| + |hole|..] == y
  {
  }

  /** Patching the hole of item `i` turns its bytes `f0(i)` into `f1(i)`. */
  ghost predicate Places(f0: Item -> seq<Byte>, f1: Item -> seq<Byte>, pre: seq<Byte>, i: Item, rest: seq<Byte>,
                         lay: Layout)
    requires lay.Placed?
  {
    var code, fs := pre + f0(i) + rest, FixupOf(i, |pre|);
    && |f0(i)| == |f1(i)|
    && if fs == [] then f0(i) == f1(i)
       else |fs| == 1 && InRange(fs[0], |code|) && Patch(code, fs[0], lay) == pre + f1(i) + rest
  }

  lemma PlaceHole(f0: Item -> seq<Byte>, f1: Item -> seq<Byte>, pre: seq<Byte>, i: Item, rest: seq<Byte>, lay: Layout,
                  a: seq<Byte>, hole: seq<Byte>, b: seq<Byte>, f: Fixup)
    requires lay.Placed? && |hole| == 8 && f0(i) == a + hole + b && f1(i) == a + LE(Target(f, lay), 8) + b
    requires FixupOf(i, |pre|) == [f] && f.at == |pre| + |a|
    ensures Places(f0, f1, pre, i, rest, lay)
  {
    PatchMiddle(pre, a, hole, b, rest, f, lay);
  }

  lemma PatchBase(pre: seq<Byte>, rest: seq<Byte>, lay: Layout)
    requires lay.Placed?
    ensures Places(Emitter(Unplaced), Emitter(lay), pre, SetBase, rest, lay)
  {
    BaseShape(Unplaced);
    BaseShape(lay);
    PlaceHole(Emitter(Unplaced), Emitter(lay), pre, SetBase, rest, lay, [0x49, 0xBF], LE(0, 8), [], FixBase(|pre| + 2));
  }

  lemma PatchPrint(pre: seq<Byte>, off: nat, len: nat, rest: seq<Byte>, lay: Layout)
    requires lay.Placed?
    ensures Places(Emitter(Unplaced), Emitter(lay), pre, Print(off, len), rest, lay)
  {
    PrintEmitted(off, len, Unplaced, 0);
    PrintEmitted(off, len, lay, Target(FixStr(|pre| + 12, off), lay));
    PlacePrint(Emitter(Unplaced), Emitter(lay), pre, off, len, rest, lay, PrintHead(), 0, PrintTail(len));
  }

  lemma PrintEmitted(off: nat, len: nat, lay: Layout, v: Word)
    requires v == if lay.Unplaced? then 0 else (lay.str + off) % W
    ensures Emitter(lay)(Print(off, len)) == PrintHead() + LE(v, 8) + PrintTail(len)
  {
    PrintShape(off, len, lay);
  }

  lemma PlacePrint(f0: Item -> seq<Byte>, f1: Item -> seq<Byte>, pre: seq<Byte>, off: nat, len: nat, rest: seq<Byte>,
                   lay: Layout,
                   h: seq<Byte>, zero: Word, t: seq<Byte>)
    requires lay.Placed? && |h| == 12 && f0(Print(off, len)) == h + LE(zero, 8) + t
    requires f1(Print(off, len)) == h + LE(Target(FixStr(|pre| + 12, off), lay), 8) + t
    ensures Places(f0, f1, pre, Print(off, len), rest, lay)
  {
    PlaceHole(f0, f1, pre, Print(off, len), rest, lay, h, LE(zero, 8), t, FixStr(|pre| + 12, off));
  }

  lemma NoHole(i: Item, lay: Layout)
    requires !i.SetBase? && !i.Print?
    ensures Lower(i, Unplaced) == Lower(i, lay)
  {
  }

  lemma PatchItem(pre: seq<Byte>, i: Item, rest: seq<Byte>, lay: Layout)
    requires lay.Placed?
    ensures Places(Emitter(Unplaced), Emitter(lay), pre, i, rest, lay)
  {
    if i.SetBase? {
      PatchBase(pre, rest, lay);
    } else if i.Print? {
      PatchPrint(pre, i.off, i.len, rest, lay);
    } else {
      NoHole(i, lay);
    }
  }

  lemma {:induction false} PatchMap(f0: Item -> seq<Byte>, f1: Item -> seq<Byte>, pre: seq<Byte>, items: seq<Item>,
                                    lay: Layout)
    requires lay.Placed? && forall pre, i, rest :: Places(f0, f1, pre, i, rest, lay)
    ensures |FlatMap(f0, items)| == |FlatMap(f1, items)|
    ensures forall f :: f in FixupsBy(f0, items, |pre|) ==> InRange(f, |pre + FlatMap(f0, items)|)
    ensures PatchAll(pre + FlatMap(f0, items), FixupsBy(f0, items, |pre|), lay) == pre + FlatMap(f1, items)
    decreases |items|
  {
    if items == [] {
      assert pre + [] == pre;
    } else {
      var i, rest := items[0], FlatMap(f0, items[1..]);
      assert Places(f0, f1, pre, i, rest, lay);
      PatchMap(f0, f1, pre + f1(i), items[1..], lay);
      PatchStep(pre, f0(i), f1(i), rest, FlatMap(f1, items[1..]), FlatMap(f0, items), FlatMap(f1, items),
                FixupOf(i, |pre|), FixupsBy(f0, items[1..], |pre + f1(i)|), lay);
    }
  }

  /** Filling the recorded holes turns the code emitted without addresses into the
      code with them. */
  lemma PatchPlaces(items: seq<Item>, lay: Layout)
    requires lay.Placed?
    ensures |Code(items, Unplaced)| == |Code(items, lay)|
    ensures forall f :: f in Fixups(items, 0) ==> InRange(f, |Code(items, Unplaced)|)
    ensures PatchAll(Code(items, Unplaced), Fixups(items, 0), lay) == Code(items, lay)
  {
    EveryItem(lay);
    PatchMap(Emitter(Unplaced), Emitter(lay), [], items, lay);
    NoPrefix(Code(items, Unplaced));
    NoPrefix(Code(items, lay));
  }

  lemma EveryItem(lay: Layout)
    requires lay.Placed?
    ensures forall pre, i, rest :: Places(Emitter(Unplaced), Emitter(lay), pre, i, rest, lay)
  {
    forall pre, i, rest ensures Places(Emitter(Unplaced), Emitter(lay), pre, i, rest, lay) {
      PatchItem(pre, i, rest, lay);
    }
  }

  lemma NoPrefix(b: seq<Byte>)
    ensures [] + b == b
  {
  }

  lemma PatchStep(pre: seq<Byte>, e0: seq<Byte>, e1: seq<Byte>, rest: seq<Byte>, rest1: seq<Byte>,
                  all: seq<Byte>, all1: seq<Byte>, fs: seq<Fixup>, later: seq<Fixup>, lay: Layout)
    requires lay.Placed? && |e0| == |e1| && |rest| == |rest1| && all == e0 + rest && all1 == e1 + rest1
    requires if fs == [] then e0 == e1
             else
               && |fs| == 1 && InRange(fs[0], |pre + e0 + rest|)
               && Patch(pre + e0 + rest, fs[0], lay) == pre + e1 + rest
    requires forall f :: f in later ==> InRange(f, |pre + e1 + rest|)
    requires PatchAll(pre + e1 + rest, later, lay) == pre + e1 + rest1
    ensures forall f :: f in fs + later ==> InRange(f, |pre + all|)
    ensures |all| == |all1| && PatchAll(pre + all, fs + later, lay) == pre + all1
  {
    Join(pre, e0, rest);
    Join(pre, e1, rest1);
    PatchFirst(pre + e0 + rest, fs, later, lay, pre + e1 + rest);
  }

  lemma PatchFirst(code: seq<Byte>, fs: seq<Fixup>, later: seq<Fixup>, lay: Layout, code': seq<Byte>)
    requires lay.Placed? && |code'| == |code| && forall f :: f in later ==> InRange(f, |code|)
    requires if fs == [] then code' == code else |fs| == 1 && InRange(fs[0], |code|) && code' == Patch(code, fs[0], lay)
    ensures (forall f :: f in fs + later ==> InRange(f, |code|))
            && PatchAll(code, fs + later, lay) == PatchAll(code', later, lay)
  {
    if fs == [] {
      assert fs + later == later;
    } else {
      assert (fs + later)[1..] == later && (fs + later)[0] == fs[0];
    }
  }
}
