/** The processor running the placed bytes does what the items say: one item at a
    time, with the stack, the locals, the strings and the code in one memory. */
module LccSim {
  import opened RawBytes
  import opened LccWords
  import opened LccSyntax
  import opened LccGen
  import opened LccMachine
  import opened LccCode

  /** Where things are: code, strings, `n` locals, and a stack of `room` words that
      ends at `top`. */
  datatype World = World(at: nat, code: seq<Byte>, str: nat, pool: seq<Byte>, loc: nat, n: nat, top: nat, room: nat)

  predicate Sound(w: World) {
    && w.at + |w.code| <= w.str && w.str + |w.pool| <= w.loc
    && w.loc + 8 * w.n + 8 * w.room <= w.top < W && w.n <= MAX_LOCALS
  }

  ghost predicate WordAt(m: Memory, a: nat, v: Word) { Holds(m, a, LE(v, 8)) }

  ghost predicate LocalsAt(m: Memory, a: nat, vals: seq<Word>) {
    forall i: nat :: i < |vals| ==> WordAt(m, a + 8 * i, vals[i])
  }

  /** The stack, bottom first, grows down from `top`. */
  ghost predicate StackAt(m: Memory, top: nat, stack: seq<Word>) {
    8 * |stack| <= top && forall i: nat :: i < |stack| ==> WordAt(m, top - 8 * (i + 1), stack[i])
  }

  ghost predicate MemOk(m: Memory, w: World, locals: seq<Word>, stack: seq<Word>) {
    && |locals| == w.n && |stack| <= w.room && 8 * w.room <= w.top
    && Holds(m, w.at, w.code) && Holds(m, w.str, w.pool)
    && LocalsAt(m, w.loc, locals) && StackAt(m, w.top, stack) && Mapped(m, w.top - 8 * w.room, 8 * w.room)
  }

  // ----- memory accesses ---------------------------------------------------------------------------------

  /** Only the `n` bytes at `at` may differ. */
  ghost predicate OnlyAt(m: Memory, m': Memory, at: nat, n: nat) {
    m'.Keys == m.Keys && forall k: nat :: k in m && !(at <= k < at + n) ==> m'[k] == m[k]
  }

  lemma PutWord(m: Memory, a: nat, v: Word)
    requires Mapped(m, a, 8)
    ensures WordAt(Put(m, a, LE(v, 8)), a, v) && OnlyAt(m, Put(m, a, LE(v, 8)), a, 8)
  {
    HoldsPut(m, a, LE(v, 8));
  }

  lemma BytesKept(m: Memory, m': Memory, a: nat, b: seq<Byte>, at: nat, n: nat)
    requires Holds(m, a, b) && OnlyAt(m, m', at, n) && (at + n <= a || a + |b| <= at)
    ensures Holds(m', a, b)
  {
  }

  lemma WordKept(m: Memory, m': Memory, a: nat, v: Word, at: nat, n: nat)
    requires WordAt(m, a, v) && OnlyAt(m, m', at, n) && (at + n <= a || a + 8 <= at)
    ensures WordAt(m', a, v)
  {
    BytesKept(m, m', a, LE(v, 8), at, n);
  }

  lemma LocalsKept(m: Memory, m': Memory, a: nat, vals: seq<Word>, at: nat, n: nat)
    requires LocalsAt(m, a, vals) && OnlyAt(m, m', at, n) && (at + n <= a || a + 8 * |vals| <= at)
    ensures LocalsAt(m', a, vals)
  {
    forall i: nat | i < |vals| ensures WordAt(m', a + 8 * i, vals[i]) {
      WordKept(m, m', a + 8 * i, vals[i], at, n);
    }
  }

  lemma StackKept(m: Memory, m': Memory, top: nat, stack: seq<Word>, at: nat, n: nat)
    requires StackAt(m, top, stack) && OnlyAt(m, m', at, n) && at + n <= top - 8 * |stack|
    ensures StackAt(m', top, stack)
  {
    forall i: nat | i < |stack| ensures WordAt(m', top - 8 * (i + 1), stack[i]) {
      WordKept(m, m', top - 8 * (i + 1), stack[i], at, n);
    }
  }

  lemma StackPush(m: Memory, top: nat, stack: seq<Word>, v: Word)
    requires StackAt(m, top, stack) && 8 * (|stack| + 1) <= top && WordAt(m, top - 8 * (|stack| + 1), v)
    ensures StackAt(m, top, stack + [v])
  {
    forall i: nat | i < |stack + [v]| ensures WordAt(m, top - 8 * (i + 1), (stack + [v])[i]) {
      if i < |stack| {
        assert WordAt(m, top - 8 * (i + 1), stack[i]);
      }
    }
  }

  lemma PushOk(m: Memory, m': Memory, w: World, locals: seq<Word>, stack: seq<Word>, v: Word)
    requires Sound(w) && MemOk(m, w, locals, stack) && |stack| < w.room
    requires OnlyAt(m, m', w.top - 8 * (|stack| + 1), 8) && WordAt(m', w.top - 8 * (|stack| + 1), v)
    ensures MemOk(m', w, locals, stack + [v])
  {
    var a := w.top - 8 * (|stack| + 1);
    BytesKept(m, m', w.at, w.code, a, 8);
    BytesKept(m, m', w.str, w.pool, a, 8);
    LocalsKept(m, m', w.loc, locals, a, 8);
    StackKept(m, m', w.top, stack, a, 8);
    StackPush(m', w.top, stack, v);
  }

  lemma LocalsStore(m: Memory, m': Memory, a: nat, vals: seq<Word>, n: nat, v: Word)
    requires LocalsAt(m, a, vals) && n < |vals| && OnlyAt(m, m', a + 8 * n, 8) && WordAt(m', a + 8 * n, v)
    ensures LocalsAt(m', a, vals[n := v])
  {
    forall i: nat | i < |vals| ensures WordAt(m', a + 8 * i, vals[n := v][i]) {
      if i != n {
        WordKept(m, m', a + 8 * i, vals[i], a + 8 * n, 8);
      }
    }
  }

  lemma ReadWord(m: Memory, a: nat, v: Word)
    requires WordAt(m, a, v)
    ensures Mapped(m, a, 8) && Word8(Read(m, a, 8)) == v
  {
    ReadHeld(m, a, LE(v, 8));
    LERound8(v);
  }

  lemma PopOk(m: Memory, w: World, locals: seq<Word>, stack: seq<Word>)
    requires Sound(w) && MemOk(m, w, locals, stack) && stack != []
    ensures MemOk(m, w, locals, stack[..|stack| - 1]) && WordAt(m, w.top - 8 * |stack|, stack[|stack| - 1])
  {
    assert WordAt(m, w.top - 8 * ((|stack| - 1) + 1), stack[|stack| - 1]);
  }

  lemma StoreOk(m: Memory, m': Memory, w: World, locals: seq<Word>, stack: seq<Word>, n: nat, v: Word)
    requires Sound(w) && MemOk(m, w, locals, stack) && n < |locals|
    requires OnlyAt(m, m', w.loc + 8 * n, 8) && WordAt(m', w.loc + 8 * n, v)
    ensures MemOk(m', w, locals[n := v], stack)
  {
    var a := w.loc + 8 * n;
    BytesKept(m, m', w.at, w.code, a, 8);
    BytesKept(m, m', w.str, w.pool, a, 8);
    LocalsStore(m, m', w.loc, locals, n, v);
    StackKept(m, m', w.top, stack, a, 8);
  }

  // ----- runs of instructions ----------------------------------------------------------------------------

  function Along<I, S>(g: (I, S) -> S, list: seq<I>, s: S): S
    decreases |list|
  { if list == [] then s else Along(g, list[1..], g(list[0], s)) }

  /** Along the list, `f` does what `g` does with the list's element. */
  predicate Tracks<I, S(==)>(f: S -> S, g: (I, S) -> S, list: seq<I>, s: S)
    decreases |list|
  { list == [] || (f(s) == g(list[0], s) && Tracks(f, g, list[1..], g(list[0], s))) }

  lemma {:induction false} TracksRun<I, S>(f: S -> S, g: (I, S) -> S, list: seq<I>, s: S)
    requires Tracks(f, g, list, s)
    ensures Iterate(f, s, |list|) == Along(g, list, s)
    decreases |list|
  {
    if list != [] {
      TracksRun(f, g, list[1..], g(list[0], s));
    }
  }

  lemma {:induction false} AlongFixed<I, S>(g: (I, S) -> S, list: seq<I>, s: S)
    requires forall i :: g(i, s) == s
    ensures Along(g, list, s) == s
    decreases |list|
  {
    if list != [] {
      AlongFixed(g, list[1..], s);
    }
  }

  lemma {:induction false} TracksFixed<I, S>(f: S -> S, g: (I, S) -> S, list: seq<I>, s: S)
    requires f(s) == s && forall i :: g(i, s) == s
    ensures Tracks(f, g, list, s)
    decreases |list|
  {
    if list != [] {
      TracksFixed(f, g, list[1..], s);
    }
  }

  lemma AlongHead<I, S>(g: (I, S) -> S, list: seq<I>, s: S)
    ensures list == [] ==> Along(g, list, s) == s
    ensures list != [] ==> Along(g, list, s) == Along(g, list[1..], g(list[0], s))
  {
  }

  lemma TracksHead<I, S>(f: S -> S, g: (I, S) -> S, list: seq<I>, s: S)
    requires list != [] && f(s) == g(list[0], s) && Tracks(f, g, list[1..], g(list[0], s))
    ensures Tracks(f, g, list, s)
  {
  }

  /** A list of instructions, one after the other. */
  function AdvAll(list: seq<Instr>, s: State): State { Along(Adv, list, s) }

  predicate Writes(i: Instr) { i.PushRax? || i.StoreRax? }

  lemma Quiet(i: Instr, s: State)
    ensures Adv(i, s).st == Running ==> s.st == Running && Adv(i, s).rip == s.rip + |Encoding(i)|
    ensures !Writes(i) ==> Adv(i, s).mem == s.mem
  {
  }

  /** Bytes at rip that only write memory with their last instruction are executed
      one by one. */
  lemma {:induction false} StepsTrack(list: seq<Instr>, s: State)
    requires Holds(s.mem, s.rip, Assemble(list)) && (forall i :: i in list ==> Fits(i))
    requires forall k :: 0 <= k < |list| - 1 ==> !Writes(list[k])
    ensures Tracks(Step, Adv, list, s)
    ensures AdvAll(list, s).st == Running ==> AdvAll(list, s).rip == s.rip + |Assemble(list)|
    decreases |list|, 1
  {
    if s.st != Running {
      TracksFixed(Step, Adv, list, s);
      AlongFixed(Adv, list, s);
    } else if list != [] {
      StepFirst(list, s);
      AlongHead(Adv, list, s);
      TailTracks(list, s, Adv(list[0], s));
      TracksHead(Step, Adv, list, s);
    }
  }

  lemma {:induction false} TailTracks(list: seq<Instr>, s: State, t: State)
    requires list != [] && Holds(s.mem, s.rip + |Encoding(list[0])|, Assemble(list[1..]))
             && (forall i :: i in list ==> Fits(i))
    requires forall k :: 0 <= k < |list| - 1 ==> !Writes(list[k])
    requires (t.st == Running ==> t.rip == s.rip + |Encoding(list[0])|) && (!Writes(list[0]) ==> t.mem == s.mem)
    ensures Tracks(Step, Adv, list[1..], t)
    ensures AdvAll(list[1..], t).st == Running ==>
              t.st == Running && AdvAll(list[1..], t).rip == t.rip + |Assemble(list[1..])|
    decreases |list|, 0
  {
    if t.st != Running {
      TracksFixed(Step, Adv, list[1..], t);
      AlongFixed(Adv, list[1..], t);
    } else if !Writes(list[0]) {
      StepsTrack(list[1..], t);
    } else {
      AlongHead(Adv, list[1..], t);
    }
  }

  lemma StepsAdv(list: seq<Instr>, s: State)
    requires Holds(s.mem, s.rip, Assemble(list)) && (forall i :: i in list ==> Fits(i))
    requires forall k :: 0 <= k < |list| - 1 ==> !Writes(list[k])
    ensures Steps(s, |list|) == AdvAll(list, s)
    ensures AdvAll(list, s).st == Running ==> AdvAll(list, s).rip == s.rip + |Assemble(list)|
  {
    StepsTrack(list, s);
    TracksRun(Step, Adv, list, s);
  }

  lemma StepFirst(list: seq<Instr>, s: State)
    requires list != [] && s.st == Running && Holds(s.mem, s.rip, Assemble(list)) && Fits(list[0])
    ensures var i, t, e := list[0], Adv(list[0], s), |Encoding(list[0])|;
            && Step(s) == t && |Assemble(list)| == e + |Assemble(list[1..])|
            && Holds(s.mem, s.rip + e, Assemble(list[1..]))
            && (t.st == Running ==> t.rip == s.rip + e) && (!Writes(i) ==> t.mem == s.mem)
  {
    var i, rest := list[0], list[1..];
    assert list == [i] + rest;
    AssembleHead(i, rest);
    HoldsSplit(s.mem, s.rip, Encoding(i), Assemble(rest));
    StepDoes(s, i);
    Quiet(i, s);
  }

  lemma Adv1(a: Instr, s: State)
    ensures AdvAll([a], s) == Adv(a, s)
  {
    AlongHead(Adv, [a], s);
    AlongHead(Adv, [a][1..], Adv(a, s));
  }

  lemma AdvHead(a: Instr, list: seq<Instr>, s: State)
    ensures AdvAll([a] + list, s) == AdvAll(list, Adv(a, s))
  {
    AlongHead(Adv, [a] + list, s);
    assert ([a] + list)[1..] == list;
  }

  // ----- one item ------------------------------------------------------------------------------------------

  /** The machine shows what the item machine shows, and while it runs holds the
      same accumulator, stack and locals. */
  ghost predicate Sim(c: Cpu, s: State, w: World) {
    && s.out == c.out && s.st == c.st
    && (c.st == Running ==> && s.rax == c.rax && s.r15 == w.loc && s.rsp == w.top - 8 * |c.stack|
                            && MemOk(s.mem, w, c.locals, c.stack))
  }

  lemma LocalAddress(w: World, n: nat)
    requires Sound(w) && n < w.n
    ensures ToWord(w.loc + SignExtend(8 * n)) == w.loc + 8 * n
  {
  }

  /** `t` runs on from `s` with this accumulator, stack pointer and memory. */
  predicate Same(s: State, t: State, rax: Word, rsp: Word, m: Memory) {
    t.st == s.st && t.out == s.out && t.r15 == s.r15 && t.rax == rax && t.rsp == rsp && t.mem == m
  }

  lemma SimSame(c: Cpu, s: State, t: State, w: World, c': Cpu)
    requires Sim(c, s, w) && c.st == Running && c'.st == c.st && c'.out == c.out
    requires Same(s, t, c'.rax, t.rsp, t.mem) && t.rsp == w.top - 8 * |c'.stack| && MemOk(t.mem, w, c'.locals, c'.stack)
    ensures Sim(c', t, w)
  {
  }

  lemma LoadDoes(s: State, d: nat, a: nat)
    requires s.st == Running && a == ToWord(s.r15 + SignExtend(d)) && Mapped(s.mem, a, 8)
    ensures Same(s, Adv(LoadRax(d), s), Word8(Read(s.mem, a, 8)), s.rsp, s.mem)
  {
  }

  lemma StoreDoes(s: State, d: nat, a: nat)
    requires s.st == Running && a == ToWord(s.r15 + SignExtend(d)) && Mapped(s.mem, a, 8)
    ensures Same(s, Adv(StoreRax(d), s), s.rax, s.rsp, Put(s.mem, a, LE(s.rax, 8)))
  {
  }

  lemma SimLoad(n: nat, c: Cpu, s: State, w: World)
    requires Sound(w) && Sim(c, s, w) && c.st == Running && n < |c.locals|
    ensures Sim(Exec(Load(n), c, w.pool), Adv(LoadRax(8 * n), s), w)
  {
    LoadFrom(n, c.locals[n], s, w);
    SimSame(c, s, Adv(LoadRax(8 * n), s), w, Exec(Load(n), c, w.pool));
  }

  lemma LoadFrom(n: nat, v: Word, s: State, w: World)
    requires Sound(w) && s.st == Running && s.r15 == w.loc && n < w.n && WordAt(s.mem, w.loc + 8 * n, v)
    ensures Same(s, Adv(LoadRax(8 * n), s), v, s.rsp, s.mem)
  {
    LocalAddress(w, n);
    ReadWord(s.mem, w.loc + 8 * n, v);
    LoadDoes(s, 8 * n, w.loc + 8 * n);
  }

  lemma AfterStore(n: nat, c: Cpu, s: State, t: State, w: World)
    requires Sound(w) && Sim(c, s, w) && c.st == Running && n < |c.locals| && Same(s, t, s.rax, s.rsp, t.mem)
    requires OnlyAt(s.mem, t.mem, w.loc + 8 * n, 8) && WordAt(t.mem, w.loc + 8 * n, s.rax)
    ensures Sim(Exec(Store(n), c, w.pool), t, w)
  {
    StoreOk(s.mem, t.mem, w, c.locals, c.stack, n, s.rax);
  }

  lemma StoreTo(n: nat, v: Word, s: State, w: World)
    requires Sound(w) && s.st == Running && s.r15 == w.loc && n < w.n && WordAt(s.mem, w.loc + 8 * n, v)
    ensures var a, t := w.loc + 8 * n, Adv(StoreRax(8 * n), s);
            Same(s, t, s.rax, s.rsp, t.mem) && OnlyAt(s.mem, t.mem, a, 8) && WordAt(t.mem, a, s.rax)
  {
    var a := w.loc + 8 * n;
    LocalAddress(w, n);
    ReadWord(s.mem, a, v);
    PutWord(s.mem, a, s.rax);
    StoreDoes(s, 8 * n, a);
  }

  lemma SimStore(n: nat, c: Cpu, s: State, w: World)
    requires Sound(w) && Sim(c, s, w) && c.st == Running && n < |c.locals|
    ensures Sim(Exec(Store(n), c, w.pool), Adv(StoreRax(8 * n), s), w)
  {
    StoreTo(n, c.locals[n], s, w);
    AfterStore(n, c, s, Adv(StoreRax(8 * n), s), w);
  }

  lemma SimPush(c: Cpu, s: State, w: World)
    requires Sound(w) && Sim(c, s, w) && c.st == Running && |c.stack| < w.room
    ensures Sim(Exec(Push, c, w.pool), Adv(PushRax, s), w)
  {
    PushRoom(s.mem, w, c.locals, c.stack);
    PushDoes(s, w.top - 8 * (|c.stack| + 1));
    AfterPush(c, s, Adv(PushRax, s), w);
  }

  lemma AfterPush(c: Cpu, s: State, t: State, w: World)
    requires Sound(w) && Sim(c, s, w) && c.st == Running && |c.stack| < w.room
    requires var a := w.top - 8 * (|c.stack| + 1);
             0 <= a && Mapped(s.mem, a, 8) && Same(s, t, s.rax, a, Put(s.mem, a, LE(s.rax, 8)))
    ensures Sim(Exec(Push, c, w.pool), t, w)
  {
    PutWord(s.mem, w.top - 8 * (|c.stack| + 1), s.rax);
    PushOk(s.mem, t.mem, w, c.locals, c.stack, s.rax);
    SimSame(c, s, t, w, Exec(Push, c, w.pool));
  }

  lemma PushRoom(m: Memory, w: World, locals: seq<Word>, stack: seq<Word>)
    requires Sound(w) && MemOk(m, w, locals, stack) && |stack| < w.room
    ensures 8 <= w.top - 8 * |stack| && Mapped(m, w.top - 8 * (|stack| + 1), 8)
  {
  }

  lemma PushDoes(s: State, a: nat)
    requires s.st == Running && a + 8 == s.rsp && Mapped(s.mem, a, 8)
    ensures Same(s, Adv(PushRax, s), s.rax, a, Put(s.mem, a, LE(s.rax, 8)))
  {
  }

  /** `mov rcx, rax; pop rax`: the operands are where the operation wants them. */
  lemma Operands(c: Cpu, s: State, w: World)
    requires Sound(w) && Sim(c, s, w) && c.st == Running && c.stack != []
    ensures var s2 := Adv(PopRax, Adv(MovRcxRax, s)); var n := |c.stack| - 1;
            && s2.st == Running && s2.rcx == c.rax && s2.rax == c.stack[n] && s2.out == c.out && s2.r15 == w.loc
            && s2.rsp == w.top - 8 * n && MemOk(s2.mem, w, c.locals, c.stack[..n])
  {
    PopTop(s.mem, w, c.locals, c.stack, s.rsp);
    PopDoes(s, c.stack[|c.stack| - 1]);
    AfterPop(c, s, Adv(PopRax, Adv(MovRcxRax, s)), w);
  }

  lemma PopTop(m: Memory, w: World, locals: seq<Word>, stack: seq<Word>, rsp: nat)
    requires Sound(w) && MemOk(m, w, locals, stack) && stack != [] && rsp == w.top - 8 * |stack|
    ensures Mapped(m, rsp, 8) && Word8(Read(m, rsp, 8)) == stack[|stack| - 1] && rsp + 8 < W
  {
    PopOk(m, w, locals, stack);
    ReadWord(m, rsp, stack[|stack| - 1]);
  }

  lemma AfterPop(c: Cpu, s: State, t: State, w: World)
    requires Sound(w) && Sim(c, s, w) && c.st == Running && c.stack != []
    requires s.rsp + 8 < W && Same(s, t, c.stack[|c.stack| - 1], s.rsp + 8, s.mem) && t.rcx == s.rax
    ensures var n := |c.stack| - 1;
            && t.st == Running && t.rcx == c.rax && t.rax == c.stack[n] && t.out == c.out && t.r15 == w.loc
            && t.rsp == w.top - 8 * n && MemOk(t.mem, w, c.locals, c.stack[..n])
  {
    PopOk(s.mem, w, c.locals, c.stack);
  }

  lemma PopDoes(s: State, v: Word)
    requires s.st == Running && Mapped(s.mem, s.rsp, 8) && Word8(Read(s.mem, s.rsp, 8)) == v && s.rsp + 8 < W
    ensures var t := Adv(PopRax, Adv(MovRcxRax, s)); Same(s, t, v, s.rsp + 8, s.mem) && t.rcx == s.rax
  {
  }

  lemma WrapAround(x: int, k: int)
    ensures ToWord(x + k * W) == ToWord(x)
  {
  }

  /** The low 64 bits of a product do not depend on signs. */
  lemma SignedProduct(x: Word, y: Word)
    ensures ToWord(Signed(x) * Signed(y)) == ToWord(x * y)
  {
    var a, b := Signed(x), Signed(y);
    if x >= HALF && y >= HALF {
      assert a * b == x * y + (W - x - y) * W;
      WrapAround(x * y, W - x - y);
    } else if x >= HALF {
      assert a * b == x * y + (0 - y) * W;
      WrapAround(x * y, 0 - y);
    } else if y >= HALF {
      assert a * b == x * y + (0 - x) * W;
      WrapAround(x * y, 0 - x);
    }
  }

  /** Sign extension makes the dividend rdx:rax the signed value of rax. */
  lemma Dividend(x: Word)
    ensures Signed(if x < HALF then 0 else W - 1) * W + x == Signed(x)
  {
  }

  lemma SimDivide(x: Word, y: Word, s: State)
    requires s.st == Running && s.rax == x && s.rcx == y
    ensures var s2 := Adv(IdivRcx, Adv(Cqo, s));
            && s2.out == s.out && s2.r15 == s.r15 && s2.rsp == s.rsp && s2.mem == s.mem
            && (CanDivide(x, y) ==> && s2.st == Running && s2.rax == ToWord(Quotient(Signed(x), Signed(y)))
                                    && s2.rdx == ToWord(Remainder(Signed(x), Signed(y))))
            && (!CanDivide(x, y) ==> s2.st == Trapped)
  {
    Dividend(x);
    if y != 0 {
      QuotientFits(x, y);
    }
  }

  lemma SimOp(op: Op, c: Cpu, s: State, t: State, w: World, v: Word)
    requires c.st == Running && c.stack != [] && Compute(op, c.stack[|c.stack| - 1], c.rax) == V(v)
    requires s.st == Running && s.out == c.out && s.r15 == w.loc && s.rsp == w.top - 8 * (|c.stack| - 1)
    requires MemOk(s.mem, w, c.locals, c.stack[..|c.stack| - 1])
    requires Same(s, t, v, s.rsp, s.mem)
    ensures Sim(Exec(Apply(op), c, w.pool), t, w)
  {
  }

  lemma SimTrap(op: Op, c: Cpu, t: State, w: World)
    requires c.st == Running && c.stack != [] && Compute(op, c.stack[|c.stack| - 1], c.rax) == Fault
    requires t.st == Trapped && t.out == c.out
    ensures Sim(Exec(Apply(op), c, w.pool), t, w)
  {
  }

  function Arithmetic(op: Op): Instr { if op == Add then AddRaxRcx else if op == Sub then SubRaxRcx else ImulRaxRcx }

  lemma ArithmeticDoes(op: Op, s: State)
    requires s.st == Running && (op == Add || op == Sub || op == Mul)
    ensures Compute(op, s.rax, s.rcx).V? && Same(s, Adv(Arithmetic(op), s), Compute(op, s.rax, s.rcx).w, s.rsp, s.mem)
  {
    SignedProduct(s.rax, s.rcx);
  }

  lemma AdvArithmetic(op: Op, s: State, lay: Layout)
    requires op == Add || op == Sub || op == Mul
    ensures AdvAll(Lower(Apply(op), lay), s) == Adv(Arithmetic(op), Adv(PopRax, Adv(MovRcxRax, s)))
  {
    var i := Arithmetic(op);
    assert Lower(Apply(op), lay) == [MovRcxRax] + ([PopRax] + [i]);
    AdvHead(MovRcxRax, [PopRax] + [i], s);
    AdvHead(PopRax, [i], Adv(MovRcxRax, s));
    Adv1(i, Adv(PopRax, Adv(MovRcxRax, s)));
  }

  lemma SimArithmetic(op: Op, c: Cpu, s: State, w: World, lay: Layout)
    requires Sound(w) && Sim(c, s, w) && c.st == Running && c.stack != [] && (op == Add || op == Sub || op == Mul)
    ensures Sim(Exec(Apply(op), c, w.pool), AdvAll(Lower(Apply(op), lay), s), w)
  {
    var t := Adv(PopRax, Adv(MovRcxRax, s));
    AdvArithmetic(op, s, lay);
    Operands(c, s, w);
    ArithmeticDoes(op, t);
    SimOp(op, c, t, Adv(Arithmetic(op), t), w, Compute(op, t.rax, t.rcx).w);
  }

  lemma SimDivision(op: Op, c: Cpu, s: State, w: World, lay: Layout)
    requires Sound(w) && Sim(c, s, w) && c.st == Running && c.stack != [] && (op == Div || op == Mod)
    ensures Sim(Exec(Apply(op), c, w.pool), AdvAll(Lower(Apply(op), lay), s), w)
  {
    var x, y := c.stack[|c.stack| - 1], c.rax;
    var s1 := Adv(MovRcxRax, s);
    var s2 := Adv(PopRax, s1);
    var s3 := Adv(Cqo, s2);
    var s4 := Adv(IdivRcx, s3);
    var last := if op == Div then [] else [MovRaxRdx];
    assert Lower(Apply(op), lay) == [MovRcxRax] + ([PopRax] + ([Cqo] + ([IdivRcx] + last)));
    AdvHead(MovRcxRax, [PopRax] + ([Cqo] + ([IdivRcx] + last)), s);
    AdvHead(PopRax, [Cqo] + ([IdivRcx] + last), s1);
    AdvHead(Cqo, [IdivRcx] + last, s2);
    AdvHead(IdivRcx, last, s3);
    Operands(c, s, w);
    SimDivide(x, y, s2);
    AfterDivide(op, c, s2, s4, w);
  }

  lemma AfterDivide(op: Op, c: Cpu, s: State, t: State, w: World)
    requires c.st == Running && c.stack != [] && (op == Div || op == Mod)
    requires s.st == Running && s.out == c.out && s.r15 == w.loc && s.rsp == w.top - 8 * (|c.stack| - 1)
    requires MemOk(s.mem, w, c.locals, c.stack[..|c.stack| - 1])
    requires t.out == s.out && t.r15 == s.r15 && t.rsp == s.rsp && t.mem == s.mem
    requires var x, y := c.stack[|c.stack| - 1], c.rax;
             && (CanDivide(x, y) ==> && t.st == Running && t.rax == ToWord(Quotient(Signed(x), Signed(y)))
                                     && t.rdx == ToWord(Remainder(Signed(x), Signed(y))))
             && (!CanDivide(x, y) ==> t.st == Trapped)
    ensures Sim(Exec(Apply(op), c, w.pool), AdvAll(if op == Div then [] else [MovRaxRdx], t), w)
  {
    var x, y := c.stack[|c.stack| - 1], c.rax;
    var u := if op == Div then t else Adv(MovRaxRdx, t);
    if op == Div {
      AlongHead(Adv, [], t);
    } else {
      Adv1(MovRaxRdx, t);
    }
    if CanDivide(x, y) {
      SimOp(op, c, s, u, w, Compute(op, x, y).w);
    } else {
      SimTrap(op, c, u, w);
    }
  }

  lemma SliceHeld(m: Memory, a: nat, b: seq<Byte>, off: nat, len: nat)
    requires Holds(m, a, b) && off + len <= |b|
    ensures Mapped(m, a + off, len) && Read(m, a + off, len) == b[off..off + len]
  {
    var y := b[off..off + len];
    forall k: nat | a + off <= k < a + off + len ensures k in m && m[k] == y[k - (a + off)] {
      assert b[k - a] == y[k - (a + off)];
    }
    ReadHeld(m, a + off, y);
  }

  /** The registers before a call: number and arguments. */
  lemma PrintArguments(s: State, addr: Word, len: nat)
    requires s.st == Running && len < 0x1_0000_0000
    ensures var t := Adv(MovEdx(len), Adv(MovRsi(addr), Adv(MovEdi(1), Adv(MovEax(1), s))));
            && t.st == Running && t.rax == 1 && t.rdi == 1 && t.rsi == addr && t.rdx == len
            && t.out == s.out && t.r15 == s.r15 && t.rsp == s.rsp && t.mem == s.mem
  {
  }

  lemma CallWrites(s: State, text: seq<Byte>)
    requires s.st == Running && s.rax == 1 && s.rdi == 1 && s.rdx == |text|
    requires Mapped(s.mem, s.rsi, s.rdx) && Read(s.mem, s.rsi, s.rdx) == text
    ensures var t := Adv(Syscall, s);
            t.st == Running && t.out == s.out + text && t.r15 == s.r15 && t.rax == s.rdx && t.rsp == s.rsp
              && t.mem == s.mem
  {
  }

  lemma AdvPrint(addr: Word, len: nat, s: State)
    ensures AdvAll([MovEax(1), MovEdi(1), MovRsi(addr), MovEdx(len), Syscall], s) ==
            Adv(Syscall, Adv(MovEdx(len), Adv(MovRsi(addr), Adv(MovEdi(1), Adv(MovEax(1), s)))))
  {
    var a, b, c, d := MovEax(1), MovEdi(1), MovRsi(addr), MovEdx(len);
    var s1 := Adv(a, s);
    var s2 := Adv(b, s1);
    var s3 := Adv(c, s2);
    assert [a, b, c, d, Syscall] == [a] + ([b] + ([c] + ([d] + [Syscall])));
    AdvHead(a, [b] + ([c] + ([d] + [Syscall])), s);
    AdvHead(b, [c] + ([d] + [Syscall]), s1);
    AdvHead(c, [d] + [Syscall], s2);
    AdvHead(d, [Syscall], s3);
    Adv1(Syscall, Adv(d, s3));
  }

  lemma PrintDoes(addr: Word, s: State, text: seq<Byte>)
    requires s.st == Running && |text| < 0x1_0000_0000 && Mapped(s.mem, addr, |text|)
             && Read(s.mem, addr, |text|) == text
    ensures var t := AdvAll([MovEax(1), MovEdi(1), MovRsi(addr), MovEdx(|text|), Syscall], s);
            && t.st == Running && t.out == s.out + text && t.r15 == s.r15 && t.rax == |text|
            && t.rsp == s.rsp && t.mem == s.mem
  {
    AdvPrint(addr, |text|, s);
    PrintArguments(s, addr, |text|);
    CallWrites(Adv(MovEdx(|text|), Adv(MovRsi(addr), Adv(MovEdi(1), Adv(MovEax(1), s)))), text);
  }

  lemma Printed(c: Cpu, s: State, t: State, w: World, off: nat, len: nat)
    requires Sim(c, s, w) && c.st == Running && off + len <= |w.pool| && len < 0x1_0000_0000
    requires t.st == Running && t.out == s.out + w.pool[off..off + len] && t.r15 == s.r15 && t.rax == len
    requires t.rsp == s.rsp && t.mem == s.mem
    ensures Sim(Exec(Print(off, len), c, w.pool), t, w)
  {
  }

  lemma SimPrint(off: nat, len: nat, c: Cpu, s: State, w: World)
    requires Sound(w) && Sim(c, s, w) && c.st == Running && off + len <= |w.pool| && len < 0x1_0000_0000
    ensures Sim(Exec(Print(off, len), c, w.pool), AdvAll(Lower(Print(off, len), Placed(w.str, w.loc)), s), w)
  {
    SliceHeld(s.mem, w.str, w.pool, off, len);
    PrintDoes(w.str + off, s, w.pool[off..off + len]);
    LowerPrint(off, len, w);
    Printed(c, s, AdvAll(Lower(Print(off, len), Placed(w.str, w.loc)), s), w, off, len);
  }

  lemma LowerPrint(off: nat, len: nat, w: World)
    requires Sound(w) && off + len <= |w.pool|
    ensures Lower(Print(off, len), Placed(w.str, w.loc)) == [MovEax(1), MovEdi(1), MovRsi(w.str + off), MovEdx(len),
                                                             Syscall]
  {
  }

  lemma QuitArguments(s: State)
    requires s.st == Running
    ensures var t := Adv(Syscall, Adv(MovEax(60), Adv(MovRdiRax, s))); t.st == Halted(s.rax) && t.out == s.out
  {
  }

  lemma SimQuit(c: Cpu, s: State, w: World, lay: Layout)
    requires Sim(c, s, w) && c.st == Running
    ensures Sim(Exec(Quit, c, w.pool), AdvAll(Lower(Quit, lay), s), w)
  {
    var s1 := Adv(MovRdiRax, s);
    assert Lower(Quit, lay) == [MovRdiRax] + ([MovEax(60)] + [Syscall]);
    AdvHead(MovRdiRax, [MovEax(60)] + [Syscall], s);
    AdvHead(MovEax(60), [Syscall], s1);
    Adv1(Syscall, Adv(MovEax(60), s1));
    QuitArguments(s);
  }

  lemma SimSimple(i: Item, c: Cpu, s: State, w: World, lay: Layout)
    requires Sound(w) && Sim(c, s, w) && c.st == Running && Ready(i, c, w.pool) && (i == Push ==> |c.stack| < w.room)
    requires i.Imm? || i.Load? || i.Store? || i.Push? || i.Negate?
    ensures Sim(Exec(i, c, w.pool), AdvAll(Lower(i, lay), s), w)
  {
    Adv1(Lower(i, lay)[0], s);
    match i
    case Load(n) => SimLoad(n, c, s, w);
    case Store(n) => SimStore(n, c, s, w);
    case Push => SimPush(c, s, w);
    case _ =>
  }

  /** Items that are not the prologue. */
  lemma SimItem(i: Item, c: Cpu, s: State, w: World)
    requires Sound(w) && Sim(c, s, w) && c.st == Running && Ready(i, c, w.pool)
    requires i != SetBase && (i == Push ==> |c.stack| < w.room) && (i.Print? ==> i.len < 0x1_0000_0000)
    ensures Sim(Exec(i, c, w.pool), AdvAll(Lower(i, Placed(w.str, w.loc)), s), w)
  {
    var lay := Placed(w.str, w.loc);
    match i
    case Apply(op) =>
      if op == Div || op == Mod {
        SimDivision(op, c, s, w, lay);
      } else {
        SimArithmetic(op, c, s, w, lay);
      }
    case Print(off, len) => SimPrint(off, len, c, s, w);
    case Quit => SimQuit(c, s, w, lay);
    case _ => SimSimple(i, c, s, w, lay);
  }

  // ----- whole runs ---------------------------------------------------------------------------------------------

  /** Operands fit their encodings. */
  predicate Small(i: Item) {
    match i
    case Load(n) => n < MAX_LOCALS
    case Store(n) => n < MAX_LOCALS
    case Print(_, len) => len < 0x1_0000_0000
    case _ => true
  }

  lemma LowerFits(i: Item, lay: Layout)
    requires Small(i)
    ensures forall x :: x in Lower(i, lay) ==> Fits(x)
    ensures forall k :: 0 <= k < |Lower(i, lay)| - 1 ==> !Writes(Lower(i, lay)[k])
  {
  }

  /** Number of instructions of the items. */
  function Count(items: seq<Item>): nat {
    if items == [] then 0 else |Lower(items[0], Unplaced)| + Count(items[1..])
  }

  lemma SameCount(i: Item, lay: Layout)
    ensures |Lower(i, lay)| == |Lower(i, Unplaced)|
  {
  }

  lemma CodeHead(items: seq<Item>, lay: Layout)
    requires items != []
    ensures Code(items, lay) == Emit(items[0], lay) + Code(items[1..], lay)
  {
    assert items == [items[0]] + items[1..];
    CodeConcat([items[0]], items[1..], lay);
    CodeOne(items[0], lay);
  }

  /** The bytes of the item at hand are at rip. */
  lemma ItemHeld(w: World, m: Memory, pre: seq<Byte>, e: seq<Byte>, rest: seq<Byte>)
    requires Holds(m, w.at, w.code) && w.code == pre + (e + rest)
    ensures Holds(m, w.at + |pre|, e)
  {
    HoldsSplit(m, w.at, pre, e + rest);
    HoldsSplit(m, w.at + |pre|, e, rest);
  }

  /** The instructions of one item, run from its bytes. */
  lemma ItemSteps(i: Item, c: Cpu, s: State, w: World)
    requires Sound(w) && Sim(c, s, w) && c.st == Running && Ready(i, c, w.pool) && Small(i)
    requires i != SetBase && |c.stack| < w.room && Holds(s.mem, s.rip, Emit(i, Placed(w.str, w.loc)))
    ensures var t := Steps(s, |Lower(i, Unplaced)|);
            Sim(Exec(i, c, w.pool), t, w) && (t.st == Running ==> t.rip == s.rip + |Emit(i, Placed(w.str, w.loc))|)
  {
    var lay := Placed(w.str, w.loc);
    LowerFits(i, lay);
    SameCount(i, lay);
    StepsAdv(Lower(i, lay), s);
    SimItem(i, c, s, w);
  }

  lemma StackGrows(i: Item, c: Cpu, pool: seq<Byte>)
    requires Ready(i, c, pool)
    ensures |Exec(i, c, pool).stack| <= |c.stack| + 1
  {
  }

  /** The first of the items, after `pre` in the code. */
  lemma FirstSteps(items: seq<Item>, c: Cpu, s: State, w: World, pre: seq<Byte>)
    requires Sound(w) && Sim(c, s, w) && c.st == Running && items != [] && Ready(items[0], c, w.pool)
             && |c.stack| < w.room
    requires Small(items[0]) && items[0] != SetBase
    requires w.code == pre + Code(items, Placed(w.str, w.loc)) && s.rip == w.at + |pre|
    ensures var t, e := Steps(s, |Lower(items[0], Unplaced)|), Emit(items[0], Placed(w.str, w.loc));
            && Sim(Exec(items[0], c, w.pool), t, w) && (t.st == Running ==> t.rip == w.at + |pre + e|)
            && w.code == pre + e + Code(items[1..], Placed(w.str, w.loc))
  {
    var lay := Placed(w.str, w.loc);
    CodeHead(items, lay);
    FirstItem(items[0], c, s, w, pre, Emit(items[0], lay), Code(items[1..], lay));
  }

  lemma FirstItem(i: Item, c: Cpu, s: State, w: World, pre: seq<Byte>, e: seq<Byte>, after: seq<Byte>)
    requires Sound(w) && Sim(c, s, w) && c.st == Running && Ready(i, c, w.pool) && |c.stack| < w.room
    requires Small(i) && i != SetBase && e == Emit(i, Placed(w.str, w.loc))
    requires w.code == pre + (e + after) && s.rip == w.at + |pre|
    ensures var t := Steps(s, |Lower(i, Unplaced)|);
            Sim(Exec(i, c, w.pool), t, w) && (t.st == Running ==> t.rip == w.at + |pre + e|)
              && w.code == pre + e + after
  {
    assert Holds(s.mem, s.rip, e) by {
      ItemHeld(w, s.mem, pre, e, after);
    }
    ItemSteps(i, c, s, w);
    assert w.code == pre + e + after && |pre + e| == |pre| + |e| by {
      Join(pre, e, after);
    }
  }

  lemma RunHead(items: seq<Item>, c: Cpu, pool: seq<Byte>)
    requires RunsOk(items, c, pool) && items != [] && c.st == Running
    ensures Ready(items[0], c, pool) && RunsOk(items[1..], Exec(items[0], c, pool), pool)
    ensures Run(items, c, pool) == Run(items[1..], Exec(items[0], c, pool), pool)
    ensures Count(items) == |Lower(items[0], Unplaced)| + Count(items[1..])
  {
  }

  /** Running the bytes of `items`, after `pre` in the code, shows what running the
      items shows. */
  lemma {:induction false} RunSteps(items: seq<Item>, c: Cpu, s: State, w: World, pre: seq<Byte>)
    requires Sound(w) && Sim(c, s, w) && RunsOk(items, c, w.pool) && |c.stack| + |items| <= w.room
    requires forall i :: i in items ==> Small(i) && i != SetBase
    requires w.code == pre + Code(items, Placed(w.str, w.loc)) && (s.st == Running ==> s.rip == w.at + |pre|)
    ensures Sim(Run(items, c, w.pool), Steps(s, Count(items)), w)
    decreases |items|, 1
  {
    if c.st != Running {
      Stutter(s, Count(items));
    } else if items != [] {
      RunHead(items, c, w.pool);
      assert items[0] in items;
      FirstSteps(items, c, s, w, pre);
      StackGrows(items[0], c, w.pool);
      RunTail(items, c, Exec(items[0], c, w.pool), s, Steps(s, |Lower(items[0], Unplaced)|), w,
              pre + Emit(items[0], Placed(w.str, w.loc)), |Lower(items[0], Unplaced)|);
    }
  }

  /** The rest of the items, once the first has taken `c`, `s` to `d`, `t`. */
  lemma {:induction false} RunTail(items: seq<Item>, c: Cpu, d: Cpu, s: State, t: State, w: World, pre: seq<Byte>,
                                   k: nat)
    requires items != [] && RunsOk(items, c, w.pool) && RunsOk(items[1..], d, w.pool)
             && Run(items, c, w.pool) == Run(items[1..], d, w.pool)
    requires Sound(w) && Sim(d, t, w) && |d.stack| + |items[1..]| <= w.room
    requires forall i :: i in items ==> Small(i) && i != SetBase
    requires w.code == pre + Code(items[1..], Placed(w.str, w.loc)) && (t.st == Running ==> t.rip == w.at + |pre|)
    requires t == Steps(s, k) && Count(items) == k + Count(items[1..])
    ensures Sim(Run(items, c, w.pool), Steps(s, Count(items)), w)
    decreases |items|, 0
  {
    RunSteps(items[1..], d, t, w, pre);
    StepsAdd(s, k, Count(items[1..]));
  }
}
