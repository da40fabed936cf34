/** A compiled program, placed in memory and run by the processor, shows what the
    source program means. */
module LccRun {
  import opened RawBytes
  import opened LccWords
  import opened LccSyntax
  import opened LccGen
  import opened LccMachine
  import opened LccCode
  import opened LccSim

  predicate AllSmall(items: seq<Item>) { forall i :: i in items ==> Small(i) && i != SetBase }

  lemma {:induction false} ExprSmall(e: Expr, names: seq<Name>)
    requires Scoped(e, names) && |names| <= MAX_LOCALS
    ensures AllSmall(GenExpr(e, names))
    decreases e
  {
    match e
    case Neg(a) => ExprSmall(a, names);
    case Bin(_, l, r) => ExprSmall(l, names); ExprSmall(r, names);
    case _ =>
  }

  lemma {:induction false} BodySmall(body: seq<Stmt>, names: seq<Name>, pool: seq<Byte>)
    requires BodyScoped(body, names) && |Scopes(body, names)| <= MAX_LOCALS && ShortTexts(body)
    ensures AllSmall(GenBody(body, names, pool))
    decreases |body|
  {
    if body != [] {
      var s := body[0];
      assert |names| <= |Scope(s, names)| <= |Scopes(body, names)|;
      if s.Decl? || s.Assign? {
        ExprSmall(s.e, Scope(s, names));
      } else if s.Return? {
        ExprSmall(s.e, names);
      }
      BodySmall(body[1..], Scope(s, names), Pool(s, pool));
    }
  }

  /** Literals have lengths that fit a 32-bit immediate. */
  predicate ShortTexts(body: seq<Stmt>) {
    forall s :: s in body && s.Write? ==> |s.text| < 0x1_0000_0000
  }

  function ZeroVars(n: nat): (r: seq<Word>)
    ensures |r| == n && forall i :: 0 <= i < n ==> r[i] == 0
  { seq(n, _ => 0) }

  /** What a stopped processor shows. */
  function Seen(s: State): Outcome
    requires s.st != Running
  { if s.st.Halted? then Exited(s.st.status, s.out) else Crashed(s.out) }

  /** What the program text means. */
  function Meaning(body: seq<Stmt>): Outcome
    requires BodyScoped(body, [])
  { RunBody(body, [], ZeroVars(|Scopes(body, [])|), []) }

  /** `w` places the compiled program, with a stack as deep as it can need. */
  predicate Compiled(w: World, body: seq<Stmt>) {
    && w.code == Code(GenProgram(body), Placed(w.str, w.loc)) && w.pool == Pools(body, []) && w.n == |Scopes(body, [])|
    && |GenProgram(body)| <= w.room
  }

  /** The processor is about to run `w.code`: nothing written yet, all locals zero,
      an empty stack. */
  ghost predicate Entering(s: State, w: World) {
    s.st == Running && s.out == [] && s.rip == w.at && s.rsp == w.top && MemOk(s.mem, w, ZeroVars(w.n), [])
  }

  lemma IterateOne<T>(f: T -> T, x: T)
    ensures Iterate(f, x, 1) == f(x)
  {
    assert Iterate(f, f(x), 0) == f(x);
  }

  lemma SetBaseDoes(s: State, v: Word)
    requires s.st == Running
    ensures var t := Adv(MovR15(v), s);
            && t.st == Running && t.out == s.out && t.rax == s.rax && t.rsp == s.rsp && t.mem == s.mem && t.r15 == v
            && t.rip == s.rip + |Encoding(MovR15(v))|
  {
  }

  lemma EmitBase(w: World)
    requires Sound(w)
    ensures Emit(SetBase, Placed(w.str, w.loc)) == Encoding(MovR15(w.loc))
  {
    LowerBase(w);
    FlatMapOne(Encoding, MovR15(w.loc));
  }

  lemma LowerBase(w: World)
    requires Sound(w)
    ensures Lower(SetBase, Placed(w.str, w.loc)) == [MovR15(w.loc)]
  {
    assert w.loc % W == w.loc;
  }

  /** The prologue sets up the address of the locals. */
  lemma Prologue(s: State, w: World, rest: seq<Byte>)
    requires Sound(w) && Entering(s, w) && w.code == Emit(SetBase, Placed(w.str, w.loc)) + rest
    ensures Step(s) == Adv(MovR15(w.loc), s)
  {
    EmitBase(w);
    HoldsSplit(s.mem, w.at, Encoding(MovR15(w.loc)), rest);
    StepDoes(s, MovR15(w.loc));
  }

  lemma Entered(s: State, t: State, w: World)
    requires Sound(w) && Entering(s, w) && t == Adv(MovR15(w.loc), s)
    ensures Sim(Cpu(s.rax, [], ZeroVars(w.n), [], Running), t, w)
            && t.rip == w.at + |Emit(SetBase, Placed(w.str, w.loc))|
  {
    SetBaseDoes(s, w.loc);
    EmitBase(w);
  }

  lemma CodeAfterBase(body: seq<Stmt>, lay: Layout)
    ensures GenProgram(body) == [SetBase] + GenProgram(body)[1..]
    ensures Code(GenProgram(body), lay) == Emit(SetBase, lay) + Code(GenProgram(body)[1..], lay)
  {
    var rest := GenProgram(body)[1..];
    assert GenProgram(body) == [SetBase] + rest;
    CodeConcat([SetBase], rest, lay);
    CodeOne(SetBase, lay);
  }

  lemma RestSteps(body: seq<Stmt>, rax: Word, t: State, w: World)
    requires BodyScoped(body, []) && |Scopes(body, [])| <= MAX_LOCALS && ShortTexts(body)
    requires Sound(w) && Compiled(w, body) && Begun(t, rax, w)
    ensures Comes(t, Count(GenProgram(body)[1..]), Meaning(body))
  {
    var c := Cpu(rax, [], ZeroVars(w.n), [], Running);
    CodeAfterBase(body, Placed(w.str, w.loc));
    RestSmall(body);
    RestRuns(body, c);
    RunSteps(GenProgram(body)[1..], c, t, w, Emit(SetBase, Placed(w.str, w.loc)));
  }

  /** From the entry of any compiled program the processor comes to a stop, and
      shows the meaning of the program. */
  lemma CompiledRuns(body: seq<Stmt>, s: State, w: World) returns (n: nat)
    requires BodyScoped(body, []) && |Scopes(body, [])| <= MAX_LOCALS && ShortTexts(body)
    requires Sound(w) && Compiled(w, body) && Entering(s, w)
    ensures Comes(s, n, Meaning(body))
  {
    n := 1 + Count(GenProgram(body)[1..]);
    var t := FirstStep(body, s, w);
    RestSteps(body, s.rax, t, w);
  }

  /** After `n` steps the processor has stopped and shows `m`. */
  ghost predicate Comes(s: State, n: nat, m: Outcome) { Steps(s, n).st != Running && Seen(Steps(s, n)) == m }

  /** The locals are in place and the code of the body comes next. */
  ghost predicate Begun(t: State, rax: Word, w: World) {
    && Sim(Cpu(rax, [], ZeroVars(w.n), [], Running), t, w)
    && t.rip == w.at + |Emit(SetBase, Placed(w.str, w.loc))|
  }

  /** The first step reaches the code of the body. */
  lemma FirstStep(body: seq<Stmt>, s: State, w: World) returns (t: State)
    requires Sound(w) && Compiled(w, body) && Entering(s, w)
    ensures Begun(t, s.rax, w) && forall k: nat, m :: Comes(t, k, m) ==> Comes(s, 1 + k, m)
  {
    CodeAfterBase(body, Placed(w.str, w.loc));
    Prologue(s, w, Code(GenProgram(body)[1..], Placed(w.str, w.loc)));
    t := Step(s);
    Entered(s, t, w);
    forall k: nat, m | Comes(t, k, m) ensures Comes(s, 1 + k, m) {
      FirstThen(s, t, k);
    }
  }

  lemma FirstThen(s: State, t: State, k: nat)
    requires Step(s) == t
    ensures Steps(s, 1 + k) == Steps(t, k)
  {
    IterateOne(Step, s);
    IterateAdd(Step, s, 1, k);
  }

  lemma RestSmall(body: seq<Stmt>)
    requires BodyScoped(body, []) && |Scopes(body, [])| <= MAX_LOCALS && ShortTexts(body)
    ensures AllSmall(GenProgram(body)[1..])
  {
    BodySmall(body, [], []);
    ProgramTail(body);
    SmallThen(GenBody(body, [], []));
  }

  lemma ProgramTail(body: seq<Stmt>)
    ensures GenProgram(body)[1..] == GenBody(body, [], []) + [Imm(0), Quit]
  {
  }

  lemma SmallThen(items: seq<Item>)
    requires AllSmall(items)
    ensures AllSmall(items + [Imm(0), Quit])
  {
    assert forall i :: i in items + [Imm(0), Quit] ==> i in items || i == Imm(0) || i == Quit;
  }

  lemma RestRuns(body: seq<Stmt>, c: Cpu)
    requires BodyScoped(body, []) && c == Cpu(c.rax, [], ZeroVars(|Scopes(body, [])|), [], Running)
    ensures Ends(GenProgram(body)[1..], c, Pools(body, []), Meaning(body))
  {
    BodyRuns(body, [], [], c, Pools(body, []));
    ProgramTail(body);
  }
}
