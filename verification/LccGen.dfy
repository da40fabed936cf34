/** What a program means, and the code lcc emits for it, in units of one emitter
    call each. */
module LccGen {
  import opened RawBytes
  import opened LccWords
  import opened LccSyntax

  // ----- source semantics -----------------------------------------------------------------

  /** The first slot with this name; |names| if there is none. */
  function Slot(names: seq<Name>, n: Name): (i: nat)
    ensures i <= |names| && (i < |names| ==> names[i] == n) && (n in names <==> i < |names|)
    ensures forall j :: 0 <= j < i ==> names[j] != n
  {
    if names == [] || names[0] == n then 0 else 1 + Slot(names[1..], n)
  }

  /** Every variable of the expression is in scope. */
  predicate Scoped(e: Expr, names: seq<Name>) {
    match e
    case Num(_) => true
    case Var(n) => n in names
    case Neg(a) => Scoped(a, names)
    case Bin(_, l, r) => Scoped(l, names) && Scoped(r, names)
  }

  datatype Value = Fault | V(w: Word)

  function Compute(op: Op, x: Word, y: Word): Value {
    match op
    case Add => V(ToWord(x + y))
    case Sub => V(ToWord(x - y))
    case Mul => V(ToWord(x * y))
    case Div => if CanDivide(x, y) then V(ToWord(Quotient(Signed(x), Signed(y)))) else Fault
    case Mod => if CanDivide(x, y) then V(ToWord(Remainder(Signed(x), Signed(y)))) else Fault
  }

  function Eval(e: Expr, names: seq<Name>, vals: seq<Word>): Value
    requires Scoped(e, names) && |names| <= |vals|
  {
    match e
    case Num(v) => V(v)
    case Var(n) => V(vals[Slot(names, n)])
    case Neg(a) => (match Eval(a, names, vals) case Fault => Fault case V(x) => V(ToWord(0 - x)))
    case Bin(op, l, r) =>
      match Eval(l, names, vals)
      case Fault => Fault
      case V(x) => match Eval(r, names, vals) case Fault => Fault case V(y) => Compute(op, x, y)
  }

  /** How a run ends, and what it wrote. */
  datatype Outcome = Exited(status: Word, out: seq<Byte>) | Crashed(out: seq<Byte>)

  /** The names in scope after the statement. */
  function Scope(s: Stmt, names: seq<Name>): seq<Name> {
    if s.Decl? then names + [Stored(s.x)] else names
  }

  predicate StmtScoped(s: Stmt, names: seq<Name>) {
    match s
    case Decl(_, e) => Scoped(e, Scope(s, names))
    case Assign(x, e) => x in names && Scoped(e, names)
    case Return(e) => Scoped(e, names)
    case _ => true
  }

  predicate BodyScoped(body: seq<Stmt>, names: seq<Name>) {
    body == [] || (StmtScoped(body[0], names) && BodyScoped(body[1..], Scope(body[0], names)))
  }

  /** The names after the whole body. */
  function Scopes(body: seq<Stmt>, names: seq<Name>): (r: seq<Name>)
    ensures |names| <= |r|
  {
    if body == [] then names else Scopes(body[1..], Scope(body[0], names))
  }

  /** The slot an assignment or declaration stores to. */
  function Target(s: Stmt, names: seq<Name>): nat {
    match s
    case Decl(_, _) => |names|
    case Assign(x, _) => Slot(names, x)
    case _ => 0
  }

  /** Run a body: `vals` holds every local of the program, zero before its
      declaration. */
  function RunBody(body: seq<Stmt>, names: seq<Name>, vals: seq<Word>, out: seq<Byte>): Outcome
    requires BodyScoped(body, names) && |Scopes(body, names)| <= |vals|
    decreases |body|
  {
    if body == [] then Exited(0, out)
    else
      var s, rest := body[0], body[1..];
      match s
      case Empty => RunBody(rest, names, vals, out)
      case Write(text) => RunBody(rest, names, vals, out + text)
      case Return(e) => (match Eval(e, names, vals) case Fault => Crashed(out) case V(w) => Exited(w, out))
      case _ =>
        match Eval(s.e, Scope(s, names), vals)
        case Fault => Crashed(out)
        case V(w) => RunBody(rest, Scope(s, names), vals[Target(s, names) := w], out)
  }

  // ----- emitted code ---------------------------------------------------------------------------

  /** One emitter call, or a fixed sequence of them. */
  datatype Item =
    | SetBase                      // mov r15, <locals>
    | Imm(v: Word)                 // mov rax, v
    | Load(slot: nat)              // mov rax, [r15 + 8 * slot]
    | Store(slot: nat)             // mov [r15 + 8 * slot], rax
    | Push                         // push rax
    | Negate                       // neg rax
    | Apply(op: Op)                // mov rcx, rax; pop rax; ...
    | Print(off: nat, len: nat)    // write(1, <strings> + off, len)
    | Quit                         // exit(rax)

  function GenExpr(e: Expr, names: seq<Name>): seq<Item> {
    match e
    case Num(v) => [Imm(v)]
    case Var(n) => [Load(Slot(names, n))]
    case Neg(a) => GenExpr(a, names) + [Negate]
    case Bin(op, l, r) => GenExpr(l, names) + [Push] + GenExpr(r, names) + [Apply(op)]
  }

  /** The string pool after the statement. */
  function Pool(s: Stmt, pool: seq<Byte>): seq<Byte> {
    if s.Write? then pool + s.text else pool
  }

  function GenStmt(s: Stmt, names: seq<Name>, pool: seq<Byte>): seq<Item> {
    match s
    case Empty => []
    case Write(text) => [Print(|pool|, |text|)]
    case Return(e) => GenExpr(e, names) + [Quit]
    case _ => GenExpr(s.e, Scope(s, names)) + [Store(Target(s, names))]
  }

  function GenBody(body: seq<Stmt>, names: seq<Name>, pool: seq<Byte>): seq<Item> {
    if body == [] then []
    else GenStmt(body[0], names, pool) + GenBody(body[1..], Scope(body[0], names), Pool(body[0], pool))
  }

  /** All strings of the body, in order, after `pool`. */
  function Pools(body: seq<Stmt>, pool: seq<Byte>): (r: seq<Byte>)
    ensures |pool| <= |r| && r[..|pool|] == pool
  {
    if body == [] then pool else Pools(body[1..], Pool(body[0], pool))
  }

  /** The code of a program: the prologue, the body and an implicit `return 0`. */
  function GenProgram(body: seq<Stmt>): seq<Item> {
    [SetBase] + GenBody(body, [], []) + [Imm(0), Quit]
  }

  // ----- a machine that runs items ---------------------------------------------------------------

  datatype Status = Running | Halted(status: Word) | Trapped
  datatype Cpu = Cpu(rax: Word, stack: seq<Word>, locals: seq<Word>, out: seq<Byte>, st: Status)

  /** The operands the item needs are there. */
  predicate Ready(i: Item, c: Cpu, pool: seq<Byte>) {
    match i
    case Load(n) => n < |c.locals|
    case Store(n) => n < |c.locals|
    case Apply(_) => c.stack != []
    case Print(off, len) => off + len <= |pool|
    case _ => true
  }

  function Exec(i: Item, c: Cpu, pool: seq<Byte>): Cpu
    requires Ready(i, c, pool)
  {
    match i
    case SetBase => c
    case Imm(v) => c.(rax := v)
    case Load(n) => c.(rax := c.locals[n])
    case Store(n) => c.(locals := c.locals[n := c.rax])
    case Push => c.(stack := c.stack + [c.rax])
    case Negate => c.(rax := ToWord(0 - c.rax))
    case Apply(op) =>
      (match Compute(op, c.stack[|c.stack| - 1], c.rax)
       case Fault => c.(stack := c.stack[..|c.stack| - 1], st := Trapped)
       case V(w) => c.(rax := w, stack := c.stack[..|c.stack| - 1]))
    case Print(off, len) => c.(rax := len % W, out := c.out + pool[off..off + len])
    case Quit => c.(st := Halted(c.rax))
  }

  /** The items can be run one after the other. */
  predicate RunsOk(list: seq<Item>, c: Cpu, pool: seq<Byte>)
    decreases |list|
  {
    list == [] || c.st != Running || (Ready(list[0], c, pool) && RunsOk(list[1..], Exec(list[0], c, pool), pool))
  }

  function Run(list: seq<Item>, c: Cpu, pool: seq<Byte>): Cpu
    requires RunsOk(list, c, pool)
    decreases |list|
  {
    if list == [] || c.st != Running then c else Run(list[1..], Exec(list[0], c, pool), pool)
  }

  lemma {:induction false} RunConcat(a: seq<Item>, b: seq<Item>, c: Cpu, pool: seq<Byte>)
    requires RunsOk(a, c, pool) && RunsOk(b, Run(a, c, pool), pool)
    ensures RunsOk(a + b, c, pool) && Run(a + b, c, pool) == Run(b, Run(a, c, pool), pool)
    decreases |a|
  {
    if a == [] {
      assert a + b == b;
    } else if c.st == Running {
      RunConcat(a[1..], b, Exec(a[0], c, pool), pool);
      assert (a + b)[1..] == a[1..] + b;
    }
  }

  lemma RunOne(i: Item, c: Cpu, pool: seq<Byte>)
    requires c.st == Running && Ready(i, c, pool)
    ensures RunsOk([i], c, pool) && Run([i], c, pool) == Exec(i, c, pool)
  {
    assert [i][1..] == [];
  }

  // ----- the code does what the source means --------------------------------------------------------

  /** `c'` is `c` with the value of the expression in rax, or stopped by its fault. */
  predicate Yields(c: Cpu, c': Cpu, v: Value) {
    match v
    case V(w) => c' == c.(rax := w)
    case Fault => c'.st == Trapped && c'.out == c.out
  }

  lemma {:induction false} ExprRuns(e: Expr, names: seq<Name>, c: Cpu, pool: seq<Byte>)
    requires Scoped(e, names) && |names| <= |c.locals| && c.st == Running
    ensures RunsOk(GenExpr(e, names), c, pool)
    ensures Yields(c, Run(GenExpr(e, names), c, pool), Eval(e, names, c.locals))
    decreases e, 1
  {
    match e
    case Num(_) =>
      RunOne(GenExpr(e, names)[0], c, pool);
    case Var(_) =>
      RunOne(GenExpr(e, names)[0], c, pool);
    case Neg(a) =>
      ExprRuns(a, names, c, pool);
      AfterExpr(GenExpr(a, names), [Negate], c, pool);
      if Eval(a, names, c.locals).V? {
        RunOne(Negate, Run(GenExpr(a, names), c, pool), pool);
      }
      RunConcat(GenExpr(a, names), [Negate], c, pool);
    case Bin(op, l, r) =>
      BinRuns(op, l, r, names, c, pool);
  }

  lemma AfterExpr(a: seq<Item>, b: seq<Item>, c: Cpu, pool: seq<Byte>)
    requires RunsOk(a, c, pool)
    ensures var d := Run(a, c, pool); d.st != Running ==> RunsOk(b, d, pool) && Run(b, d, pool) == d
  {
  }

  lemma {:induction false} BinRuns(op: Op, l: Expr, r: Expr, names: seq<Name>, c: Cpu, pool: seq<Byte>)
    requires Scoped(l, names) && Scoped(r, names) && |names| <= |c.locals| && c.st == Running
    ensures RunsOk(GenExpr(Bin(op, l, r), names), c, pool)
    ensures Yields(c, Run(GenExpr(Bin(op, l, r), names), c, pool), Eval(Bin(op, l, r), names, c.locals))
    decreases Bin(op, l, r), 0
  {
    var a, b := GenExpr(l, names), GenExpr(r, names);
    ExprRuns(l, names, c, pool);
    var c1 := Run(a, c, pool);
    if c1.st == Running {
      RunOne(Push, c1, pool);
      RightRuns(op, r, names, Exec(Push, c1, pool), pool);
      RunConcat([Push], b + [Apply(op)], c1, pool);
    } else {
      AfterExpr(a, [Push] + (b + [Apply(op)]), c, pool);
    }
    RunConcat(a, [Push] + (b + [Apply(op)]), c, pool);
    assert a + [Push] + b + [Apply(op)] == a + ([Push] + (b + [Apply(op)]));
  }

  /** The right operand and the operation, with the left operand on the stack. */
  lemma {:induction false} RightRuns(op: Op, r: Expr, names: seq<Name>, c: Cpu, pool: seq<Byte>)
    requires Scoped(r, names) && |names| <= |c.locals| && c.st == Running && c.stack != []
    ensures var list := GenExpr(r, names) + [Apply(op)];
            && RunsOk(list, c, pool)
            && match Eval(r, names, c.locals)
               case Fault => Yields(c, Run(list, c, pool), Fault)
               case V(y) => Yields(c.(stack := c.stack[..|c.stack| - 1]), Run(list, c, pool),
                                   Compute(op, c.stack[|c.stack| - 1], y))
    decreases r, 2
  {
    var b := GenExpr(r, names);
    ExprRuns(r, names, c, pool);
    var c1 := Run(b, c, pool);
    if c1.st == Running {
      RunOne(Apply(op), c1, pool);
    } else {
      AfterExpr(b, [Apply(op)], c, pool);
    }
    RunConcat(b, [Apply(op)], c, pool);
  }

  /** What a stopped machine shows. */
  function Shows(c: Cpu): Outcome
    requires c.st != Running
  { if c.st.Halted? then Exited(c.st.status, c.out) else Crashed(c.out) }

  predicate Ends(list: seq<Item>, c: Cpu, pool: seq<Byte>, o: Outcome) {
    RunsOk(list, c, pool) && Run(list, c, pool).st != Running && Shows(Run(list, c, pool)) == o
  }

  lemma EndsAfter(a: seq<Item>, b: seq<Item>, c: Cpu, pool: seq<Byte>, o: Outcome)
    requires RunsOk(a, c, pool) && Ends(b, Run(a, c, pool), pool, o)
    ensures Ends(a + b, c, pool, o)
  {
    RunConcat(a, b, c, pool);
  }

  lemma EpilogueEnds(c: Cpu, pool: seq<Byte>)
    requires c.st == Running
    ensures Ends([Imm(0), Quit], c, pool, Exited(0, c.out))
  {
    assert [Imm(0), Quit][1..] == [Quit];
    assert [Quit][1..] == [];
  }

  /** An expression followed by an item that uses it. */
  lemma ThenRuns(e: Expr, names: seq<Name>, i: Item, c: Cpu, pool: seq<Byte>)
    requires Scoped(e, names) && |names| <= |c.locals| && c.st == Running
    requires i == Quit || (i.Store? && i.slot < |c.locals|)
    ensures var list := GenExpr(e, names) + [i];
            && RunsOk(list, c, pool)
            && match Eval(e, names, c.locals)
               case Fault => Yields(c, Run(list, c, pool), Fault)
               case V(w) => Run(list, c, pool) == Exec(i, c.(rax := w), pool)
  {
    var a := GenExpr(e, names);
    ExprRuns(e, names, c, pool);
    var c1 := Run(a, c, pool);
    if c1.st == Running {
      RunOne(i, c1, pool);
    } else {
      AfterExpr(a, [i], c, pool);
    }
    RunConcat(a, [i], c, pool);
  }

  lemma TargetInRange(body: seq<Stmt>, names: seq<Name>)
    requires body != [] && BodyScoped(body, names) && (body[0].Decl? || body[0].Assign?)
    ensures Target(body[0], names) < |Scopes(body, names)|
  {
  }

  /** Running the code of the rest of a body, from any point of it. */
  lemma {:induction false} BodyRuns(body: seq<Stmt>, names: seq<Name>, pool0: seq<Byte>, c: Cpu, pool: seq<Byte>)
    requires BodyScoped(body, names) && |Scopes(body, names)| <= |c.locals| && c.st == Running
    requires |Pools(body, pool0)| <= |pool| && pool[..|Pools(body, pool0)|] == Pools(body, pool0)
    ensures Ends(GenBody(body, names, pool0) + [Imm(0), Quit], c, pool, RunBody(body, names, c.locals, c.out))
    decreases |body|
  {
    if body == [] {
      EpilogueEnds(c, pool);
      assert GenBody(body, names, pool0) + [Imm(0), Quit] == [Imm(0), Quit];
    } else {
      var s := body[0];
      var head, tail := GenStmt(s, names, pool0), GenBody(body[1..], Scope(s, names), Pool(s, pool0)) + [Imm(0), Quit];
      assert GenBody(body, names, pool0) + [Imm(0), Quit] == head + tail;
      StmtRuns(body, names, pool0, c, pool);
      var c1 := Run(head, c, pool);
      if c1.st == Running {
        BodyRuns(body[1..], Scope(s, names), Pool(s, pool0), c1, pool);
      } else {
        AfterExpr(head, tail, c, pool);
      }
      EndsAfter(head, tail, c, pool, RunBody(body, names, c.locals, c.out));
    }
  }

  /** One statement: it stops the run with the outcome of the body, or leads to a
      state from which the rest of the body has that outcome. */
  lemma StmtRuns(body: seq<Stmt>, names: seq<Name>, pool0: seq<Byte>, c: Cpu, pool: seq<Byte>)
    requires body != [] && BodyScoped(body, names) && |Scopes(body, names)| <= |c.locals| && c.st == Running
    requires |Pools(body, pool0)| <= |pool| && pool[..|Pools(body, pool0)|] == Pools(body, pool0)
    ensures var list := GenStmt(body[0], names, pool0); var o := RunBody(body, names, c.locals, c.out);
            && RunsOk(list, c, pool)
            && var d := Run(list, c, pool);
               if d.st == Running
               then |d.locals| == |c.locals| && RunBody(body[1..], Scope(body[0], names), d.locals, d.out) == o
               else Shows(d) == o
  {
    var s := body[0];
    match s
    case Empty =>
    case Write(text) =>
      PoolAt(body, pool0, pool);
      RunOne(Print(|pool0|, |text|), c, pool);
    case Return(e) =>
      ThenRuns(e, names, Quit, c, pool);
    case _ =>
      TargetInRange(body, names);
      ThenRuns(s.e, Scope(s, names), Store(Target(s, names)), c, pool);
  }

  lemma PoolAt(body: seq<Stmt>, pool0: seq<Byte>, pool: seq<Byte>)
    requires body != [] && body[0].Write?
    requires |Pools(body, pool0)| <= |pool| && pool[..|Pools(body, pool0)|] == Pools(body, pool0)
    ensures |pool0| + |body[0].text| <= |pool| && pool[|pool0|..|pool0| + |body[0].text|] == body[0].text
  {
    var p, n, t := Pools(body, pool0), |pool0|, body[0].text;
    assert p[..n + |t|] == pool0 + t;
    assert pool[n..n + |t|] == p[n..n + |t|] == (pool0 + t)[n..];
  }

  /** The state in which the program's first item runs. */
  function Fresh(n: nat): Cpu { Cpu(0, [], seq(n, _ => 0), [], Running) }

  /** Whatever rax is at first, running the emitted program shows what the source
      program means: the same bytes written and the same exit value, or the same
      division fault after the same bytes. */
  lemma ProgramRuns(body: seq<Stmt>, c: Cpu)
    requires BodyScoped(body, []) && c == Fresh(|Scopes(body, [])|).(rax := c.rax)
    ensures Ends(GenProgram(body), c, Pools(body, []), RunBody(body, [], c.locals, []))
  {
    var pool := Pools(body, []);
    BodyRuns(body, [], [], c, pool);
    var tail := GenBody(body, [], []) + [Imm(0), Quit];
    RunOne(SetBase, c, pool);
    EndsAfter([SetBase], tail, c, pool, RunBody(body, [], c.locals, []));
    assert GenProgram(body) == [SetBase] + tail;
  }
}
