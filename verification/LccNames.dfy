/** Programs whose names have at most 31 characters mean what they say: variables
    are names, not slots. */
module LccNames {
  import opened RawBytes
  import opened LccWords
  import opened LccSyntax
  import opened LccGen

  type Env = map<Name, Word>

  /** Every variable of the expression is among `vars`. */
  predicate Bound(e: Expr, vars: set<Name>) {
    match e
    case Num(_) => true
    case Var(n) => n in vars
    case Neg(a) => Bound(a, vars)
    case Bin(_, l, r) => Bound(l, vars) && Bound(r, vars)
  }

  function EvalIn(e: Expr, env: Env): Value
    requires Bound(e, env.Keys)
  {
    match e
    case Num(v) => V(v)
    case Var(n) => V(env[n])
    case Neg(a) => (match EvalIn(a, env) case Fault => Fault case V(x) => V(ToWord(0 - x)))
    case Bin(op, l, r) =>
      match EvalIn(l, env)
      case Fault => Fault
      case V(x) => match EvalIn(r, env) case Fault => Fault case V(y) => Compute(op, x, y)
  }

  predicate BodyBound(body: seq<Stmt>, vars: set<Name>)
    decreases |body|
  {
    body == [] ||
    (match body[0]
     case Decl(x, e) => Bound(e, vars + {x}) && BodyBound(body[1..], vars + {x})
     case Assign(x, e) => x in vars && Bound(e, vars) && BodyBound(body[1..], vars)
     case Return(e) => Bound(e, vars)
     case _ => BodyBound(body[1..], vars))
  }

  lemma SetKeys(env: Env, x: Name, w: Word)
    ensures env[x := w].Keys == env.Keys + {x} && (x in env ==> env[x := w].Keys == env.Keys)
  {
  }

  /** The meaning of a body over variables that are names; a variable is 0 in its
      own initializer. */
  function RunIn(body: seq<Stmt>, env: Env, out: seq<Byte>): Outcome
    requires BodyBound(body, env.Keys)
    decreases |body|
  {
    if body == [] then Exited(0, out)
    else
      var s, rest := body[0], body[1..];
      match s
      case Empty => RunIn(rest, env, out)
      case Write(text) => RunIn(rest, env, out + text)
      case Return(e) => (match EvalIn(e, env) case Fault => Crashed(out) case V(w) => Exited(w, out))
      case Decl(x, e) =>
        SetKeys(env, x, 0);
        (match EvalIn(e, env[x := 0])
         case Fault => Crashed(out)
         case V(w) => SetKeys(env, x, w); RunIn(rest, env[x := w], out))
      case Assign(x, e) =>
        match EvalIn(e, env)
        case Fault => Crashed(out)
        case V(w) => SetKeys(env, x, w); RunIn(rest, env[x := w], out)
  }

  /** The variables the slots stand for. */
  function EnvOf(names: seq<Name>, vals: seq<Word>): (env: Env)
    requires |names| <= |vals|
    ensures forall n :: n in env <==> n in names
    ensures forall n :: n in env ==> env[n] == vals[Slot(names, n)]
  { map n | n in names :: vals[Slot(names, n)] }

  /** Every declared name is new and short. */
  predicate PlainNames(body: seq<Stmt>, names: seq<Name>) {
    body == [] ||
    ((body[0].Decl? ==> body[0].x !in names && |body[0].x| <= NAME_MAX) && PlainNames(body[1..], Scope(body[0], names)))
  }

  /** A name just declared is in scope exactly if it has at most 31 characters. */
  lemma DeclaredIsInScope(n: Name, names: seq<Name>)
    requires n !in names
    ensures n in names + [Stored(n)] <==> |n| <= NAME_MAX
  {
  }

  lemma {:induction false} SlotAppend(names: seq<Name>, x: Name, n: Name)
    requires x !in names
    ensures Slot(names + [x], n) == if n == x then |names| else if n in names then Slot(names, n) else |names| + 1
    decreases |names|
  {
    if names != [] && names[0] != n {
      SlotAppend(names[1..], x, n);
      assert (names + [x])[1..] == names[1..] + [x];
    }
  }

  lemma DeclareEnv(names: seq<Name>, vals: seq<Word>, x: Name, w: Word)
    requires x !in names && |names| < |vals|
    ensures EnvOf(names + [x], vals[|names| := w]) == EnvOf(names, vals)[x := w]
  {
    forall n | n in names + [x] ensures vals[|names| := w][Slot(names + [x], n)] == EnvOf(names, vals)[x := w][n] {
      SlotAppend(names, x, n);
    }
  }

  lemma AssignEnv(names: seq<Name>, vals: seq<Word>, x: Name, w: Word)
    requires x in names && |names| <= |vals|
    ensures EnvOf(names, vals[Slot(names, x) := w]) == EnvOf(names, vals)[x := w]
  {
    forall n | n in names && n != x ensures Slot(names, n) != Slot(names, x) {
    }
  }

  lemma {:induction false} EvalSame(e: Expr, names: seq<Name>, vals: seq<Word>)
    requires Scoped(e, names) && |names| <= |vals|
    ensures Bound(e, EnvOf(names, vals).Keys) && EvalIn(e, EnvOf(names, vals)) == Eval(e, names, vals)
    decreases e
  {
    match e
    case Neg(a) => EvalSame(a, names, vals);
    case Bin(_, l, r) => EvalSame(l, names, vals); EvalSame(r, names, vals);
    case _ =>
  }

  lemma {:induction false} ScopedBound(e: Expr, names: seq<Name>, vars: set<Name>)
    requires Scoped(e, names) && forall n :: n in names ==> n in vars
    ensures Bound(e, vars)
    decreases e
  {
    match e
    case Neg(a) => ScopedBound(a, names, vars);
    case Bin(_, l, r) => ScopedBound(l, names, vars); ScopedBound(r, names, vars);
    case _ =>
  }

  lemma {:induction false} BodyBoundOf(body: seq<Stmt>, names: seq<Name>, vars: set<Name>)
    requires BodyScoped(body, names) && PlainNames(body, names) && (forall n :: n in names ==> n in vars)
    ensures BodyBound(body, vars)
    decreases |body|
  {
    if body != [] {
      var s := body[0];
      match s
      case Return(e) => ScopedBound(e, names, vars);
      case Decl(x, e) => ScopedBound(e, names + [x], vars + {x}); BodyBoundOf(body[1..], names + [x], vars + {x});
      case Assign(x, e) => ScopedBound(e, names, vars); BodyBoundOf(body[1..], names, vars);
      case _ => BodyBoundOf(body[1..], names, vars);
    }
  }

  /** With plain names, slots are only a way to store variables. */
  lemma {:induction false} NamesMean(body: seq<Stmt>, names: seq<Name>, vals: seq<Word>, out: seq<Byte>)
    requires BodyScoped(body, names) && PlainNames(body, names) && |Scopes(body, names)| <= |vals|
    requires forall i :: |names| <= i < |vals| ==> vals[i] == 0
    ensures BodyBound(body, EnvOf(names, vals).Keys)
    ensures RunIn(body, EnvOf(names, vals), out) == RunBody(body, names, vals, out)
    decreases |body|
  {
    BodyBoundOf(body, names, EnvOf(names, vals).Keys);
    if body != [] {
      var s := body[0];
      match s
      case Empty => NamesMean(body[1..], names, vals, out);
      case Write(text) => NamesMean(body[1..], names, vals, out + text);
      case Return(e) => EvalSame(e, names, vals);
      case Decl(x, e) => DeclMeans(body, names, vals, out);
      case Assign(x, e) =>
        EvalSame(e, names, vals);
        match Eval(e, names, vals) {
          case Fault =>
          case V(w) =>
            AssignEnv(names, vals, x, w);
            NamesMean(body[1..], names, vals[Slot(names, x) := w], out);
        }
    }
  }

  lemma {:induction false} DeclMeans(body: seq<Stmt>, names: seq<Name>, vals: seq<Word>, out: seq<Byte>)
    requires body != [] && body[0].Decl? && BodyScoped(body, names) && PlainNames(body, names)
             && |Scopes(body, names)| <= |vals|
    requires forall i :: |names| <= i < |vals| ==> vals[i] == 0
    requires BodyBound(body, EnvOf(names, vals).Keys)
    ensures RunIn(body, EnvOf(names, vals), out) == RunBody(body, names, vals, out)
    decreases |body|, 0
  {
    var x, e, n := body[0].x, body[0].e, |names|;
    DeclareEnv(names, vals, x, 0);
    assert vals[n := 0] == vals;
    EvalSame(e, names + [x], vals);
    match Eval(e, names + [x], vals)
    case Fault =>
    case V(w) =>
      DeclareEnv(names, vals, x, w);
      NamesMean(body[1..], names + [x], vals[n := w], out);
  }

  /** What the parser accepts declares only new names. */
  lemma {:induction false} ParsedPlain(ts: seq<Token>, names: seq<Name>)
    requires Body(ts, names).BodyGot? && (forall s :: s in Body(ts, names).body && s.Decl? ==> |s.x| <= NAME_MAX)
    ensures PlainNames(Body(ts, names).body, names)
    decreases |ts|
  {
    if !Is(ts[0], RBRACE) {
      var r := Statement(ts, names);
      var rest := Body(r.rest, r.names);
      var body := Body(ts, names).body;
      assert body[0] == r.s && body[1..] == rest.body;
      assert r.s in body && forall s :: s in rest.body ==> s in body;
      ParsedPlain(r.rest, r.names);
      ParsedScope(ts, names);
    }
  }

  /** A statement's names are those before it and the one it declares, which is new. */
  lemma ParsedScope(ts: seq<Token>, names: seq<Name>)
    requires Statement(ts, names).StmtGot?
    ensures var r := Statement(ts, names); r.names == Scope(r.s, names) && (r.s.Decl? ==> r.s.x !in names)
  {
  }
}
