/** The source language of lcc: tokens, syntax trees, and which token sequences
    are expressions and programs. */
module LccSyntax {
  import opened RawBytes
  import opened LccWords

  type Name = seq<Byte>

  datatype Token = TEof | TBad | TInt | TReturn | TWrite | TIdent(name: Name) | TNum(num: Word)
                 | TStr(text: seq<Byte>) | TPunct(c: Byte)

  datatype Op = Add | Sub | Mul | Div | Mod
  datatype Expr = Num(v: Word) | Var(name: Name) | Neg(e: Expr) | Bin(op: Op, l: Expr, r: Expr)
  datatype Stmt = Decl(x: Name, e: Expr) | Assign(x: Name, e: Expr) | Write(text: seq<Byte>) | Return(e: Expr) | Empty

  const LPAREN: Byte := 40
  const RPAREN: Byte := 41
  const STAR: Byte := 42
  const PLUS: Byte := 43
  const MINUS: Byte := 45
  const SLASH: Byte := 47
  const SEMI: Byte := 59
  const EQUALS: Byte := 61
  const PERCENT: Byte := 37
  const LBRACE: Byte := 123
  const RBRACE: Byte := 125

  const MAX_LOCALS: nat := 64
  const NAME_MAX: nat := 31

  predicate Is(t: Token, c: Byte) { t == TPunct(c) }

  predicate IsMulOp(t: Token) { Is(t, STAR) || Is(t, SLASH) || Is(t, PERCENT) }
  predicate IsAddOp(t: Token) { Is(t, PLUS) || Is(t, MINUS) }

  function OpOf(c: Byte): Op {
    if c == STAR then Mul else if c == SLASH then Div else if c == PERCENT then Mod
    else if c == PLUS then Add else Sub
  }

  // ----- recursive descent ----------------------------------------------------------------

  datatype Parsed = Fail | Got(e: Expr, rest: seq<Token>)

  datatype Option<T> = None | Some(value: T)

  /** Take the next token as the one at hand; a malformed token ends everything. */
  function Advance(ts: seq<Token>): (r: Option<seq<Token>>)
    ensures r.Some? ==> |ts| > 1 && r.value == ts[1..]
  {
    if |ts| < 2 || ts[1].TBad? then None else Some(ts[1..])
  }

  function Expect(ts: seq<Token>, c: Byte): (r: Option<seq<Token>>)
    ensures r.Some? ==> |ts| > 1 && r.value == ts[1..] && Is(ts[0], c)
  {
    if |ts| > 0 && Is(ts[0], c) then Advance(ts) else None
  }

  function Factor(ts: seq<Token>, names: seq<Name>): (r: Parsed)
    ensures r.Got? ==> 0 < |r.rest| < |ts|
    decreases |ts|, 0
  {
    if ts == [] then Fail
    else match ts[0]
      case TNum(v) =>
        (match Advance(ts) case None => Fail case Some(rest) => Got(Num(v), rest))
      case TIdent(n) =>
        if n !in names then Fail
        else (match Advance(ts) case None => Fail case Some(rest) => Got(Var(n), rest))
      case TPunct(c) =>
        if c == LPAREN then
          match Advance(ts)
          case None => Fail
          case Some(inner) =>
            match Expression(inner, names)
            case Fail => Fail
            case Got(e, after) =>
              match Expect(after, RPAREN) case None => Fail case Some(rest) => Got(e, rest)
        else if c == MINUS then
          match Advance(ts)
          case None => Fail
          case Some(inner) =>
            match Factor(inner, names) case Fail => Fail case Got(e, rest) => Got(Neg(e), rest)
        else Fail
      case _ => Fail
  }

  /** Further factors, to the right of the term `l` built so far. */
  function TermTail(l: Expr, ts: seq<Token>, names: seq<Name>): (r: Parsed)
    ensures r.Got? ==> 0 < |r.rest| <= |ts|
    decreases |ts|, 0
  {
    if ts == [] then Fail
    else if !IsMulOp(ts[0]) then Got(l, ts)
    else match Advance(ts)
      case None => Fail
      case Some(right) =>
        match Factor(right, names)
        case Fail => Fail
        case Got(r, rest) => TermTail(Bin(OpOf(ts[0].c), l, r), rest, names)
  }

  function Term(ts: seq<Token>, names: seq<Name>): (r: Parsed)
    ensures r.Got? ==> 0 < |r.rest| < |ts|
    decreases |ts|, 1
  {
    match Factor(ts, names) case Fail => Fail case Got(l, rest) => TermTail(l, rest, names)
  }

  function ExprTail(l: Expr, ts: seq<Token>, names: seq<Name>): (r: Parsed)
    ensures r.Got? ==> 0 < |r.rest| <= |ts|
    decreases |ts|, 2
  {
    if ts == [] then Fail
    else if !IsAddOp(ts[0]) then Got(l, ts)
    else match Advance(ts)
      case None => Fail
      case Some(right) =>
        match Term(right, names)
        case Fail => Fail
        case Got(r, rest) => ExprTail(Bin(OpOf(ts[0].c), l, r), rest, names)
  }

  function Expression(ts: seq<Token>, names: seq<Name>): (r: Parsed)
    ensures r.Got? ==> 0 < |r.rest| < |ts|
    decreases |ts|, 3
  {
    match Term(ts, names) case Fail => Fail case Got(l, rest) => ExprTail(l, rest, names)
  }

  // ----- the grammar ------------------------------------------------------------------------
  //   expr   ::= term | expr ('+' | '-') term
  //   term   ::= factor | term ('*' | '/' | '%') factor
  //   factor ::= NUM | IDENT | '(' expr ')' | '-' factor

  ghost predicate IsFactor(ts: seq<Token>, e: Expr, names: seq<Name>)
    decreases |ts|, 0
  {
    || (|ts| == 1 && e.Num? && ts[0] == TNum(e.v))
    || (|ts| == 1 && e.Var? && ts[0] == TIdent(e.name) && e.name in names)
    || (|ts| > 2 && Is(ts[0], LPAREN) && Is(ts[|ts| - 1], RPAREN) && IsExpr(ts[1..|ts| - 1], e, names))
    || (|ts| > 1 && e.Neg? && Is(ts[0], MINUS) && IsFactor(ts[1..], e.e, names))
  }

  /** `ts` is a left operand, the operator at `k` and a right operand. */
  ghost predicate TermSplit(ts: seq<Token>, k: nat, e: Expr, names: seq<Name>)
    decreases |ts|, 0
  {
    && 0 < k < |ts| - 1 && e.Bin? && IsMulOp(ts[k]) && e.op == OpOf(ts[k].c)
    && IsTerm(ts[..k], e.l, names) && IsFactor(ts[k + 1..], e.r, names)
  }

  ghost predicate IsTerm(ts: seq<Token>, e: Expr, names: seq<Name>)
    decreases |ts|, 1
  {
    IsFactor(ts, e, names) || exists k: nat :: TermSplit(ts, k, e, names)
  }

  ghost predicate ExprSplit(ts: seq<Token>, k: nat, e: Expr, names: seq<Name>)
    decreases |ts|, 2
  {
    && 0 < k < |ts| - 1 && e.Bin? && IsAddOp(ts[k]) && e.op == OpOf(ts[k].c)
    && IsExpr(ts[..k], e.l, names) && IsTerm(ts[k + 1..], e.r, names)
  }

  ghost predicate IsExpr(ts: seq<Token>, e: Expr, names: seq<Name>)
    decreases |ts|, 3
  {
    IsTerm(ts, e, names) || exists k: nat :: ExprSplit(ts, k, e, names)
  }

  // ----- the parser accepts what the grammar derives ----------------------------------------

  /** What may follow something parsed. */
  predicate Follows(rest: seq<Token>) { rest != [] && !rest[0].TBad? }

  lemma NoBad(ts: seq<Token>, e: Expr, names: seq<Name>)
    requires IsExpr(ts, e, names)
    ensures ts != [] && !ts[0].TBad?
    decreases |ts|, 3
  {
    if IsTerm(ts, e, names) {
      NoBadTerm(ts, e, names);
    } else {
      var k: nat :| ExprSplit(ts, k, e, names);
      NoBad(ts[..k], e.l, names);
    }
  }

  lemma NoBadTerm(ts: seq<Token>, e: Expr, names: seq<Name>)
    requires IsTerm(ts, e, names)
    ensures ts != [] && !ts[0].TBad?
    decreases |ts|, 1
  {
    if !IsFactor(ts, e, names) {
      var k: nat :| TermSplit(ts, k, e, names);
      NoBadTerm(ts[..k], e.l, names);
    }
  }

  lemma {:induction false} FactorComplete(ts: seq<Token>, e: Expr, names: seq<Name>, rest: seq<Token>)
    requires IsFactor(ts, e, names) && Follows(rest)
    ensures Factor(ts + rest, names) == Got(e, rest)
    decreases |ts|, 0
  {
    var all := ts + rest;
    if |ts| == 1 {
      assert all[1..] == rest;
    } else if Is(ts[0], LPAREN) {
      var inner := ts[1..|ts| - 1];
      NoBad(inner, e, names);
      assert all[1..] == inner + ([TPunct(RPAREN)] + rest);
      ExprComplete(inner, e, names, [TPunct(RPAREN)] + rest);
      assert ([TPunct(RPAREN)] + rest)[1..] == rest;
    } else {
      NoBadTerm(ts[1..], e.e, names);
      assert all[1..] == ts[1..] + rest;
      FactorComplete(ts[1..], e.e, names, rest);
    }
  }

  lemma {:induction false} TermComplete(ts: seq<Token>, e: Expr, names: seq<Name>, rest: seq<Token>)
    requires IsTerm(ts, e, names) && Follows(rest)
    ensures Term(ts + rest, names) == TermTail(e, rest, names)
    decreases |ts|, 1
  {
    if IsFactor(ts, e, names) {
      FactorComplete(ts, e, names, rest);
    } else {
      var k: nat :| TermSplit(ts, k, e, names);
      var right := ts[k + 1..] + rest;
      assert ts + rest == ts[..k] + ([ts[k]] + right);
      TermComplete(ts[..k], e.l, names, [ts[k]] + right);
      FactorComplete(ts[k + 1..], e.r, names, rest);
      NoBadTerm(ts[k + 1..], e.r, names);
      assert ([ts[k]] + right)[1..] == right;
    }
  }

  lemma {:induction false} ExprComplete(ts: seq<Token>, e: Expr, names: seq<Name>, rest: seq<Token>)
    requires IsExpr(ts, e, names) && Follows(rest) && !IsMulOp(rest[0])
    ensures Expression(ts + rest, names) == ExprTail(e, rest, names)
    decreases |ts|, 3
  {
    if IsTerm(ts, e, names) {
      TermComplete(ts, e, names, rest);
    } else {
      var k: nat :| ExprSplit(ts, k, e, names);
      var right := ts[k + 1..] + rest;
      assert ts + rest == ts[..k] + ([ts[k]] + right);
      ExprComplete(ts[..k], e.l, names, [ts[k]] + right);
      TermComplete(ts[k + 1..], e.r, names, rest);
      NoBadTerm(ts[k + 1..], e.r, names);
      assert ([ts[k]] + right)[1..] == right;
    }
  }

  // ----- and nothing else -------------------------------------------------------------------

  lemma Shift(ts: seq<Token>)
    requires Advance(ts).Some?
    ensures ts == [ts[0]] + ts[1..] && Follows(ts[1..])
  {
  }

  lemma Assoc(a: seq<Token>, b: seq<Token>, c: seq<Token>)
    ensures (a + b) + c == a + (b + c)
  {
  }

  lemma TermJoin(a: seq<Token>, l: Expr, op: Token, b: seq<Token>, r: Expr, names: seq<Name>)
    requires a != [] && b != [] && IsTerm(a, l, names) && IsMulOp(op) && IsFactor(b, r, names)
    ensures IsTerm(a + ([op] + b), Bin(OpOf(op.c), l, r), names)
  {
    var ts := a + ([op] + b);
    assert ts[..|a|] == a && ts[|a| + 1..] == b;
    assert TermSplit(ts, |a|, Bin(OpOf(op.c), l, r), names);
  }

  lemma ExprJoin(a: seq<Token>, l: Expr, op: Token, b: seq<Token>, r: Expr, names: seq<Name>)
    requires a != [] && b != [] && IsExpr(a, l, names) && IsAddOp(op) && IsTerm(b, r, names)
    ensures IsExpr(a + ([op] + b), Bin(OpOf(op.c), l, r), names)
  {
    var ts := a + ([op] + b);
    assert ts[..|a|] == a && ts[|a| + 1..] == b;
    assert ExprSplit(ts, |a|, Bin(OpOf(op.c), l, r), names);
  }

  lemma Parenthesised(ts: seq<Token>, e: Expr, names: seq<Name>)
    requires IsExpr(ts, e, names) && ts != []
    ensures IsFactor([TPunct(LPAREN)] + (ts + [TPunct(RPAREN)]), e, names)
  {
    var all := [TPunct(LPAREN)] + (ts + [TPunct(RPAREN)]);
    assert all[1..|all| - 1] == ts;
  }

  lemma Negated(ts: seq<Token>, e: Expr, names: seq<Name>)
    requires IsFactor(ts, e, names) && ts != []
    ensures IsFactor([TPunct(MINUS)] + ts, Neg(e), names)
  {
    assert ([TPunct(MINUS)] + ts)[1..] == ts;
  }

  /** `c` is what a parse of `ts` consumed when it left `rest`. */
  ghost predicate Took(ts: seq<Token>, c: seq<Token>, rest: seq<Token>) {
    ts == c + rest && c != [] && Follows(rest)
  }

  lemma {:induction false} FactorSound(ts: seq<Token>, names: seq<Name>) returns (c: seq<Token>)
    requires Factor(ts, names).Got?
    ensures Took(ts, c, Factor(ts, names).rest) && IsFactor(c, Factor(ts, names).e, names)
    decreases |ts|, 1
  {
    Shift(ts);
    c := [ts[0]];
    if Is(ts[0], LPAREN) {
      c := GroupSound(ts, names);
    } else if Is(ts[0], MINUS) {
      var inner := FactorSound(ts[1..], names);
      Negated(inner, Factor(ts[1..], names).e, names);
      c := [ts[0]] + inner;
      Assoc([ts[0]], inner, Factor(ts, names).rest);
    }
  }

  lemma {:induction false} GroupSound(ts: seq<Token>, names: seq<Name>) returns (c: seq<Token>)
    requires ts != [] && Is(ts[0], LPAREN) && Factor(ts, names).Got?
    ensures Took(ts, c, Factor(ts, names).rest) && IsFactor(c, Factor(ts, names).e, names)
    decreases |ts|, 0
  {
    Shift(ts);
    var inner := ExpressionSound(ts[1..], names);
    var after, rest := Expression(ts[1..], names).rest, Factor(ts, names).rest;
    Shift(after);
    Parenthesised(inner, Expression(ts[1..], names).e, names);
    c := [ts[0]] + (inner + [after[0]]);
    Assoc(inner, [after[0]], rest);
    Assoc([ts[0]], inner + [after[0]], rest);
  }

  lemma {:induction false} TermTailSound(pre: seq<Token>, l: Expr, ts: seq<Token>, names: seq<Name>)
    returns (c: seq<Token>)
    requires IsTerm(pre, l, names) && pre != [] && Follows(ts) && TermTail(l, ts, names).Got?
    ensures var r := TermTail(l, ts, names);
            Took(pre + ts, c, r.rest) && IsTerm(c, r.e, names) && !IsMulOp(r.rest[0])
    decreases |ts|
  {
    c := pre;
    if IsMulOp(ts[0]) {
      var right, op := ts[1..], ts[0];
      Shift(ts);
      var f := Factor(right, names);
      var b := FactorSound(right, names);
      TermJoin(pre, l, op, b, f.e, names);
      c := TermTailSound(pre + ([op] + b), Bin(OpOf(op.c), l, f.e), f.rest, names);
      Assoc(pre, [op] + b, f.rest);
      Assoc([op], b, f.rest);
    }
  }

  lemma {:induction false} TermSound(ts: seq<Token>, names: seq<Name>) returns (c: seq<Token>)
    requires Term(ts, names).Got?
    ensures var r := Term(ts, names);
            Took(ts, c, r.rest) && IsTerm(c, r.e, names) && !IsMulOp(r.rest[0])
    decreases |ts|, 2
  {
    var f := Factor(ts, names);
    var pre := FactorSound(ts, names);
    c := TermTailSound(pre, f.e, f.rest, names);
  }

  lemma {:induction false} ExprTailSound(pre: seq<Token>, l: Expr, ts: seq<Token>, names: seq<Name>)
    returns (c: seq<Token>)
    requires IsExpr(pre, l, names) && pre != [] && Follows(ts) && !IsMulOp(ts[0]) && ExprTail(l, ts, names).Got?
    ensures var r := ExprTail(l, ts, names);
            Took(pre + ts, c, r.rest) && IsExpr(c, r.e, names) && !IsMulOp(r.rest[0]) && !IsAddOp(r.rest[0])
    decreases |ts|, 3
  {
    c := pre;
    if IsAddOp(ts[0]) {
      var right, op := ts[1..], ts[0];
      Shift(ts);
      var t := Term(right, names);
      var b := TermSound(right, names);
      ExprJoin(pre, l, op, b, t.e, names);
      c := ExprTailSound(pre + ([op] + b), Bin(OpOf(op.c), l, t.e), t.rest, names);
      Assoc(pre, [op] + b, t.rest);
      Assoc([op], b, t.rest);
    }
  }

  lemma {:induction false} ExpressionSound(ts: seq<Token>, names: seq<Name>) returns (c: seq<Token>)
    requires Expression(ts, names).Got?
    ensures var r := Expression(ts, names);
            Took(ts, c, r.rest) && IsExpr(c, r.e, names) && !IsMulOp(r.rest[0]) && !IsAddOp(r.rest[0])
    decreases |ts|, 4
  {
    var t := Term(ts, names);
    var pre := TermSound(ts, names);
    c := ExprTailSound(pre, t.e, t.rest, names);
  }

  /** The parser is the grammar: it returns `e` and stops before `rest` exactly if
      the tokens up to there derive `e` and no operator follows. */
  lemma ExpressionIff(ts: seq<Token>, names: seq<Name>, e: Expr, rest: seq<Token>)
    ensures Expression(ts, names) == Got(e, rest) <==>
            exists c :: Took(ts, c, rest) && IsExpr(c, e, names) && !IsMulOp(rest[0]) && !IsAddOp(rest[0])
  {
    if Expression(ts, names) == Got(e, rest) {
      var c := ExpressionSound(ts, names);
    }
    forall c | Took(ts, c, rest) && IsExpr(c, e, names) && !IsMulOp(rest[0]) && !IsAddOp(rest[0])
      ensures Expression(ts, names) == Got(e, rest)
    {
      ExprComplete(c, e, names, rest);
    }
  }

  /** A token sequence derives at most one tree: the grammar is unambiguous. */
  lemma Unambiguous(ts: seq<Token>, e: Expr, e': Expr, names: seq<Name>)
    requires IsExpr(ts, e, names) && IsExpr(ts, e', names)
    ensures e == e'
  {
    var rest := [TPunct(SEMI)];
    ExprComplete(ts, e, names, rest);
    ExprComplete(ts, e', names, rest);
  }

  // ----- statements and programs ---------------------------------------------------------------

  /** The local table keeps 31 characters of a name. */
  function Stored(n: Name): Name { if |n| <= NAME_MAX then n else n[..NAME_MAX] }

  datatype StmtParsed = StmtFail | StmtGot(s: Stmt, rest: seq<Token>, names: seq<Name>)

  /** `'=' expr ';'` */
  function Initializer(ts: seq<Token>, names: seq<Name>): (r: Parsed)
    ensures r.Got? ==> 0 < |r.rest| < |ts|
  {
    match Expect(ts, EQUALS)
    case None => Fail
    case Some(inner) => ExprSemi(inner, names)
  }

  /** `expr ';'` */
  function ExprSemi(ts: seq<Token>, names: seq<Name>): (r: Parsed)
    ensures r.Got? ==> 0 < |r.rest| < |ts|
  {
    match Expression(ts, names)
    case Fail => Fail
    case Got(e, after) => match Expect(after, SEMI) case None => Fail case Some(rest) => Got(e, rest)
  }

  /** `NAME '=' expr ';'` after `int`; the new name is in scope in its initializer. */
  function Declaration(ts: seq<Token>, names: seq<Name>): (r: StmtParsed)
    ensures r.StmtGot? ==> 0 < |r.rest| < |ts|
  {
    if ts == [] || !ts[0].TIdent? || ts[0].name in names || |names| >= MAX_LOCALS then StmtFail
    else match Advance(ts)
      case None => StmtFail
      case Some(inner) =>
        var scope := names + [Stored(ts[0].name)];
        match Initializer(inner, scope)
        case Fail => StmtFail
        case Got(e, rest) => StmtGot(Decl(ts[0].name, e), rest, scope)
  }

  /** `'(' STRING ')' ';'` after `write`. */
  function Writing(ts: seq<Token>, names: seq<Name>): (r: StmtParsed)
    ensures r.StmtGot? ==> 0 < |r.rest| < |ts|
  {
    match Expect(ts, LPAREN)
    case None => StmtFail
    case Some(arg) =>
      if !arg[0].TStr? then StmtFail
      else match Advance(arg)
        case None => StmtFail
        case Some(close) =>
          match Expect(close, RPAREN)
          case None => StmtFail
          case Some(semi) =>
            match Expect(semi, SEMI) case None => StmtFail case Some(rest) => StmtGot(Write(arg[0].text), rest, names)
  }

  function Statement(ts: seq<Token>, names: seq<Name>): (r: StmtParsed)
    ensures r.StmtGot? ==> 0 < |r.rest| < |ts|
  {
    if ts == [] then StmtFail
    else if ts[0].TInt? then
      match Advance(ts) case None => StmtFail case Some(inner) => Declaration(inner, names)
    else if ts[0].TReturn? then
      match Advance(ts)
      case None => StmtFail
      case Some(inner) =>
        match ExprSemi(inner, names) case Fail => StmtFail case Got(e, rest) => StmtGot(Return(e), rest, names)
    else if ts[0].TWrite? then
      match Advance(ts) case None => StmtFail case Some(inner) => Writing(inner, names)
    else if ts[0].TIdent? then
      if ts[0].name !in names then StmtFail
      else match Advance(ts)
        case None => StmtFail
        case Some(inner) =>
          match Initializer(inner, names)
          case Fail => StmtFail
          case Got(e, rest) => StmtGot(Assign(ts[0].name, e), rest, names)
    else if Is(ts[0], SEMI) then
      match Advance(ts) case None => StmtFail case Some(rest) => StmtGot(Empty, rest, names)
    else StmtFail
  }

  datatype BodyParsed = BodyFail | BodyGot(body: seq<Stmt>, names: seq<Name>)

  /** Statements up to the closing brace. */
  function Body(ts: seq<Token>, names: seq<Name>): BodyParsed
    decreases |ts|
  {
    if ts == [] || ts[0].TEof? then BodyFail
    else if Is(ts[0], RBRACE) then BodyGot([], names)
    else match Statement(ts, names)
      case StmtFail => BodyFail
      case StmtGot(s, rest, names') =>
        match Body(rest, names')
        case BodyFail => BodyFail
        case BodyGot(body, all) => BodyGot([s] + body, all)
  }

  /** Everything up to the first opening brace is passed over. */
  function Program(ts: seq<Token>): BodyParsed
    decreases |ts|
  {
    if ts == [] || ts[0].TEof? || ts[0].TBad? then BodyFail
    else match Advance(ts)
      case None => BodyFail
      case Some(rest) => if Is(ts[0], LBRACE) then Body(rest, []) else Program(rest)
  }
}
