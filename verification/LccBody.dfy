/** How the code of a body grows statement by statement, and which names its
    statements may use. */
module LccBody {
  import opened RawBytes
  import opened LccWords
  import opened LccSyntax
  import opened LccGen
  import opened LccMachine
  import opened LccCode

  // ----- what was parsed is in scope ----------------------------------------------------------------------

  lemma {:induction false} FactorScoped(ts: seq<Token>, e: Expr, names: seq<Name>)
    requires IsFactor(ts, e, names)
    ensures Scoped(e, names)
    decreases |ts|, 0
  {
    if |ts| > 2 && Is(ts[0], LPAREN) && Is(ts[|ts| - 1], RPAREN) && IsExpr(ts[1..|ts| - 1], e, names) {
      ExprScoped(ts[1..|ts| - 1], e, names);
    } else if |ts| > 1 && e.Neg? {
      FactorScoped(ts[1..], e.e, names);
    }
  }

  lemma {:induction false} TermScoped(ts: seq<Token>, e: Expr, names: seq<Name>)
    requires IsTerm(ts, e, names)
    ensures Scoped(e, names)
    decreases |ts|, 1
  {
    if IsFactor(ts, e, names) {
      FactorScoped(ts, e, names);
    } else {
      var k: nat :| TermSplit(ts, k, e, names);
      TermScoped(ts[..k], e.l, names);
      FactorScoped(ts[k + 1..], e.r, names);
    }
  }

  lemma {:induction false} ExprScoped(ts: seq<Token>, e: Expr, names: seq<Name>)
    requires IsExpr(ts, e, names)
    ensures Scoped(e, names)
    decreases |ts|, 2
  {
    if IsTerm(ts, e, names) {
      TermScoped(ts, e, names);
    } else {
      var k: nat :| ExprSplit(ts, k, e, names);
      ExprScoped(ts[..k], e.l, names);
      TermScoped(ts[k + 1..], e.r, names);
    }
  }

  lemma ParsedScoped(ts: seq<Token>, names: seq<Name>)
    requires Expression(ts, names).Got?
    ensures Scoped(Expression(ts, names).e, names)
  {
    var c := ExpressionSound(ts, names);
    ExprScoped(c, Expression(ts, names).e, names);
  }

  /** A parsed statement uses names in scope and declares at most one, while there
      is room for it. */
  lemma StatementScoped(ts: seq<Token>, names: seq<Name>)
    requires Statement(ts, names).StmtGot? && |names| <= MAX_LOCALS
    ensures var r := Statement(ts, names);
            r.names == Scope(r.s, names) && StmtScoped(r.s, names) && |r.names| <= MAX_LOCALS
  {
    var r := Statement(ts, names);
    if ts[0].TInt? {
      ParsedScoped(ts[1..][1..][1..], r.names);
    } else if ts[0].TReturn? {
      ParsedScoped(ts[1..], names);
    } else if ts[0].TIdent? {
      ParsedScoped(ts[1..][1..], names);
    }
  }

  // ----- one statement more -----------------------------------------------------------------------------

  lemma {:induction false} BodySnoc(done: seq<Stmt>, s: Stmt, names: seq<Name>, pool: seq<Byte>)
    ensures Scopes(done + [s], names) == Scope(s, Scopes(done, names))
            && Pools(done + [s], pool) == Pool(s, Pools(done, pool))
    ensures GenBody(done + [s], names, pool) == GenBody(done, names, pool)
            + GenStmt(s, Scopes(done, names), Pools(done, pool))
    ensures BodyScoped(done, names) && StmtScoped(s, Scopes(done, names)) ==> BodyScoped(done + [s], names)
    decreases |done|
  {
    var all := done + [s];
    if done == [] {
      assert all == [s] && all[1..] == [];
      assert GenStmt(s, names, pool) + [] == [] + GenStmt(s, names, pool);
    } else {
      BodySnoc(done[1..], s, Scope(done[0], names), Pool(done[0], pool));
      assert all[1..] == done[1..] + [s] && all[0] == done[0];
      ItemsAssoc(GenStmt(done[0], names, pool), GenBody(done[1..], Scope(done[0], names), Pool(done[0], pool)),
                 GenStmt(s, Scopes(done, names), Pools(done, pool)));
    }
  }

  lemma ItemsAssoc(a: seq<Item>, b: seq<Item>, c: seq<Item>)
    ensures a + b + c == a + (b + c)
  {
  }

  lemma {:induction false} FixupsConcat(f: Item -> seq<Byte>, a: seq<Item>, b: seq<Item>, at: nat)
    ensures FixupsBy(f, a + b, at) == FixupsBy(f, a, at) + FixupsBy(f, b, at + |FlatMap(f, a)|)
    decreases |a|
  {
    if a == [] {
      assert a + b == b;
      assert [] + FixupsBy(f, b, at) == FixupsBy(f, b, at);
    } else {
      FixupsConcat(f, a[1..], b, at + |f(a[0])|);
      assert (a + b)[1..] == a[1..] + b && (a + b)[0] == a[0];
      FixAssoc(FixupOf(a[0], at), FixupsBy(f, a[1..], at + |f(a[0])|), FixupsBy(f, b, at + |FlatMap(f, a)|));
    }
  }

  lemma FixAssoc(a: seq<Fixup>, b: seq<Fixup>, c: seq<Fixup>)
    ensures a + b + c == a + (b + c)
  {
  }

  /** The items after the prologue and `done`. */
  function Items(done: seq<Stmt>): seq<Item> { [SetBase] + GenBody(done, [], []) }

  lemma ItemsSnoc(done: seq<Stmt>, s: Stmt)
    ensures var next := GenStmt(s, Scopes(done, []), Pools(done, []));
            && Items(done + [s]) == Items(done) + next
            && Code(Items(done + [s]), Unplaced) == Code(Items(done), Unplaced) + Code(next, Unplaced)
            && Fixups(Items(done + [s]), 0) == Fixups(Items(done), 0) + Fixups(next, |Code(Items(done), Unplaced)|)
  {
    var next, body := GenStmt(s, Scopes(done, []), Pools(done, [])), GenBody(done, [], []);
    assert GenBody(done + [s], [], []) == body + next by {
      BodySnoc(done, s, [], []);
    }
    ItemsAssoc([SetBase], body, next);
    EmittedBoth([SetBase] + body, next);
  }

  lemma EmittedBoth(a: seq<Item>, b: seq<Item>)
    ensures Code(a + b, Unplaced) == Code(a, Unplaced) + Code(b, Unplaced)
    ensures Fixups(a + b, 0) == Fixups(a, 0) + Fixups(b, |Code(a, Unplaced)|)
  {
    CodeConcat(a, b, Unplaced);
    FixupsConcat(Emitter(Unplaced), a, b, 0);
  }

  // ----- parsing and statements so far -----------------------------------------------------------------

  /** A body that starts with `done`. */
  function Prepend(done: seq<Stmt>, b: BodyParsed): BodyParsed {
    match b case BodyFail => BodyFail case BodyGot(body, names) => BodyGot(done + body, names)
  }

  lemma BodyStep(done: seq<Stmt>, ts: seq<Token>, names: seq<Name>)
    requires ts != [] && !ts[0].TEof? && !Is(ts[0], RBRACE)
    ensures var r := Statement(ts, names);
            Prepend(done, Body(ts, names)) == if r.StmtFail? then BodyFail
              else Prepend(done + [r.s], Body(r.rest, r.names))
  {
    var r := Statement(ts, names);
    if r.StmtGot? && Body(r.rest, r.names).BodyGot? {
      assert done + ([r.s] + Body(r.rest, r.names).body) == done + [r.s] + Body(r.rest, r.names).body;
    }
  }
}
