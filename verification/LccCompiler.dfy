/** The compiler itself: a lexer with one token of lookahead, a parser that emits
    code as it goes, and the tables it fills. */
module LccCompiler {
  import opened RawBytes
  import opened LccWords
  import opened LccSyntax
  import opened LccLex
  import opened LccGen
  import opened LccMachine
  import opened LccCode
  import opened LccBody

  const MAX_CODE: nat := 65536
  const MAX_STR: nat := 8192
  const MAX_FIX: nat := 512

  /** Why a compilation went on or died: the source is at fault, or a table of the
      compiler is full. */
  datatype Verdict = Good | Syntax | Full

  // ----- what the emitters emit --------------------------------------------------------------------

  lemma Bytes1(i: Item, x: Instr)
    requires Lower(i, Unplaced) == [x]
    ensures Emit(i, Unplaced) == Encoding(x)
  {
    FlatMapOne(Encoding, x);
  }

  lemma Bytes3(i: Item, x: Instr, y: Instr, z: Instr)
    requires Lower(i, Unplaced) == [x, y, z]
    ensures Emit(i, Unplaced) == Encoding(x) + Encoding(y) + Encoding(z)
  {
    assert [x, y, z] == [x] + ([y] + [z]);
    AssembleHead(x, [y] + [z]);
    AssembleHead(y, [z]);
    FlatMapOne(Encoding, z);
    Join(Encoding(x), Encoding(y), Encoding(z));
  }

  /** The bytes of one operation, after `mov rcx, rax; pop rax`. */
  function OpBytes(op: Op): seq<Byte> {
    match op
    case Mul => [0x48, 0x0F, 0xAF, 0xC1]
    case Add => [0x48, 0x01, 0xC8]
    case Sub => [0x48, 0x29, 0xC8]
    case Div => [0x48, 0x99] + [0x48, 0xF7, 0xF9]
    case Mod => [0x48, 0x99] + [0x48, 0xF7, 0xF9] + [0x48, 0x89, 0xD0]
  }

  lemma DivideBytes()
    ensures Assemble([Cqo, IdivRcx]) == OpBytes(Div) && Assemble([Cqo, IdivRcx, MovRaxRdx]) == OpBytes(Mod)
  {
    assert [Cqo, IdivRcx] == [Cqo] + [IdivRcx] && [Cqo, IdivRcx, MovRaxRdx] == [Cqo, IdivRcx] + [MovRaxRdx];
    AssembleHead(Cqo, [IdivRcx]);
    FlatMapOne(Encoding, IdivRcx);
    FlatMapOne(Encoding, MovRaxRdx);
    FlatMapConcat(Encoding, [Cqo, IdivRcx], [MovRaxRdx]);
  }

  lemma OpAssembles(op: Op)
    ensures Assemble(Lower(Apply(op), Unplaced)[2..]) == OpBytes(op)
  {
    var list := Lower(Apply(op), Unplaced)[2..];
    match op
    case Mul => FlatMapOne(Encoding, ImulRaxRcx); assert list == [ImulRaxRcx];
    case Add => FlatMapOne(Encoding, AddRaxRcx); assert list == [AddRaxRcx];
    case Sub => FlatMapOne(Encoding, SubRaxRcx); assert list == [SubRaxRcx];
    case Div => DivideBytes(); assert list == [Cqo, IdivRcx];
    case Mod => DivideBytes(); assert list == [Cqo, IdivRcx, MovRaxRdx];
  }

  lemma ApplyEmits(op: Op)
    ensures Emit(Apply(op), Unplaced) == [0x48, 0x89, 0xC1] + [0x58] + OpBytes(op)
  {
    var list := Lower(Apply(op), Unplaced);
    assert list == [MovRcxRax] + ([PopRax] + list[2..]);
    AssembleHead(MovRcxRax, [PopRax] + list[2..]);
    AssembleHead(PopRax, list[2..]);
    OpAssembles(op);
    Join([0x48, 0x89, 0xC1], [0x58], OpBytes(op));
  }

  /** Code of an operand, then of an item. */
  lemma CodeThen(items: seq<Item>, i: Item)
    ensures Code(items + [i], Unplaced) == Code(items, Unplaced) + Emit(i, Unplaced)
  {
    CodeConcat(items, [i], Unplaced);
    CodeOne(i, Unplaced);
  }

  lemma BinCode(op: Op, l: Expr, r: Expr, names: seq<Name>)
    ensures Code(GenExpr(Bin(op, l, r), names), Unplaced) ==
            Code(GenExpr(l, names), Unplaced) + Emit(Push, Unplaced) + Code(GenExpr(r, names), Unplaced)
              + Emit(Apply(op), Unplaced)
  {
    var a, b := GenExpr(l, names), GenExpr(r, names);
    CodeThen(a, Push);
    CodeConcat(a + [Push], b, Unplaced);
    CodeThen(a + [Push] + b, Apply(op));
  }

  /** How much code an expression takes. */
  function Size(e: Expr, names: seq<Name>): nat { |Code(GenExpr(e, names), Unplaced)| }

  lemma BinSize(op: Op, l: Expr, r: Expr, names: seq<Name>)
    ensures Size(Bin(op, l, r), names) == Size(l, names) + |Emit(Push, Unplaced)| + Size(r, names)
            + |Emit(Apply(op), Unplaced)|
  {
    BinCode(op, l, r, names);
  }

  /** Operators to the right only add code. */
  lemma {:induction false} TermTailGrows(l: Expr, ts: seq<Token>, names: seq<Name>)
    requires TermTail(l, ts, names).Got?
    ensures Size(l, names) <= Size(TermTail(l, ts, names).e, names)
    decreases |ts|
  {
    if IsMulOp(ts[0]) {
      MulRightGrows(l, ts, names);
    }
  }

  lemma {:induction false} MulRightGrows(l: Expr, ts: seq<Token>, names: seq<Name>)
    requires ts != [] && IsMulOp(ts[0]) && TermTail(l, ts, names).Got?
    ensures Advance(ts).Some? && Factor(ts[1..], names).Got?
    ensures Size(l, names) + |Emit(Push, Unplaced)| + Size(Factor(ts[1..], names).e, names)
            + |Emit(Apply(OpOf(ts[0].c)), Unplaced)|
            <= Size(TermTail(l, ts, names).e, names)
    decreases |ts|, 0
  {
    var r := Factor(ts[1..], names);
    BinSize(OpOf(ts[0].c), l, r.e, names);
    TermTailGrows(Bin(OpOf(ts[0].c), l, r.e), r.rest, names);
  }

  lemma {:induction false} ExprTailGrows(l: Expr, ts: seq<Token>, names: seq<Name>)
    requires ExprTail(l, ts, names).Got?
    ensures Size(l, names) <= Size(ExprTail(l, ts, names).e, names)
    decreases |ts|
  {
    if IsAddOp(ts[0]) {
      AddRightGrows(l, ts, names);
    }
  }

  lemma {:induction false} AddRightGrows(l: Expr, ts: seq<Token>, names: seq<Name>)
    requires ts != [] && IsAddOp(ts[0]) && ExprTail(l, ts, names).Got?
    ensures Advance(ts).Some? && Term(ts[1..], names).Got?
    ensures Size(l, names) + |Emit(Push, Unplaced)| + Size(Term(ts[1..], names).e, names)
            + |Emit(Apply(OpOf(ts[0].c)), Unplaced)|
            <= Size(ExprTail(l, ts, names).e, names)
    decreases |ts|, 0
  {
    var r := Term(ts[1..], names);
    BinSize(OpOf(ts[0].c), l, r.e, names);
    ExprTailGrows(Bin(OpOf(ts[0].c), l, r.e), r.rest, names);
  }

  class Compiler {
    const src: Source
    var pos: nat
    var tok: Token
    var code: seq<Byte>
    var pool: seq<Byte>
    var names: seq<Name>
    var fixups: seq<Fixup>
    ghost var rest: seq<Token>  // the tokens still to be parsed, the one at hand first
    ghost var ends: seq<nat>    // where each of them ends

    constructor (source: Source)
      ensures src == source && pos == 0 && code == [] && pool == [] && names == [] && fixups == []
    {
      src, pos, tok, code, pool, names, fixups := source, 0, TEof, [], [], [], [];
      rest, ends := [], [];
    }

    ghost predicate Valid()
      reads this
    {
      && LexTrace(src, rest, ends) && rest[0] == tok && ends[0] == pos <= |src|
      && !tok.TBad? && |code| <= MAX_CODE && (tok.TStr? ==> |tok.text| <= TOKEN_MAX)
    }

    // ----- lexer -------------------------------------------------------------------------------------

    method SkipWs()
      requires pos <= |src|
      modifies this`pos
      ensures pos <= |src| && pos == SkipSpace(src, old(pos))
    {
      while true
        invariant pos <= |src| && SkipSpace(src, pos) == SkipSpace(src, old(pos))
        decreases |src| - pos
      {
        while pos < |src| && IsSpace(src[pos])
          invariant pos <= |src| && SkipSpace(src, pos) == SkipSpace(src, old(pos))
          decreases |src| - pos
        {
          pos := pos + 1;
        }
        if !CommentAt(src, pos) { break; }
        ghost var p := pos;
        pos := pos + 1;
        while pos < |src| && src[pos] != NEWLINE
          invariant p < pos <= |src| && LineEnd(src, pos) == LineEnd(src, p + 1)
          decreases |src| - pos
        {
          pos := pos + 1;
        }
      }
    }

    method ReadNumber()
      requires pos < |src| && IsDigit(src[pos])
      modifies this`pos, this`tok
      ensures pos == DigitsEnd(src, old(pos)) && tok == TNum(ToWord(Decimal(src[old(pos)..pos])))
    {
      ghost var p := pos;
      var v: Word := 0;
      while pos < |src| && IsDigit(src[pos])
        invariant p <= pos <= |src| && DigitsEnd(src, pos) == DigitsEnd(src, p)
        invariant v == ToWord(Decimal(src[p..pos]))
        decreases |src| - pos
      {
        DigitMore(src, p, pos);
        v := ToWord(v * 10 + (src[pos] - 48));
        pos := pos + 1;
      }
      tok := TNum(v);
    }

    method ReadIdent()
      requires pos < |src| && IsIdStart(src[pos])
      modifies this`pos, this`tok
      ensures pos == IdEnd(src, old(pos), TOKEN_MAX) && tok == Keyword(src[old(pos)..pos])
    {
      ghost var p := pos;
      var text: seq<Byte> := [];
      while pos < |src| && IsId(src[pos]) && |text| < TOKEN_MAX
        invariant p <= pos <= |src| && text == src[p..pos] && |text| <= TOKEN_MAX
        invariant IdEnd(src, pos, TOKEN_MAX - |text|) == IdEnd(src, p, TOKEN_MAX)
        decreases |src| - pos
      {
        text := text + [src[pos]];
        pos := pos + 1;
      }
      tok := Keyword(text);
    }

    /** One character of a literal, escapes resolved. */
    method ReadChar() returns (ch: Byte)
      requires pos < |src|
      modifies this`pos
      ensures (ch, pos) == CharAt(src, old(pos))
    {
      ch := src[pos];
      pos := pos + 1;
      if ch == BACKSLASH && pos < |src| {
        ch := Escape(src[pos]);
        pos := pos + 1;
      }
    }

    /** The literal after the opening quote. */
    method ReadString()
      requires pos <= |src|
      modifies this`pos, this`tok
      ensures var t := Literal(src, old(pos), TOKEN_MAX);
              if t.next < |src| && src[t.next] == QUOTE then tok == TStr(t.text) && pos == t.next + 1
              else tok == TBad && pos == t.next
    {
      ghost var whole := Literal(src, pos, TOKEN_MAX);
      var text: seq<Byte> := [];
      while pos < |src| && src[pos] != QUOTE && |text| < TOKEN_MAX
        invariant pos <= |src| && |text| <= TOKEN_MAX
        invariant Continues(whole, text, Literal(src, pos, TOKEN_MAX - |text|))
        decreases |src| - pos
      {
        LiteralStep(src, pos, whole, text);
        var ch := ReadChar();
        text := text + [ch];
      }
      if pos >= |src| || src[pos] != QUOTE {
        tok := TBad;
      } else {
        pos := pos + 1;
        tok := TStr(text);
      }
    }

    /** Read the next token; false if it is malformed. */
    method LexToken() returns (ok: bool)
      requires pos <= |src|
      modifies this`pos, this`tok
      ensures pos <= |src| && Lexed(tok, pos) == Lex(src, old(pos)) && ok == !tok.TBad?
    {
      SkipWs();
      if pos >= |src| {
        tok := TEof;
      } else if IsDigit(src[pos]) {
        ReadNumber();
      } else if IsIdStart(src[pos]) {
        ReadIdent();
      } else if src[pos] == QUOTE {
        pos := pos + 1;
        ReadString();
      } else {
        tok, pos := TPunct(src[pos]), pos + 1;
      }
      ok := !tok.TBad?;
    }

    /** The first token. */
    method Start() returns (v: Verdict)
      requires pos == 0 && |code| <= MAX_CODE
      modifies this`pos, this`tok, this`rest, this`ends
      ensures rest == Stream(src, 0)
      ensures v == Good ==> Valid()
      ensures v != Good ==> v == Syntax && rest[0].TBad?
    {
      rest, ends := Stream(src, 0), TokenEnds(src, 0);
      StreamTrace(src, 0);
      var ok := LexToken();
      v := if ok then Good else Syntax;
    }

    method Next() returns (v: Verdict)
      requires Valid() && !tok.TEof?
      modifies this`pos, this`tok, this`rest, this`ends
      ensures v == Good ==> Valid() && Advance(old(rest)) == Some(rest)
      ensures v != Good ==> v == Syntax && Advance(old(rest)) == None
    {
      assert LexStep(src, rest, ends, 0);
      TraceTail(src, rest, ends);
      var ok := LexToken();
      v := if ok then Good else Syntax;
      rest, ends := rest[1..], ends[1..];
    }

    method ExpectPunct(c: Byte) returns (v: Verdict)
      requires Valid()
      modifies this`pos, this`tok, this`rest, this`ends
      ensures v == Good ==> Valid() && Expect(old(rest), c) == Some(rest)
      ensures v != Good ==> v == Syntax && Expect(old(rest), c) == None
    {
      if tok != TPunct(c) { return Syntax; }
      v := Next();
    }

    // ----- emitter -----------------------------------------------------------------------------------

    /** The code grew by `b`, or `b` does not fit the buffer. */
    twostate predicate Grew(v: Verdict, b: seq<Byte>)
      reads this
    {
      && |code| <= MAX_CODE
      && (v == Good ==> code == old(code) + b)
      && (v != Good ==> v == Full && |old(code)| + |b| > MAX_CODE)
    }

    method EmitByte(b: Byte) returns (v: Verdict)
      requires |code| <= MAX_CODE
      modifies this`code
      ensures Grew(v, [b])
    {
      if |code| >= MAX_CODE { return Full; }
      code := code + [b];
      v := Good;
    }

    /** A run of single-byte emissions. */
    method EmitAll(b: seq<Byte>) returns (v: Verdict)
      requires |code| <= MAX_CODE
      modifies this`code
      ensures Grew(v, b)
    {
      v := Good;
      var i := 0;
      while i < |b|
        invariant i <= |b| && v == Good && |code| <= MAX_CODE && code == old(code) + b[..i]
      {
        v := EmitByte(b[i]);
        if v != Good { return; }
        i := i + 1;
      }
    }

    /** An immediate of `n` bytes, least significant first. */
    method EmitImm(x: nat, n: nat) returns (v: Verdict)
      requires |code| <= MAX_CODE
      modifies this`code
      ensures Grew(v, LE(x, n))
    {
      v := Good;
      var i, y := 0, x;
      while i < n
        invariant i <= n && v == Good && |code| <= MAX_CODE && code + LE(y, n - i) == old(code) + LE(x, n)
      {
        ghost var before := code;
        v := EmitByte(y % 256);
        if v != Good { return; }
        assert before + ([y % 256] + LE(y / 256, n - i - 1)) == code + LE(y / 256, n - i - 1);
        y := y / 256;
        i := i + 1;
      }
    }

    method EmitWide(p: seq<Byte>, x: nat, n: nat) returns (v: Verdict)
      requires |code| <= MAX_CODE
      modifies this`code
      ensures Grew(v, p + LE(x, n))
    {
      v := EmitAll(p);
      if v == Good {
        v := EmitImm(x, n);
      }
    }

    method MovRaxImm(x: Word) returns (v: Verdict)
      requires |code| <= MAX_CODE
      modifies this`code
      ensures Grew(v, Emit(Imm(x), Unplaced))
    {
      Bytes1(Imm(x), MovRax(x));
      v := EmitWide([0x48, 0xB8], x, 8);
    }

    method LoadLocal(slot: nat) returns (v: Verdict)
      requires |code| <= MAX_CODE
      modifies this`code
      ensures Grew(v, Emit(Load(slot), Unplaced))
    {
      Bytes1(Load(slot), LoadRax(8 * slot));
      v := EmitWide([0x49, 0x8B, 0x87], slot * 8, 4);
    }

    method StoreLocal(slot: nat) returns (v: Verdict)
      requires |code| <= MAX_CODE
      modifies this`code
      ensures Grew(v, Emit(Store(slot), Unplaced))
    {
      Bytes1(Store(slot), StoreRax(8 * slot));
      v := EmitWide([0x49, 0x89, 0x87], slot * 8, 4);
    }

    method PushLeft() returns (v: Verdict)
      requires |code| <= MAX_CODE
      modifies this`code
      ensures Grew(v, Emit(Push, Unplaced))
    {
      Bytes1(Push, PushRax);
      v := EmitByte(0x50);
    }

    method NegateRax() returns (v: Verdict)
      requires |code| <= MAX_CODE
      modifies this`code
      ensures Grew(v, Emit(Negate, Unplaced))
    {
      Bytes1(Negate, NegRax);
      v := EmitAll([0x48, 0xF7, 0xD8]);
    }

    /** Right operand to rcx, left operand back to rax, and the operation. */
    method ApplyOp(c: Byte) returns (v: Verdict)
      requires |code| <= MAX_CODE && (IsMulOp(TPunct(c)) || IsAddOp(TPunct(c)))
      modifies this`code
      ensures Grew(v, Emit(Apply(OpOf(c)), Unplaced))
    {
      ApplyEmits(OpOf(c));
      v := EmitAll([0x48, 0x89, 0xC1]);
      if v != Good { return; }
      v := EmitByte(0x58);
      if v != Good { return; }
      v := EmitOp(c);
      Join(old(code), [0x48, 0x89, 0xC1] + [0x58], OpBytes(OpOf(c)));
      Join(old(code), [0x48, 0x89, 0xC1], [0x58]);
    }

    method EmitOp(c: Byte) returns (v: Verdict)
      requires |code| <= MAX_CODE && (IsMulOp(TPunct(c)) || IsAddOp(TPunct(c)))
      modifies this`code
      ensures Grew(v, OpBytes(OpOf(c)))
    {
      if c == STAR {
        v := EmitAll([0x48, 0x0F, 0xAF, 0xC1]);
      } else if c == PLUS {
        v := EmitAll([0x48, 0x01, 0xC8]);
      } else if c == MINUS {
        v := EmitAll([0x48, 0x29, 0xC8]);
      } else {
        v := EmitDivide();
        if v != Good { return; }
        if c == PERCENT {
          v := EmitAll([0x48, 0x89, 0xD0]);
          Join(old(code), [0x48, 0x99] + [0x48, 0xF7, 0xF9], [0x48, 0x89, 0xD0]);
        }
      }
    }

    method EmitDivide() returns (v: Verdict)
      requires |code| <= MAX_CODE
      modifies this`code
      ensures Grew(v, [0x48, 0x99] + [0x48, 0xF7, 0xF9])
    {
      v := EmitAll([0x48, 0x99]);
      if v != Good { return; }
      v := EmitAll([0x48, 0xF7, 0xF9]);
      Join(old(code), [0x48, 0x99], [0x48, 0xF7, 0xF9]);
    }

    // ----- expressions -------------------------------------------------------------------------------

    /** The expression was parsed as `r` and its code appended, or the parse fails,
        or the code of the expression does not fit the buffer. */
    twostate predicate Compiled(v: Verdict, r: Parsed)
      reads this
    {
      && (v == Good ==> && r.Got? && Valid() && rest == r.rest
                        && code == old(code) + Code(GenExpr(r.e, names), Unplaced))
      && (v == Syntax ==> r == Fail)
      && (v == Full ==> (r.Got? ==> |old(code)| + Size(r.e, names) > MAX_CODE))
    }

    method GenNumber() returns (v: Verdict)
      requires Valid() && tok.TNum?
      modifies this`pos, this`tok, this`rest, this`ends, this`code
      ensures Compiled(v, Factor(old(rest), names))
    {
      ghost var e := Num(tok.num);
      CodeOne(Imm(tok.num), Unplaced);
      v := MovRaxImm(tok.num);
      if v == Good {
        v := Next();
      }
    }

    method LocalSlot(name: Name) returns (i: nat)
      ensures i == Slot(names, name)
    {
      i := 0;
      while i < |names| && names[i] != name
        invariant i <= |names| && forall j :: 0 <= j < i ==> names[j] != name
      {
        i := i + 1;
      }
      SlotUnique(names, name, i);
    }

    method GenVariable() returns (v: Verdict)
      requires Valid() && tok.TIdent?
      modifies this`pos, this`tok, this`rest, this`ends, this`code
      ensures Compiled(v, Factor(old(rest), names))
    {
      var s := LocalSlot(tok.name);
      if s >= |names| { return Syntax; }
      CodeOne(Load(s), Unplaced);
      v := LoadLocal(s);
      if v == Good {
        v := Next();
      }
    }

    method GenFactor() returns (v: Verdict)
      requires Valid()
      modifies this`pos, this`tok, this`rest, this`ends, this`code
      ensures Compiled(v, Factor(old(rest), names))
      decreases |rest|, 1
    {
      if tok.TNum? {
        v := GenNumber();
      } else if tok.TIdent? {
        v := GenVariable();
      } else if tok == TPunct(LPAREN) {
        v := GenGroup();
      } else if tok == TPunct(MINUS) {
        v := GenNegation();
      } else {
        v := Syntax;
      }
    }

    method GenGroup() returns (v: Verdict)
      requires Valid() && tok == TPunct(LPAREN)
      modifies this`pos, this`tok, this`rest, this`ends, this`code
      ensures Compiled(v, Factor(old(rest), names))
      decreases |rest|, 0
    {
      v := Next();
      if v != Good { return; }
      v := GenExpression();
      if v != Good { return; }
      v := ExpectPunct(RPAREN);
    }

    method GenNegation() returns (v: Verdict)
      requires Valid() && tok == TPunct(MINUS)
      modifies this`pos, this`tok, this`rest, this`ends, this`code
      ensures Compiled(v, Factor(old(rest), names))
      decreases |rest|, 0
    {
      v := Next();
      if v != Good { return; }
      ghost var r := Factor(rest, names);
      if r.Got? {
        NegationLonger(r.e, names);
      }
      v := GenFactor();
      if v != Good { return; }
      v := FinishNegation(r.e, old(code));
    }

    /** The operand's code is out; negate what it leaves. */
    method FinishNegation(ghost e: Expr, ghost code0: seq<Byte>) returns (v: Verdict)
      requires Valid() && code == code0 + Code(GenExpr(e, names), Unplaced)
      modifies this`code
      ensures v == Good || v == Full
      ensures v == Good ==> Valid() && code == code0 + Code(GenExpr(Neg(e), names), Unplaced)
      ensures v == Full ==> |code0| + Size(Neg(e), names) > MAX_CODE
    {
      CodeThen(GenExpr(e, names), Negate);
      Join(code0, Code(GenExpr(e, names), Unplaced), Emit(Negate, Unplaced));
      v := NegateRax();
    }

    method GenTerm() returns (v: Verdict)
      requires Valid()
      modifies this`pos, this`tok, this`rest, this`ends, this`code
      ensures Compiled(v, Term(old(rest), names))
      decreases |rest|, 2
    {
      ghost var ts := rest;
      ghost var l := Factor(ts, names);
      if Term(ts, names).Got? {
        TermTailGrows(l.e, l.rest, names);
      }
      v := GenFactor();
      if v != Good { return; }
      ghost var e := l.e;
      while IsMulOp(tok)
        invariant v == Good && Valid() && Term(ts, names) == TermTail(e, rest, names) && |rest| < |ts|
        invariant code == old(code) + Code(GenExpr(e, names), Unplaced)
        decreases |rest|
      {
        v, e := GenMulRight(e, old(code));
        if v != Good { return; }
      }
    }

    /** An operator and its right operand, with the left operand `l` compiled. */
    method GenMulRight(ghost l: Expr, ghost before: seq<Byte>) returns (v: Verdict, ghost e: Expr)
      requires Valid() && IsMulOp(tok) && code == before + Code(GenExpr(l, names), Unplaced)
      modifies this`pos, this`tok, this`rest, this`ends, this`code
      ensures v == Good ==>
                && Valid() && |rest| < |old(rest)| && TermTail(l, old(rest), names) == TermTail(e, rest, names)
                            && code == before + Code(GenExpr(e, names), Unplaced)
      ensures v == Syntax ==> TermTail(l, old(rest), names) == Fail
      ensures v == Full ==> var r := TermTail(l, old(rest), names); r.Got? ==> |before| + Size(r.e, names) > MAX_CODE
      decreases |rest|
    {
      var c := tok.c;
      e := l;
      if TermTail(l, rest, names).Got? {
        MulRightGrows(l, rest, names);
      }
      v := Next();
      if v != Good { return; }
      v := PushLeft();
      if v != Good { return; }
      ghost var r := Factor(rest, names);
      v := GenFactor();
      if v != Good { return; }
      e := Bin(OpOf(c), l, r.e);
      v := ApplyOp(c);
      BinAppended(OpOf(c), l, r.e, names, before);
    }

    method GenAddRight(ghost l: Expr, ghost before: seq<Byte>) returns (v: Verdict, ghost e: Expr)
      requires Valid() && IsAddOp(tok) && code == before + Code(GenExpr(l, names), Unplaced)
      modifies this`pos, this`tok, this`rest, this`ends, this`code
      ensures v == Good ==>
                && Valid() && |rest| < |old(rest)| && ExprTail(l, old(rest), names) == ExprTail(e, rest, names)
                            && code == before + Code(GenExpr(e, names), Unplaced)
      ensures v == Syntax ==> ExprTail(l, old(rest), names) == Fail
      ensures v == Full ==> var r := ExprTail(l, old(rest), names); r.Got? ==> |before| + Size(r.e, names) > MAX_CODE
      decreases |rest|
    {
      var c := tok.c;
      e := l;
      if ExprTail(l, rest, names).Got? {
        AddRightGrows(l, rest, names);
      }
      v := Next();
      if v != Good { return; }
      v := PushLeft();
      if v != Good { return; }
      ghost var r := Term(rest, names);
      v := GenTerm();
      if v != Good { return; }
      e := Bin(OpOf(c), l, r.e);
      v := ApplyOp(c);
      BinAppended(OpOf(c), l, r.e, names, before);
    }

    method GenExpression() returns (v: Verdict)
      requires Valid()
      modifies this`pos, this`tok, this`rest, this`ends, this`code
      ensures Compiled(v, Expression(old(rest), names))
      decreases |rest|, 3
    {
      ghost var ts := rest;
      ghost var l := Term(ts, names);
      if Expression(ts, names).Got? {
        ExprTailGrows(l.e, l.rest, names);
      }
      v := GenTerm();
      if v != Good { return; }
      ghost var e := l.e;
      while IsAddOp(tok)
        invariant v == Good && Valid() && Expression(ts, names) == ExprTail(e, rest, names) && |rest| < |ts|
        invariant code == old(code) + Code(GenExpr(e, names), Unplaced)
        decreases |rest|
      {
        v, e := GenAddRight(e, old(code));
        if v != Good { return; }
      }
    }

    // ----- statements ----------------------------------------------------------------------------------

    /** The statement was parsed as `r` and its code, strings, names and fixups
        recorded, or the parse fails, or what it adds does not fit a table. */
    twostate predicate StmtDone(v: Verdict, r: StmtParsed)
      reads this
    {
      && (v == Good ==> && r.StmtGot? && Valid() && rest == r.rest && names == r.names
                        && code == old(code) + Code(GenStmt(r.s, old(names), old(pool)), Unplaced)
                        && pool == Pool(r.s, old(pool)) && |pool| <= MAX_STR && |fixups| <= MAX_FIX
                        && (r.s.Write? ==> |r.s.text| <= TOKEN_MAX)
                        && fixups == old(fixups) + Fixups(GenStmt(r.s, old(names), old(pool)), |old(code)|))
      && (v == Syntax ==> r == StmtFail)
      && (v == Full && r.StmtGot? ==> || |old(code)| + |Code(GenStmt(r.s, old(names), old(pool)), Unplaced)| > MAX_CODE
                                      || |Pool(r.s, old(pool))| > MAX_STR
                                      || |old(fixups)|
                                         + |Fixups(GenStmt(r.s, old(names), old(pool)), |old(code)|)| > MAX_FIX)
    }

    /** `expr ';'` and then an item that uses the value. */
    method GenExprSemi() returns (v: Verdict)
      requires Valid()
      modifies this`pos, this`tok, this`rest, this`ends, this`code
      ensures Compiled(v, ExprSemi(old(rest), names))
    {
      v := GenExpression();
      if v != Good { return; }
      v := ExpectPunct(SEMI);
    }

    method GenInitializer() returns (v: Verdict)
      requires Valid()
      modifies this`pos, this`tok, this`rest, this`ends, this`code
      ensures Compiled(v, Initializer(old(rest), names))
    {
      v := ExpectPunct(EQUALS);
      if v != Good { return; }
      v := GenExprSemi();
    }

    method LocalDeclare(name: Name) returns (v: Verdict, slot: nat)
      modifies this`names
      ensures v == Good <==> old(name !in names && |names| < MAX_LOCALS)
      ensures v == Good ==> names == old(names) + [Stored(name)] && slot == |old(names)|
      ensures v != Good ==> v == Syntax && names == old(names)
    {
      var s := LocalSlot(name);
      slot := |names|;
      if s < |names| { return Syntax, slot; }
      if |names| >= MAX_LOCALS { return Syntax, slot; }
      names := names + [if |name| > NAME_MAX then name[..NAME_MAX] else name];
      v := Good;
    }

    /** `= expr ;` stored to a slot. */
    method GenStore(slot: nat) returns (v: Verdict)
      requires Valid()
      modifies this`pos, this`tok, this`rest, this`ends, this`code
      ensures var r := Initializer(old(rest), names);
              && (v == Good ==> && r.Got? && Valid() && rest == r.rest
                                && code == old(code) + Code(GenExpr(r.e, names) + [Store(slot)], Unplaced)
                                && Fixups(GenExpr(r.e, names) + [Store(slot)], |old(code)|) == [])
              && (v == Syntax ==> r == Fail)
              && (v == Full && r.Got? ==> |old(code)| + |Code(GenExpr(r.e, names) + [Store(slot)],
                                                              Unplaced)| > MAX_CODE)
    {
      ghost var r := Initializer(rest, names);
      if r.Got? {
        UseAppended(r.e, names, Store(slot), old(code));
      }
      v := GenInitializer();
      if v != Good { return; }
      v := StoreLocal(slot);
    }

    method GenDeclaration() returns (v: Verdict)
      requires Valid() && tok.TInt? && |pool| <= MAX_STR && |fixups| <= MAX_FIX
      modifies this`pos, this`tok, this`rest, this`ends, this`code, this`names
      ensures StmtDone(v, Statement(old(rest), old(names)))
    {
      v := Next();
      if v != Good { return; }
      if !tok.TIdent? { return Syntax; }
      var slot;
      v, slot := LocalDeclare(tok.name);
      if v != Good { return; }
      v := Next();
      if v != Good { return; }
      v := GenStore(slot);
    }

    method GenAssignment() returns (v: Verdict)
      requires Valid() && tok.TIdent? && |pool| <= MAX_STR && |fixups| <= MAX_FIX
      modifies this`pos, this`tok, this`rest, this`ends, this`code
      ensures StmtDone(v, Statement(old(rest), old(names)))
    {
      var slot := LocalSlot(tok.name);
      if slot >= |names| { return Syntax; }
      v := Next();
      if v != Good { return; }
      v := GenStore(slot);
    }

    method EmitQuit() returns (v: Verdict)
      requires |code| <= MAX_CODE
      modifies this`code
      ensures Grew(v, Emit(Quit, Unplaced))
    {
      Bytes3(Quit, MovRdiRax, MovEax(60), Syscall);
      Join4(code, Encoding(MovRdiRax), Encoding(MovEax(60)), Encoding(Syscall));
      v := EmitAll([0x48, 0x89, 0xC7]);
      if v != Good { return; }
      v := EmitWide([0xB8], 60, 4);
      if v != Good { return; }
      v := EmitAll([0x0F, 0x05]);
    }

    method GenReturn() returns (v: Verdict)
      requires Valid() && tok.TReturn? && |pool| <= MAX_STR && |fixups| <= MAX_FIX
      modifies this`pos, this`tok, this`rest, this`ends, this`code
      ensures StmtDone(v, Statement(old(rest), old(names)))
    {
      v := Next();
      if v != Good { return; }
      ghost var r := ExprSemi(rest, names);
      if r.Got? {
        UseAppended(r.e, names, Quit, old(code));
      }
      v := GenExprSemi();
      if v != Good { return; }
      v := EmitQuit();
    }

    /** The string pool grows by the literal; its offset is where it starts. */
    method StrIntern(text: seq<Byte>) returns (v: Verdict, off: nat)
      requires |pool| <= MAX_STR
      modifies this`pool
      ensures v == Good ==> pool == old(pool) + text && off == |old(pool)| && |pool| <= MAX_STR
      ensures v != Good ==> v == Full && pool == old(pool) && |pool + text| > MAX_STR
    {
      off := |pool|;
      if |pool| + |text| > MAX_STR { return Full, off; }
      pool := pool + text;
      v := Good;
    }

    method AddFixup(f: Fixup) returns (v: Verdict)
      requires |fixups| <= MAX_FIX
      modifies this`fixups
      ensures v == Good ==> fixups == old(fixups) + [f] && |fixups| <= MAX_FIX
      ensures v != Good ==> v == Full && fixups == old(fixups) && |fixups| == MAX_FIX
    {
      if |fixups| >= MAX_FIX { return Full; }
      fixups := fixups + [f];
      v := Good;
    }

    /** The five instructions of `write(1, text, len)`, with a hole for the address. */
    method EmitPrint(off: nat, len: nat) returns (v: Verdict)
      requires |code| <= MAX_CODE && |fixups| <= MAX_FIX
      modifies this`code, this`fixups
      ensures v == Good ==> && code == old(code) + Emit(Print(off, len), Unplaced) && |code| <= MAX_CODE
                            && fixups == old(fixups) + [FixStr(|old(code)| + 12, off)] && |fixups| <= MAX_FIX
      ensures v != Good ==>
                v == Full && (|old(code)| + |Emit(Print(off, len), Unplaced)| > MAX_CODE || |old(fixups)| == MAX_FIX)
    {
      PrintShape(off, len, Unplaced);
      v := EmitPrintHead();
      if v != Good { return; }
      v := AddFixup(FixStr(|code|, off));
      if v != Good { return; }
      v := EmitImm(0, 8);
      if v != Good { return; }
      v := EmitPrintTail(len);
      Join4(old(code), PrintHead(), LE(0, 8), PrintTail(len));
    }

    method EmitPrintHead() returns (v: Verdict)
      requires |code| <= MAX_CODE
      modifies this`code
      ensures Grew(v, PrintHead())
    {
      v := EmitWide([0xB8], 1, 4);
      if v != Good { return; }
      v := EmitWide([0xBF], 1, 4);
      if v != Good { return; }
      v := EmitAll([0x48, 0xBE]);
      Join(old(code), Encoding(MovEax(1)), Encoding(MovEdi(1)));
      Join(old(code), Encoding(MovEax(1)) + Encoding(MovEdi(1)), [0x48, 0xBE]);
    }

    method EmitPrintTail(len: nat) returns (v: Verdict)
      requires |code| <= MAX_CODE
      modifies this`code
      ensures Grew(v, PrintTail(len))
    {
      v := EmitWide([0xBA], len, 4);
      if v != Good { return; }
      v := EmitAll([0x0F, 0x05]);
      Join(old(code), Encoding(MovEdx(len)), Encoding(Syscall));
    }

    /** `( STRING ) ;` after `write`: the literal goes to the pool. */
    method ParseWrite() returns (v: Verdict, off: nat, len: nat)
      requires Valid() && |pool| <= MAX_STR
      modifies this`pos, this`tok, this`rest, this`ends, this`pool
      ensures var r := Writing(old(rest), names);
              && (v == Good ==>
                    && r.StmtGot? && Valid() && rest == r.rest && pool == Pool(r.s, old(pool)) && |pool| <= MAX_STR
                    && r.s.Write? && off == |old(pool)| && len == |r.s.text| <= TOKEN_MAX)
              && (v == Syntax ==> r == StmtFail)
              && (v == Full && r.StmtGot? ==> |Pool(r.s, old(pool))| > MAX_STR)
    {
      off, len := 0, 0;
      v := ExpectPunct(LPAREN);
      if v != Good { return; }
      if !tok.TStr? { return Syntax, off, len; }
      len := |tok.text|;
      v, off := StrIntern(tok.text);
      if v != Good { return; }
      v := Next();
      if v != Good { return; }
      v := ExpectPunct(RPAREN);
      if v != Good { return; }
      v := ExpectPunct(SEMI);
    }

    method GenWrite() returns (v: Verdict)
      requires Valid() && tok.TWrite? && |pool| <= MAX_STR && |fixups| <= MAX_FIX
      modifies this`pos, this`tok, this`rest, this`ends, this`code, this`pool, this`fixups
      ensures StmtDone(v, Statement(old(rest), old(names)))
    {
      v := Next();
      if v != Good { return; }
      var off, len;
      v, off, len := ParseWrite();
      if v != Good { return; }
      PrintOne(off, len, |code|);
      v := EmitPrint(off, len);
    }

    method CompileStmt() returns (v: Verdict)
      requires Valid() && |pool| <= MAX_STR && |fixups| <= MAX_FIX
      modifies this`pos, this`tok, this`rest, this`ends, this`code, this`pool, this`fixups, this`names
      ensures StmtDone(v, Statement(old(rest), old(names)))
    {
      if tok.TInt? {
        v := GenDeclaration();
      } else if tok.TReturn? {
        v := GenReturn();
      } else if tok.TWrite? {
        v := GenWrite();
      } else if tok.TIdent? {
        v := GenAssignment();
      } else if tok == TPunct(SEMI) {
        v := Next();
        assert code + [] == code;
      } else {
        v := Syntax;
      }
    }

    // ----- programs --------------------------------------------------------------------------------------

    /** The tables hold the prologue and the statements `done`. */
    ghost predicate Holding(done: seq<Stmt>)
      reads this
    {
      && names == Scopes(done, []) && pool == Pools(done, []) && |names| <= MAX_LOCALS && |pool| <= MAX_STR
      && |fixups| <= MAX_FIX
      && code == Code(Items(done), Unplaced) && fixups == Fixups(Items(done), 0)
      && BodyScoped(done, []) && forall s :: s in done && s.Write? ==> |s.text| <= TOKEN_MAX
    }

    /** `mov r15, <locals>`, with a hole for the address. */
    method EmitBase() returns (v: Verdict)
      requires code == [] && fixups == [] && names == [] && pool == []
      modifies this`code, this`fixups
      ensures v == Good && Holding([]) && |code| <= MAX_CODE
    {
      BaseShape(Unplaced);
      CodeOne(SetBase, Unplaced);
      FixupsOne(Emitter(Unplaced), SetBase, 0);
      v := EmitAll([0x49, 0xBF]);
      if v != Good { return; }
      v := AddFixup(FixBase(|code|));
      if v != Good { return; }
      v := EmitImm(0, 8);
      assert Items([]) == [SetBase];
    }

    /** Pass over everything before the body. */
    method SkipToBody() returns (v: Verdict)
      requires Valid() && names == []
      modifies this`pos, this`tok, this`rest, this`ends
      ensures v == Good ==> Valid() && Program(old(rest)) == Body(rest, [])
      ensures v != Good ==> v == Syntax && Program(old(rest)) == BodyFail
    {
      v := Good;
      while !tok.TEof? && tok != TPunct(LBRACE)
        invariant v == Good && Valid() && Program(rest) == Program(old(rest))
        decreases |rest|
      {
        v := Next();
        if v != Good { return; }
      }
      if !tok.TPunct? { return Syntax; }
      v := Next();
    }

    /** One statement keeps the tables in step with the statements parsed. */
    method BodyStmt(ghost done: seq<Stmt>) returns (v: Verdict, ghost more: seq<Stmt>)
      requires Valid() && Holding(done) && !tok.TEof? && tok != TPunct(RBRACE)
      modifies this`pos, this`tok, this`rest, this`ends, this`code, this`pool, this`fixups, this`names
      ensures v == Good ==> && Valid() && Holding(more) && |rest| < |old(rest)|
                            && Prepend(done, Body(old(rest), old(names))) == Prepend(more, Body(rest, names))
      ensures v == Syntax ==> Prepend(done, Body(old(rest), old(names))) == BodyFail
      ensures v == Full ==> var b := Prepend(done, Body(old(rest), old(names))); b.BodyGot? ==> TooBig(b.body)
    {
      ghost var ts, scope := rest, names;
      ghost var r := Statement(ts, scope);
      more := done;
      BodyStep(done, ts, scope);
      if r.StmtGot? {
        BodySnoc(done, r.s, [], []);
        ItemsSnoc(done, r.s);
      }
      v := CompileStmt();
      if v == Good {
        more := done + [r.s];
        StatementScoped(ts, scope);
      } else if v == Full && r.StmtGot? && Body(r.rest, r.names).BodyGot? {
        TooBigGrows(done + [r.s], Body(r.rest, r.names).body);
      }
    }

    method CompileBody() returns (v: Verdict, ghost done: seq<Stmt>)
      requires Valid() && Holding([])
      modifies this`pos, this`tok, this`rest, this`ends, this`code, this`pool, this`fixups, this`names
      ensures v == Good ==> |code| <= MAX_CODE && Holding(done) && Body(old(rest), []) == BodyGot(done, names)
      ensures v == Syntax ==> Body(old(rest), []) == BodyFail
      ensures v == Full ==> var b := Body(old(rest), []); b.BodyGot? ==> TooBig(b.body)
    {
      v, done := Good, [];
      ghost var ts := rest;
      NoneDone(Body(ts, []));
      while tok != TPunct(RBRACE)
        invariant v == Good && Valid() && Holding(done) && Body(ts, []) == Prepend(done, Body(rest, names))
        decreases |rest|
      {
        if tok.TEof? { return Syntax, done; }
        v, done := BodyStmt(done);
        if v != Good { return; }
      }
      assert done + [] == done;
    }

    method EmitExit() returns (v: Verdict)
      requires |code| <= MAX_CODE
      modifies this`code
      ensures Grew(v, Code([Imm(0), Quit], Unplaced))
    {
      assert [Imm(0), Quit] == [Imm(0)] + [Quit];
      CodeOne(Imm(0), Unplaced);
      CodeThen([Imm(0)], Quit);
      v := MovRaxImm(0);
      if v != Good { return; }
      v := EmitQuit();
      Join(old(code), Emit(Imm(0), Unplaced), Emit(Quit, Unplaced));
    }

    /** Compile the whole source: the tables are those of the program it parses to,
        or it does not parse, or a table is full. */
    method CompileProgram() returns (v: Verdict, ghost body: seq<Stmt>)
      requires pos == 0 && code == [] && fixups == [] && names == [] && pool == []
      modifies this`pos, this`tok, this`rest, this`ends, this`code, this`pool, this`fixups, this`names
      ensures v == Good ==> Program(Stream(src, 0)) == BodyGot(body, names) && Complete(body)
      ensures v == Syntax ==> Program(Stream(src, 0)) == BodyFail
      ensures v == Full ==> var b := Program(Stream(src, 0)); b.BodyGot? ==> !FitsTables(b.body)
    {
      body := [];
      v := EmitBase();
      if v != Good { return; }
      v := Start();
      if v != Good { return; }
      v := SkipToBody();
      if v != Good { return; }
      v, body := CompileMain();
    }

    /** The body and the exit after it. */
    method CompileMain() returns (v: Verdict, ghost body: seq<Stmt>)
      requires Valid() && Holding([])
      modifies this`pos, this`tok, this`rest, this`ends, this`code, this`pool, this`fixups, this`names
      ensures v == Good ==> Body(old(rest), []) == BodyGot(body, names) && Complete(body)
      ensures v == Syntax ==> Body(old(rest), []) == BodyFail
      ensures v == Full ==> var b := Body(old(rest), []); b.BodyGot? ==> !FitsTables(b.body)
    {
      ghost var b := Body(rest, []);
      if b.BodyGot? {
        ProgramItems(b.body);
      }
      v, body := CompileBody();
      if v != Good { return; }
      v := EmitExit();
    }

    /** Overwrite eight bytes of code with an address. */
    method Put64(at: nat, x: Word)
      requires at + 8 <= |code|
      modifies this`code
      ensures code == old(code)[..at] + LE(x, 8) + old(code)[at + 8..]
    {
      var i, y: nat := 0, x;
      ghost var now: seq<Byte> := [];
      while i < 8
        invariant i <= 8 && |now| == i && now + LE(y, 8 - i) == LE(x, 8) && |code| == |old(code)|
        invariant code == old(code)[..at] + now + old(code)[at + i..]
      {
        var b: Byte := y % 256;
        assert now + ([b] + LE(y / 256, 8 - i - 1)) == now + [b] + LE(y / 256, 8 - i - 1);
        code := code[at + i := b];
        now := now + [b];
        y := y / 256;
        i := i + 1;
      }
      assert now + [] == now;
    }

    /** Fill the holes, now that the layout is known. */
    method ApplyFixups(lay: Layout)
      requires lay.Placed? && forall f :: f in fixups ==> InRange(f, |code|)
      modifies this`code
      ensures code == PatchAll(old(code), fixups, lay)
    {
      var i := 0;
      while i < |fixups|
        invariant i <= |fixups| && |code| == |old(code)|
        invariant PatchAll(code, fixups[i..], lay) == PatchAll(old(code), fixups, lay)
      {
        var f := fixups[i];
        assert f in fixups;
        assert fixups[i..][0] == f && fixups[i..][1..] == fixups[i + 1..];
        Put64(f.at, LccCode.Target(f, lay));
        i := i + 1;
      }
    }

    /** Code, strings, names and fixups are those of `body`. */
    ghost predicate Complete(body: seq<Stmt>)
      reads this
    {
      && BodyScoped(body, []) && names == Scopes(body, []) && |names| <= MAX_LOCALS
      && pool == Pools(body, []) && |pool| <= MAX_STR && (forall s :: s in body && s.Write? ==> |s.text| <= TOKEN_MAX)
      && code == Code(GenProgram(body), Unplaced) && fixups == Fixups(GenProgram(body), 0) && FitsTables(body)
    }
  }

  /** Code, strings and fixups of the program fit the compiler's tables. */
  predicate FitsTables(body: seq<Stmt>) {
    && |Code(GenProgram(body), Unplaced)| <= MAX_CODE && |Pools(body, [])| <= MAX_STR
    && |Fixups(GenProgram(body), 0)| <= MAX_FIX
  }

  /** The prologue and these statements alone overflow a table. */
  predicate TooBig(done: seq<Stmt>) {
    |Code(Items(done), Unplaced)| > MAX_CODE || |Pools(done, [])| > MAX_STR || |Fixups(Items(done), 0)| > MAX_FIX
  }

  lemma TooBigSnoc(done: seq<Stmt>, s: Stmt)
    requires TooBig(done)
    ensures TooBig(done + [s])
  {
    BodySnoc(done, s, [], []);
    ItemsSnoc(done, s);
  }

  lemma {:induction false} Persists(p: seq<Stmt> -> bool, done: seq<Stmt>, more: seq<Stmt>)
    requires p(done) && forall d, s {:trigger d + [s]} :: p(d) ==> p(d + [s])
    ensures p(done + more)
    decreases |more|
  {
    if more == [] {
      assert done + more == done;
    } else {
      Persists(p, done + [more[0]], more[1..]);
      assert done + more == done + [more[0]] + more[1..];
    }
  }

  lemma TooBigGrows(done: seq<Stmt>, more: seq<Stmt>)
    requires TooBig(done)
    ensures TooBig(done + more)
  {
    var p := (d: seq<Stmt>) => TooBig(d);
    forall d, s | p(d) ensures p(d + [s]) {
      TooBigSnoc(d, s);
    }
    Persists(p, done, more);
  }

  lemma NoneDone(b: BodyParsed)
    ensures Prepend([], b) == b
  {
    if b.BodyGot? {
      assert [] + b.body == b.body;
    }
  }

  lemma ProgramItems(body: seq<Stmt>)
    ensures GenProgram(body) == Items(body) + [Imm(0), Quit]
    ensures Code(GenProgram(body), Unplaced) == Code(Items(body), Unplaced) + Code([Imm(0), Quit], Unplaced)
    ensures Fixups(GenProgram(body), 0) == Fixups(Items(body), 0)
  {
    ItemsThen(Items(body), [Imm(0), Quit]);
  }

  lemma NegationLonger(e: Expr, names: seq<Name>)
    ensures Size(e, names) <= Size(Neg(e), names)
  {
    CodeThen(GenExpr(e, names), Negate);
  }

  lemma ItemsThen(items: seq<Item>, tail: seq<Item>)
    requires forall i :: i in tail ==> !i.SetBase? && !i.Print?
    ensures Code(items + tail, Unplaced) == Code(items, Unplaced) + Code(tail, Unplaced)
    ensures Fixups(items + tail, 0) == Fixups(items, 0)
  {
    CodeConcat(items, tail, Unplaced);
    FixupsThen(Emitter(Unplaced), items, tail, 0);
  }

  lemma FixupsThen(f: Item -> seq<Byte>, items: seq<Item>, tail: seq<Item>, at: nat)
    requires forall i :: i in tail ==> !i.SetBase? && !i.Print?
    ensures FixupsBy(f, items + tail, at) == FixupsBy(f, items, at)
  {
    FixupsConcat(f, items, tail, at);
    NoFixups(f, tail, at + |FlatMap(f, items)|);
    assert FixupsBy(f, items, at) + [] == FixupsBy(f, items, at);
  }

  lemma Join4(z: seq<Byte>, a: seq<Byte>, b: seq<Byte>, c: seq<Byte>)
    ensures z + a + b + c == z + (a + b + c)
  {
  }

  lemma PrintOne(off: nat, len: nat, at: nat)
    ensures Code([Print(off, len)], Unplaced) == Emit(Print(off, len), Unplaced)
    ensures Fixups([Print(off, len)], at) == [FixStr(at + 12, off)]
  {
    CodeOne(Print(off, len), Unplaced);
    FixupsOne(Emitter(Unplaced), Print(off, len), at);
  }

  lemma FixupsOne(f: Item -> seq<Byte>, i: Item, at: nat)
    ensures FixupsBy(f, [i], at) == FixupOf(i, at)
  {
    assert [i][1..] == [];
    assert FixupOf(i, at) + [] == FixupOf(i, at);
  }

  lemma {:induction false} NoFixups(f: Item -> seq<Byte>, items: seq<Item>, at: nat)
    requires forall i :: i in items ==> !i.SetBase? && !i.Print?
    ensures FixupsBy(f, items, at) == []
    decreases |items|
  {
    if items != [] {
      NoFixups(f, items[1..], at + |f(items[0])|);
    }
  }

  lemma {:induction false} ExprNoHoles(e: Expr, names: seq<Name>)
    ensures forall i :: i in GenExpr(e, names) ==> !i.SetBase? && !i.Print?
    decreases e
  {
    match e
    case Neg(a) => ExprNoHoles(a, names);
    case Bin(_, l, r) => ExprNoHoles(l, names); ExprNoHoles(r, names);
    case _ =>
  }

  /** An expression and an item that uses its value add their code and no fixup. */
  lemma UseAppended(e: Expr, names: seq<Name>, i: Item, before: seq<Byte>)
    requires i.Store? || i.Quit?
    ensures Code(GenExpr(e, names) + [i], Unplaced) == Code(GenExpr(e, names), Unplaced) + Emit(i, Unplaced)
    ensures before + Code(GenExpr(e, names), Unplaced) + Emit(i, Unplaced) == before
            + Code(GenExpr(e, names) + [i], Unplaced)
    ensures Fixups(GenExpr(e, names) + [i], |before|) == []
  {
    CodeThen(GenExpr(e, names), i);
    Join(before, Code(GenExpr(e, names), Unplaced), Emit(i, Unplaced));
    ExprNoHoles(e, names);
    NoFixups(Emitter(Unplaced), GenExpr(e, names) + [i], |before|);
  }

  lemma BinAppended(op: Op, l: Expr, r: Expr, names: seq<Name>, before: seq<Byte>)
    ensures before + Code(GenExpr(l, names), Unplaced) + Emit(Push, Unplaced) + Code(GenExpr(r, names), Unplaced)
            + Emit(Apply(op), Unplaced)
            == before + Code(GenExpr(Bin(op, l, r), names), Unplaced)
  {
    BinCode(op, l, r, names);
    Join5(before, Code(GenExpr(l, names), Unplaced), Emit(Push, Unplaced), Code(GenExpr(r, names), Unplaced),
          Emit(Apply(op), Unplaced));
  }

  lemma Join5(z: seq<Byte>, a: seq<Byte>, b: seq<Byte>, c: seq<Byte>, d: seq<Byte>)
    ensures z + a + b + c + d == z + (a + b + c + d)
  {
  }

  lemma SlotUnique(names: seq<Name>, n: Name, i: nat)
    requires i <= |names| && (forall j :: 0 <= j < i ==> names[j] != n) && (i < |names| ==> names[i] == n)
    ensures i == Slot(names, n)
  {
  }

  /** `whole` is `text` followed by `rest`. */
  ghost predicate Continues(whole: Text, text: seq<Byte>, rest: Text) {
    whole.text == text + rest.text && whole.next == rest.next
  }

  lemma LiteralStep(src: Source, p: nat, whole: Text, text: seq<Byte>)
    requires p < |src| && src[p] != QUOTE && |text| < TOKEN_MAX
             && Continues(whole, text, Literal(src, p, TOKEN_MAX - |text|))
    ensures var c := CharAt(src, p); Continues(whole, text + [c.0], Literal(src, c.1, TOKEN_MAX - |text + [c.0]|))
  {
    var c := CharAt(src, p);
    var rest := Literal(src, c.1, TOKEN_MAX - |text| - 1);
    assert text + ([c.0] + rest.text) == text + [c.0] + rest.text;
  }

  lemma Shifted(n: int, d: int)
    ensures ToWord(ToWord(n) * 10 + d) == ToWord(n * 10 + d)
  {
    var q := n / W;
    assert n == q * W + ToWord(n);
    assert n * 10 + d == ToWord(n) * 10 + d + (q * 10) * W;
    Wraps(ToWord(n) * 10 + d, q * 10);
  }

  lemma DigitMore(src: Source, p: nat, pos: nat)
    requires p <= pos < |src| && IsDigit(src[pos])
    ensures ToWord(Decimal(src[p..pos + 1])) == ToWord(ToWord(Decimal(src[p..pos])) * 10 + (src[pos] - 48))
  {
    assert src[p..pos + 1][..pos - p] == src[p..pos];
    Shifted(Decimal(src[p..pos]), src[pos] - 48);
  }

  lemma Wraps(x: int, k: int)
    ensures ToWord(x + k * W) == ToWord(x)
  {
  }
}
