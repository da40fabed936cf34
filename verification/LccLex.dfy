/** From source bytes to tokens. */
module LccLex {
  import opened RawBytes
  import opened LccWords
  import opened LccSyntax

  type Source = seq<Byte>

  const NEWLINE: Byte := 10
  const TAB: Byte := 9
  const QUOTE: Byte := 34
  const BACKSLASH: Byte := 92
  const TOKEN_MAX: nat := 63

  predicate IsSpace(c: Byte) { c == 32 || c == TAB || c == NEWLINE || c == 13 }
  predicate IsDigit(c: Byte) { 48 <= c <= 57 }
  predicate IsIdStart(c: Byte) { c == 95 || 97 <= c <= 122 || 65 <= c <= 90 }
  predicate IsId(c: Byte) { IsIdStart(c) || IsDigit(c) }

  /** The end of the line that holds position `p`. */
  function LineEnd(src: Source, p: nat): (r: nat)
    requires p <= |src|
    ensures p <= r <= |src|
    decreases |src| - p
  { if p < |src| && src[p] != NEWLINE then LineEnd(src, p + 1) else p }

  predicate CommentAt(src: Source, p: nat) { p + 1 < |src| && src[p] == SLASH && src[p + 1] == SLASH }

  /** Past white space and line comments. */
  function SkipSpace(src: Source, p: nat): (r: nat)
    requires p <= |src|
    ensures p <= r <= |src|
    decreases |src| - p
  {
    if p < |src| && IsSpace(src[p]) then SkipSpace(src, p + 1)
    else if CommentAt(src, p) then SkipSpace(src, LineEnd(src, p + 1))
    else p
  }

  function DigitsEnd(src: Source, p: nat): (r: nat)
    requires p <= |src|
    ensures p <= r <= |src|
    decreases |src| - p
  { if p < |src| && IsDigit(src[p]) then DigitsEnd(src, p + 1) else p }

  /** The value of a digit string. */
  function Decimal(ds: seq<Byte>): int {
    if ds == [] then 0 else Decimal(ds[..|ds| - 1]) * 10 + ds[|ds| - 1] - 48
  }

  /** Where an identifier of at most `n` characters ends. */
  function IdEnd(src: Source, p: nat, n: nat): (r: nat)
    requires p <= |src|
    ensures p <= r <= |src|
    decreases |src| - p
  { if p < |src| && IsId(src[p]) && n > 0 then IdEnd(src, p + 1, n - 1) else p }

  function Keyword(text: Name): Token {
    if text == [105, 110, 116] then TInt
    else if text == [114, 101, 116, 117, 114, 110] then TReturn
    else if text == [119, 114, 105, 116, 101] then TWrite
    else TIdent(text)
  }

  function Escape(c: Byte): Byte { if c == 110 then NEWLINE else if c == 116 then TAB else c }

  datatype Text = Text(text: seq<Byte>, next: nat)

  /** The character at `p` of a literal, and where the next one is. */
  function CharAt(src: Source, p: nat): (r: (Byte, nat))
    requires p < |src|
    ensures p < r.1 <= |src|
  {
    if src[p] == BACKSLASH && p + 1 < |src| then (Escape(src[p + 1]), p + 2) else (src[p], p + 1)
  }

  /** The contents of a literal from `p` on, at most `n` characters. */
  function Literal(src: Source, p: nat, n: nat): (r: Text)
    requires p <= |src|
    ensures p <= r.next <= |src| && |r.text| <= n
    decreases |src| - p
  {
    if p < |src| && src[p] != QUOTE && n > 0
    then
      var c := CharAt(src, p);
      var rest := Literal(src, c.1, n - 1);
      Text([c.0] + rest.text, rest.next)
    else Text([], p)
  }

  datatype Lexed = Lexed(tok: Token, next: nat)

  /** The token that starts at `p`, which is not white space. */
  function TokenAt(src: Source, p: nat): (r: Lexed)
    requires p < |src|
    ensures p < r.next <= |src| || r.tok.TBad?
    ensures r.next <= |src| && !r.tok.TEof? && (r.tok.TStr? ==> |r.tok.text| <= TOKEN_MAX)
  {
    if IsDigit(src[p]) then
      var q := DigitsEnd(src, p);
      Lexed(TNum(ToWord(Decimal(src[p..q]))), q)
    else if IsIdStart(src[p]) then
      var q := IdEnd(src, p, TOKEN_MAX);
      Lexed(Keyword(src[p..q]), q)
    else if src[p] == QUOTE then
      var t := Literal(src, p + 1, TOKEN_MAX);
      if t.next < |src| && src[t.next] == QUOTE then Lexed(TStr(t.text), t.next + 1) else Lexed(TBad, t.next)
    else Lexed(TPunct(src[p]), p + 1)
  }

  function Lex(src: Source, p: nat): (r: Lexed)
    requires p <= |src|
    ensures r.next <= |src| && (r.tok.TEof? || r.tok.TBad? || p < r.next)
    ensures r.tok.TStr? ==> |r.tok.text| <= TOKEN_MAX
  {
    var q := SkipSpace(src, p);
    if q >= |src| then Lexed(TEof, q) else TokenAt(src, q)
  }

  /** All tokens from `p` on, up to the end or to a malformed one. */
  function Stream(src: Source, p: nat): (r: seq<Token>)
    requires p <= |src|
    ensures r != []
    decreases |src| - p
  {
    var l := Lex(src, p);
    if l.tok.TEof? || l.tok.TBad? then [l.tok] else [l.tok] + Stream(src, l.next)
  }

  /** Where each of these tokens ends. */
  function TokenEnds(src: Source, p: nat): (r: seq<nat>)
    requires p <= |src|
    ensures |r| == |Stream(src, p)| && r[0] == Lex(src, p).next
    decreases |src| - p
  {
    var l := Lex(src, p);
    if l.tok.TEof? || l.tok.TBad? then [l.next] else [l.next] + TokenEnds(src, l.next)
  }

  /** Lexing on from where token `i` ends gives the token after it. */
  ghost predicate LexStep(src: Source, toks: seq<Token>, ends: seq<nat>, i: nat) {
    i + 1 < |toks| == |ends| && ends[i] <= |src| && Lex(src, ends[i]) == Lexed(toks[i + 1], ends[i + 1])
  }

  /** `toks` and `ends` are the tokens to come and their ends, the token at hand
      first; only the last of them ends the input. */
  ghost predicate LexTrace(src: Source, toks: seq<Token>, ends: seq<nat>) {
    && 0 < |toks| == |ends|
    && (forall i: nat {:trigger LexStep(src, toks, ends, i)} :: i + 1 < |toks| ==> LexStep(src, toks, ends, i))
    && (forall i: nat :: i < |toks| ==> ((toks[i].TEof? || toks[i].TBad?) <==> i + 1 == |toks|))
  }

  lemma TraceCons(src: Source, t: Token, e: nat, toks: seq<Token>, ends: seq<nat>)
    requires LexTrace(src, toks, ends) && !t.TEof? && !t.TBad? && e <= |src| && Lex(src, e) == Lexed(toks[0], ends[0])
    ensures LexTrace(src, [t] + toks, [e] + ends)
  {
    forall i: nat | i + 1 < |[t] + toks| ensures LexStep(src, [t] + toks, [e] + ends, i) {
      if i > 0 {
        assert LexStep(src, toks, ends, i - 1);
      }
    }
    forall i: nat | i < |[t] + toks| ensures (([t] + toks)[i].TEof? || ([t] + toks)[i].TBad?) <==>
        i + 1 == |[t] + toks| {
      if i > 0 {
        assert ([t] + toks)[i] == toks[i - 1];
      }
    }
  }

  lemma {:induction false} StreamTrace(src: Source, p: nat)
    requires p <= |src|
    ensures LexTrace(src, Stream(src, p), TokenEnds(src, p))
    decreases |src| - p
  {
    var l := Lex(src, p);
    if !l.tok.TEof? && !l.tok.TBad? {
      StreamTrace(src, l.next);
      TraceCons(src, l.tok, l.next, Stream(src, l.next), TokenEnds(src, l.next));
    }
  }

  lemma TraceTail(src: Source, toks: seq<Token>, ends: seq<nat>)
    requires LexTrace(src, toks, ends) && |toks| > 1
    ensures LexTrace(src, toks[1..], ends[1..])
  {
    forall i: nat | i + 1 < |toks[1..]| ensures LexStep(src, toks[1..], ends[1..], i) {
      assert LexStep(src, toks, ends, i + 1);
    }
  }
}
