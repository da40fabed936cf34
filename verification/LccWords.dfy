/** Bytes, 64-bit words and the arithmetic of the compiled language. */
module LccWords {
  import opened RawBytes

  const W: nat := 0x1_0000_0000_0000_0000
  const HALF: nat := 0x8000_0000_0000_0000
  type Word = x: nat | x < W

  function Signed(x: Word): int { if x < HALF then x else x - W }

  function ToWord(i: int): Word { i % W }

  // ----- division that truncates toward zero ----------------------------------------------

  function Abs(a: int): nat { if a < 0 then -a else a }

  function Signless(x: nat, y: nat): (q: nat)
    requires y > 0
    ensures q * y <= x < q * y + y
  { x / y }

  function Quotient(a: int, b: int): int
    requires b != 0
  {
    if (a < 0) == (b < 0) then Signless(Abs(a), Abs(b)) else 0 - Signless(Abs(a), Abs(b))
  }

  function Remainder(a: int, b: int): int
    requires b != 0
  { a - Quotient(a, b) * b }

  lemma Product(q: int, b: int)
    ensures (-q) * b == -(q * b) && q * -b == -(q * b) && (-q) * -b == q * b
  {
  }

  lemma AtLeast(q: nat, y: nat, k: nat)
    requires k <= y
    ensures q * k <= q * y
  {
    assert q * y == q * k + q * (y - k);
  }

  lemma SmallerQuotient(x: nat, y: nat, q: nat, r: nat)
    requires y > 0 && x == q * y + r
    ensures q <= x && (y > 1 && x > 0 ==> q < x)
  {
    AtLeast(q, y, 1);
    if y > 1 {
      AtLeast(q, y, 2);
    }
  }

  lemma SignedRemainder(a: int, b: int, q: nat, r: nat)
    requires b != 0 && Abs(a) == q * Abs(b) + r
    ensures a - (if (a < 0) == (b < 0) then q else 0 - q) * b == if a < 0 then 0 - r else r
  {
    Product(q, b);
  }

  /** The quotient is the one of C: the remainder is smaller than the divisor and
      takes the sign of the dividend. */
  lemma QuotientTruncates(a: int, b: int)
    requires b != 0
    ensures a == Quotient(a, b) * b + Remainder(a, b)
    ensures Abs(Remainder(a, b)) < Abs(b) && (Remainder(a, b) == 0 || (Remainder(a, b) < 0 <==> a < 0))
    ensures Abs(Quotient(a, b)) <= Abs(a) && (Abs(b) > 1 && a != 0 ==> Abs(Quotient(a, b)) < Abs(a))
  {
    var x, y := Abs(a), Abs(b);
    var q := Signless(x, y);
    var r := x - q * y;
    SmallerQuotient(x, y, q, r);
    SignedRemainder(a, b, q, r);
  }

  /** The division instruction has a result. */
  predicate CanDivide(x: Word, y: Word) {
    y != 0 && !(x == HALF && y == W - 1)
  }

  /** The signed quotient fits 64 bits exactly if there is a division result. */
  lemma QuotientFits(x: Word, y: Word)
    requires y != 0
    ensures 0 - HALF <= Quotient(Signed(x), Signed(y)) < HALF <==> CanDivide(x, y)
  {
    var a, b := Signed(x), Signed(y);
    QuotientTruncates(a, b);
    if a == 0 - HALF && b == -1 {
      assert Quotient(a, b) == HALF;
    }
  }

  // ----- little-endian encoding -----------------------------------------------------------------

  function LE(v: nat, n: nat): (r: seq<Byte>)
    ensures |r| == n
  {
    if n == 0 then [] else [v % 256] + LE(v / 256, n - 1)
  }

  function UnLE(s: seq<Byte>): nat {
    if s == [] then 0 else s[0] + 256 * UnLE(s[1..])
  }

  function Pow256(n: nat): nat { if n == 0 then 1 else 256 * Pow256(n - 1) }

  lemma {:induction false} LERound(v: nat, n: nat)
    requires v < Pow256(n)
    ensures UnLE(LE(v, n)) == v
  {
    if n > 0 {
      LERound(v / 256, n - 1);
      assert LE(v, n)[1..] == LE(v / 256, n - 1);
    }
  }

  lemma {:induction false} UnLERound(s: seq<Byte>)
    ensures LE(UnLE(s), |s|) == s && UnLE(s) < Pow256(|s|)
  {
    if s != [] {
      UnLERound(s[1..]);
      var t := UnLE(s[1..]);
      assert (s[0] + 256 * t) % 256 == s[0] && (s[0] + 256 * t) / 256 == t;
    }
  }

  lemma Powers()
    ensures Pow256(2) == 0x1_0000 && Pow256(4) == 0x1_0000_0000 && Pow256(8) == W
  {
    assert Pow256(1) == 256 && Pow256(3) == 0x100_0000;
    assert Pow256(5) == 0x100_0000_0000 && Pow256(6) == 0x1_0000_0000_0000 && Pow256(7) == 0x100_0000_0000_0000;
  }

  lemma LERound8(v: Word)
    ensures UnLE(LE(v, 8)) == v
  {
    Powers();
    LERound(v, 8);
  }

  lemma LERound4(v: nat)
    requires v < 0x1_0000_0000
    ensures UnLE(LE(v, 4)) == v
  {
    Powers();
    LERound(v, 4);
  }
}
