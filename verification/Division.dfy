/** Numbers: the larger of two, and quotients and remainders by a variable divisor. */
module Division {
  function Max(a: nat, b: nat): nat { if a < b then b else a }

  lemma GroupAndBit(n: nat, g: nat, bit: nat, bpg: nat)
    requires bit < bpg && n == g * bpg + bit
    ensures n / bpg == g && n % bpg == bit
  {
    assert n == (n / bpg) * bpg + n % bpg;
    GroupUnique(n / bpg, n % bpg, g, bit, bpg);
  }

  lemma GroupUnique(q: nat, r: nat, g: nat, bit: nat, bpg: nat)
    requires r < bpg && bit < bpg && q * bpg + r == g * bpg + bit
    ensures q == g && r == bit
  {
    if q < g {
      GroupStep(q, g, bpg);
      assert false;
    }
    if g < q {
      GroupStep(g, q, bpg);
      assert false;
    }
  }

  lemma GroupStep(q: nat, g: nat, bpg: nat)
    requires q < g
    ensures q * bpg + bpg <= g * bpg
  {
    assert (q + 1) * bpg <= g * bpg;
  }

  lemma GroupAfter(q: nat, bpg: nat)
    ensures (q + 1) * bpg == q * bpg + bpg
  {
  }

  /** The quotient and the remainder, by repeated subtraction. */
  function Div(n: int, m: nat): (q: nat)
    requires m > 0
    decreases if n < 0 then 0 else n
  { if n < m then 0 else 1 + Div(n - m, m) }

  function Mod(n: nat, m: nat): (r: nat)
    requires m > 0
    ensures r < m
    decreases n
  { if n < m then n else Mod(n - m, m) }

  lemma OneMore(n: nat, m: nat)
    requires m > 0
    ensures Div(n + m, m) == Div(n, m) + 1 && Mod(n + m, m) == Mod(n, m)
  { }

  lemma {:induction false} DivMod(n: nat, m: nat)
    requires m > 0
    ensures n == Div(n, m) * m + Mod(n, m)
    decreases n
  {
    if n >= m {
      DivMod(n - m, m);
      assert (1 + Div(n - m, m)) * m == m + Div(n - m, m) * m;
    }
  }

  /** They are the native ones. */
  lemma DivIs(n: nat, m: nat)
    requires m > 0
    ensures Div(n, m) == n / m && Mod(n, m) == n % m
  {
    DivMod(n, m);
    GroupAndBit(n, Div(n, m), Mod(n, m), m);
  }

  /** The one way to write n as g times m plus less than m. */
  lemma DivUnique(n: nat, g: nat, bit: nat, m: nat)
    requires bit < m && n == g * m + bit
    ensures Div(n, m) == g && Mod(n, m) == bit
  {
    DivMod(n, m);
    GroupUnique(Div(n, m), Mod(n, m), g, bit, m);
  }

  lemma QuotientBelow(n: nat, g: nat, m: nat)
    requires m > 0 && n < g * m
    ensures Div(n, m) < g
  {
    DivMod(n, m);
    if g < Div(n, m) {
      GroupStep(g, Div(n, m), m);
      assert false;
    }
  }

  /** What comes before bit `bit` of group `g`. */
  lemma BeforeBit(n: nat, g: nat, bit: nat, m: nat)
    requires bit < m && n < g * m + bit
    ensures Div(n, m) < g || (Div(n, m) == g && Mod(n, m) < bit)
  {
    GroupAfter(g, m);
    QuotientBelow(n, g + 1, m);
    DivMod(n, m);
  }
}
