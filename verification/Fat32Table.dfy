/** The file allocation table: its copies on disk, cluster chains, allocating and freeing. */
module Fat32Table {
  import opened RawBytes

  const FREE: nat := 0
  const FIRST: nat := 2
  const LAST: nat := 0x0FFF_FFF6
  const END: nat := 0x0FFF_FFFF

  /** A table entry: four reserved bits and a 28-bit link. */
  datatype Slot = Slot(top: nat, link: nat)

  /** A link that leads to another cluster. */
  predicate Leads(c: nat) { FIRST <= c <= LAST }

  type Links = seq<nat>

  // ----- chains -------------------------------------------------------------------------------------------------

  /** Following the links from `c` visits exactly `cs`. */
  ghost predicate Chain(links: Links, c: nat, cs: seq<nat>)
    decreases |cs|
  {
    if cs == [] then !Leads(c) else c == cs[0] && Leads(c) && c < |links| && Chain(links, links[c], cs[1..])
  }

  ghost predicate Distinct(cs: seq<nat>) { forall i: nat, j: nat :: i < j < |cs| ==> cs[i] != cs[j] }

  /** Links of other clusters do not matter. */
  lemma {:induction false} ChainFrame(a: Links, b: Links, c: nat, cs: seq<nat>)
    requires Chain(a, c, cs) && |a| == |b| && forall x: nat :: x in cs && x < |a| ==> b[x] == a[x]
    ensures Chain(b, c, cs)
    decreases |cs|
  {
    if cs != [] {
      ChainFrame(a, b, a[c], cs[1..]);
    }
  }

  /** Everything on a chain is in the table and in use. */
  lemma {:induction false} ChainUsed(links: Links, c: nat, cs: seq<nat>, i: nat)
    requires Chain(links, c, cs) && i < |cs| && links != []
    ensures Leads(cs[i]) && cs[i] < |links| && links[cs[i]] == if i + 1 < |cs| then cs[i + 1] else links[cs[i]]
    ensures i + 1 == |cs| ==> !Leads(links[cs[i]])
    decreases |cs|
  {
    if i > 0 {
      ChainUsed(links, links[c], cs[1..], i - 1);
    }
  }

  /** The links decide the chain. */
  lemma {:induction false} ChainUnique(links: Links, c: nat, a: seq<nat>, b: seq<nat>)
    requires Chain(links, c, a) && Chain(links, c, b)
    ensures a == b
    decreases |a|
  {
    if a != [] && b != [] {
      ChainUnique(links, links[c], a[1..], b[1..]);
      assert a == [a[0]] + a[1..] && b == [b[0]] + b[1..];
    }
  }

  lemma {:induction false} ChainFrom(links: Links, c: nat, cs: seq<nat>, i: nat)
    requires Chain(links, c, cs) && i < |cs|
    ensures Chain(links, cs[i], cs[i..])
    decreases |cs|
  {
    if i > 0 {
      ChainFrom(links, links[c], cs[1..], i - 1);
      assert cs[1..][i - 1..] == cs[i..];
    }
  }

  /** A chain that ends visits no cluster twice. */
  lemma ChainDistinct(links: Links, c: nat, cs: seq<nat>)
    requires Chain(links, c, cs)
    ensures Distinct(cs)
  {
    forall i: nat, j: nat | i < j < |cs| ensures cs[i] != cs[j] {
      ChainFrom(links, c, cs, i);
      ChainFrom(links, c, cs, j);
      if cs[i] == cs[j] {
        ChainUnique(links, cs[i], cs[i..], cs[j..]);
      }
    }
  }

  /** Two chains that share a cluster share all that follow it. */
  lemma SharedTail(links: Links, c: nat, a: seq<nat>, d: nat, b: seq<nat>, i: nat, j: nat)
    requires Chain(links, c, a) && Chain(links, d, b) && i < |a| && j < |b| && a[i] == b[j]
    ensures a[i..] == b[j..]
  {
    ChainFrom(links, c, a, i);
    ChainFrom(links, d, b, j);
    ChainUnique(links, a[i], a[i..], b[j..]);
  }

  /** Linking a new last cluster behind the old. */
  lemma {:induction false} ChainSnoc(links: Links, c: nat, cs: seq<nat>, n: nat)
    requires Chain(links, c, cs) && cs != [] && Distinct(cs) && n !in cs && Leads(n) && n < |links| && !Leads(links[n])
    ensures cs[|cs| - 1] < |links| && Chain(links[cs[|cs| - 1] := n], c, cs + [n])
    decreases |cs|
  {
    ChainUsed(links, c, cs, |cs| - 1);
    var z := cs[|cs| - 1];
    assert (cs + [n])[1..] == cs[1..] + [n];
    if |cs| == 1 {
      assert cs[1..] + [n] == [n] && [n][1..] == [];
    } else {
      ChainSnoc(links, links[c], cs[1..], n);
      assert cs[1..][|cs| - 2] == z;
    }
  }

  /** The links once the clusters of `cs` are free. */
  function Freed(links: Links, cs: seq<nat>): (r: Links)
    ensures |r| == |links|
    ensures forall x: nat :: x < |links| ==> r[x] == if x in cs then FREE else links[x]
  {
    seq(|links|, x requires 0 <= x < |links| => if x in cs then FREE else links[x])
  }

  /** Entries in use. */
  ghost function InUse(links: Links): nat {
    if links == [] then 0 else (if links[0] == FREE then 0 else 1) + InUse(links[1..])
  }

  /** Every entry keeps its link or is freed. */
  ghost predicate KeptOrFreed(a: Links, b: Links) {
    |a| == |b| && forall x: nat :: x < |a| ==> b[x] == a[x] || b[x] == FREE
  }

  lemma {:induction false} InUseDrops(a: Links, b: Links, c: nat)
    requires KeptOrFreed(a, b)
    ensures InUse(b) <= InUse(a) && (c < |a| && a[c] != FREE && b[c] == FREE ==> InUse(b) < InUse(a))
  {
    if a != [] {
      InUseDrops(a[1..], b[1..], if c == 0 then |a| else c - 1);
      assert c > 0 && c < |a| ==> a[1..][c - 1] == a[c] && b[1..][c - 1] == b[c];
    }
  }

  /** How many of the clusters numbered below `n` are free. */
  ghost function Spare(links: Links, n: nat): nat
    requires n <= |links|
  { if n <= FIRST then 0 else Spare(links, n - 1) + if links[n - 1] == FREE then 1 else 0 }

  lemma {:induction false} SpareSet(links: Links, c: nat, v: nat, n: nat)
    requires FIRST <= c < |links| && n <= |links|
    ensures Spare(links[c := v], n) + (if c < n && links[c] == FREE then 1 else 0) ==
            Spare(links, n) + (if c < n && v == FREE then 1 else 0)
  {
    if n > FIRST {
      SpareSet(links, c, v, n - 1);
    }
  }

  lemma {:induction false} SpareNone(links: Links, n: nat)
    requires n <= |links| && forall x: nat :: FIRST <= x < n ==> links[x] != FREE
    ensures Spare(links, n) == 0
  {
    if n > FIRST {
      SpareNone(links, n - 1);
    }
  }

  // ----- the volume ---------------------------------------------------------------------------------------------

  function LinksOf(words: seq<Slot>): Links { seq(|words|, i requires 0 <= i < |words| => words[i].link) }

  function TopsOf(words: seq<Slot>): seq<nat> { seq(|words|, i requires 0 <= i < |words| => words[i].top) }

  /** Where copy `f` of the table starts. */
  function Off(f: nat, len: nat): nat { if f == 0 then 0 else Off(f - 1, len) + len }

  lemma {:induction false} OffApart(f: nat, g: nat, len: nat)
    requires f < g
    ensures Off(f, len) + len <= Off(g, len)
    decreases g
  {
    if f < g - 1 {
      OffApart(f, g - 1, len);
    }
  }

  /** The word at `c`; behind the end of the device a read fails and counts as an end of chain. */
  function LinkAt(words: seq<Slot>, c: nat): nat { if c < |words| then words[c].link else END }

  /** Entry `c` of copy `f`. */
  function At(f: nat, len: nat, c: nat): nat { Off(f, len) + c }

  /** The links of entries below `n`, as the first copy has them. */
  ghost function FirstLinks(words: seq<Slot>, n: nat): (r: Links)
    ensures |r| == n && forall c: nat :: c < n ==> r[c] == LinkAt(words, c)
  { seq(n, c requires c >= 0 => LinkAt(words, c)) }

  /** The table entry `c` of all copies: the same link in each. */
  ghost predicate Agree(words: seq<Slot>, copies: nat, len: nat, c: nat) {
    forall f: nat :: f < copies ==> At(f, len, c) < |words| && words[At(f, len, c)].link == LinkAt(words, c)
  }

  /** Entry `c` written in the copies before `f`. */
  ghost predicate Writing(words0: seq<Slot>, words: seq<Slot>, len: nat, c: nat, v: nat, f: nat) {
    && |words| == |words0|
    && (forall x: nat :: x < |words| ==> words[x].top == words0[x].top && (words[x] == words0[x] || words[x].link == v))
    && (forall g: nat :: g < f ==> At(g, len, c) < |words| && words[At(g, len, c)].link == v)
    && (forall x: nat :: x < |words| && (forall g: nat :: g < f ==> x != At(g, len, c)) ==> words[x] == words0[x])
  }

  class Volume {
    const cluster: nat            // bytes per cluster
    const copies: nat             // copies of the table
    const len: nat                // entries of a copy
    var words: seq<Slot>          // the words of the device from the first copy on
    var data: seq<seq<Byte>>      // the clusters; numbers 0 and 1 stand for none

    /** There is a table with room for the clusters. */
    ghost predicate Shaped()
      reads this
    { cluster > 0 && copies > 0 && len > 0 }

    /** All copies have the same links. */
    ghost predicate Valid()
      reads this
    {
      && Shaped() && FIRST <= |data| <= len && |data| <= LAST + 1
      && (forall c: nat :: c < |data| ==> Agree(words, copies, len, c))
      && (forall c: nat :: c < |data| ==> |data[c]| == cluster)
    }

    /** The links of the clusters, as the first copy has them. */
    ghost function Links(): seq<nat>
      reads this
    { FirstLinks(words, |data|) }

    /** The reserved bits of every word. */
    ghost function Tops(): seq<nat>
      reads this
    { TopsOf(words) }

    ghost function Free(): nat
      reads this
    { Spare(Links(), |data|) }

    /** An empty volume of `n` clusters. */
    constructor (cluster: nat, copies: nat, n: nat)
      requires cluster > 0 && copies > 0 && FIRST + n <= LAST + 1
      ensures this.cluster == cluster && Valid() && |data| == FIRST + n
      ensures forall c: nat :: c < |data| ==> Links()[c] == FREE
    {
      this.cluster, this.copies, len := cluster, copies, FIRST + n;
      words := seq(Off(copies, FIRST + n), _ => Slot(0, FREE));
      data := seq(FIRST + n, _ => Zeros(cluster));
      new;
      forall c: nat | c < |data| ensures Agree(words, copies, len, c) {
        forall f: nat | f < copies ensures At(f, len, c) < |words| {
          OffApart(f, copies, len);
        }
      }
    }

    method ReadEntry(c: nat) returns (next: nat)
      ensures next == LinkAt(words, c) && (c < |data| ==> next == Links()[c])
    { next := if c < |words| then words[c].link else END; }

    /** Update one entry in every copy, keeping the reserved bits. An entry outside the table is a word of another
        copy or of the clusters behind them; what the clusters hold then is not said. */
    method WriteEntry(c: nat, v: nat)
      requires Shaped()
      modifies this`words, this`data
      ensures |words| == |old(words)| && Tops() == old(Tops())
      ensures forall x: nat :: x < |words| ==> words[x].link == old(words)[x].link || words[x].link == v
      ensures c < |words| ==> words[c].link == v
      ensures old(Valid()) && c < |old(data)| ==> Valid() && Links() == old(Links())[c := v] && data == old(data)
    {
      var f, at := 0, c;
      ghost var words0 := words;
      while f < copies && at < |words|
        invariant f <= copies && at == At(f, len, c)
        invariant Writing(words0, words, len, c, v, f)
        invariant c < len ==> data == old(data)
      {
        words := words[at := Slot(words[at].top, v)];
        if c >= len {
          data := *;
        }
        f, at := f + 1, at + len;
      }
      if old(Valid()) && c < |old(data)| {
        AllWritten(words0, words, copies, len, c, v, f, |data|);
      }
      assert Tops() == old(Tops());
    }

    /** The lowest free cluster becomes the end of a chain, zeroed; 0 if the disk is full. */
    method Alloc() returns (c: nat)
      requires Valid()
      modifies this`words, this`data
      ensures Valid() && Tops() == old(Tops()) && |data| == |old(data)|
      ensures c == 0 ==> Links() == old(Links()) && data == old(data) && Free() == 0
      ensures c != 0 ==> FIRST <= c < |data| && old(Links())[c] == FREE && Free() + 1 == old(Free())
      ensures c != 0 ==> forall x: nat :: FIRST <= x < c ==> old(Links())[x] != FREE
      ensures c != 0 ==> Links() == old(Links())[c := END] && data == old(data)[c := Zeros(cluster)]
    {
      c := FIRST;
      while c < |data|
        invariant words == old(words) && data == old(data) && Valid()
        invariant FIRST <= c <= |data| && forall x: nat :: FIRST <= x < c ==> Links()[x] != FREE
      {
        var e := ReadEntry(c);
        if e == FREE {
          SpareSet(Links(), c, END, |data|);
          WriteEntry(c, END);
          data := data[c := Zeros(cluster)];
          return;
        }
        c := c + 1;
      }
      SpareNone(Links(), |data|);
      c := 0;
    }

    /** Free what the links lead to from `first` on. Whatever the words of the device are, the walk ends, and every word
        keeps its reserved bits and keeps its link or is freed; from the start of a chain it frees exactly the chain. */
    method FreeChain(first: nat, ghost cs: seq<nat>)
      requires Shaped()
      modifies this`words, this`data
      ensures |words| == |old(words)| && Tops() == old(Tops()) && KeptOrFreed(LinksOf(old(words)), LinksOf(words))
      ensures old(Valid()) && Chain(old(Links()), first, cs) ==>
                Valid() && Links() == Freed(old(Links()), cs) && data == old(data)
    {
      var c: nat := first;
      ghost var done: seq<nat>, links0 := [], Links();
      ghost var sound := Valid() && Chain(links0, first, cs);
      assert Freed(links0, []) == links0;
      while Leads(c)
        invariant |words| == |old(words)| && Tops() == old(Tops()) && KeptOrFreed(LinksOf(old(words)), LinksOf(words))
        invariant sound ==>
                    Valid() && data == old(data) && Links() == Freed(links0, done) && Walked(links0, cs, done, c)
        decreases InUse(LinksOf(words)), if Leads(c) then 1 else 0
      {
        ghost var links := LinksOf(words);
        if sound {
          ChainDistinct(links0, first, cs);
          WalkStep(links0, cs, done, c);
          FreedMore(links0, done, c);
        }
        var next := ReadEntry(c);
        WriteEntry(c, FREE);
        InUseDrops(links, LinksOf(words), c);
        done := done + [c];
        c := next;
      }
      if sound {
        assert cs[|done|..] == [];
        assert cs[..|done|] == cs;
      }
    }
  }

  /** Other entries stay. */
  lemma EntryKept(words0: seq<Slot>, words: seq<Slot>, len: nat, c: nat, v: nat, f: nat, g: nat, d: nat)
    requires c < len && d < len && d != c && Writing(words0, words, len, c, v, f) && At(g, len, d) < |words|
    ensures words[At(g, len, d)] == words0[At(g, len, d)]
  {
    forall h: nat | h < f ensures At(g, len, d) != At(h, len, c) {
      if g < h {
        OffApart(g, h, len);
      } else if h < g {
        OffApart(h, g, len);
      }
    }
  }

  lemma EntryWritten(words0: seq<Slot>, words: seq<Slot>, copies: nat, len: nat, c: nat, v: nat, d: nat)
    requires copies > 0 && c < len && d < len && Writing(words0, words, len, c, v, copies)
    requires Agree(words0, copies, len, d)
    ensures Agree(words, copies, len, d) && LinkAt(words, d) == if d == c then v else LinkAt(words0, d)
  {
    assert At(0, len, d) == d && At(0, len, c) == c;
    if d != c {
      EntryKept(words0, words, len, c, v, copies, 0, d);
      forall g: nat | g < copies ensures words[At(g, len, d)].link == LinkAt(words0, d) {
        EntryKept(words0, words, len, c, v, copies, g, d);
      }
    }
  }

  lemma AllWritten(words0: seq<Slot>, words: seq<Slot>, copies: nat, len: nat, c: nat, v: nat, f: nat, n: nat)
    requires copies > 0 && c < n <= len && f <= copies && Writing(words0, words, len, c, v, f)
    requires f == copies || At(f, len, c) >= |words|
    requires forall d: nat :: d < n ==> Agree(words0, copies, len, d)
    ensures forall d: nat :: d < n ==> Agree(words, copies, len, d)
    ensures FirstLinks(words, n) == FirstLinks(words0, n)[c := v]
  {
    assert Agree(words0, copies, len, c);
    forall d: nat | d < n
      ensures Agree(words, copies, len, d) && LinkAt(words, d) == if d == c then v else LinkAt(words0, d)
    {
      assert Agree(words0, copies, len, d);
      EntryWritten(words0, words, copies, len, c, v, d);
    }
  }

  lemma FreedMore(links: Links, done: seq<nat>, c: nat)
    requires c < |links|
    ensures Freed(links, done + [c]) == Freed(links, done)[c := FREE]
  { }

  /** The walk has freed the first clusters of the chain and stands at the next. */
  ghost predicate Walked(links: Links, cs: seq<nat>, done: seq<nat>, c: nat) {
    |done| <= |cs| && done == cs[..|done|] && Chain(links, c, cs[|done|..])
  }

  /** The walk meets the next cluster of the chain, not freed yet. */
  lemma WalkStep(links: Links, cs: seq<nat>, done: seq<nat>, c: nat)
    requires Distinct(cs) && Walked(links, cs, done, c) && Leads(c)
    ensures c < |links| && Walked(links, cs, done + [c], links[c])
    ensures c !in done && Freed(links, done)[c] == links[c]
  {
    var rest := cs[|done|..];
    assert rest != [] && rest[0] == cs[|done|] == c && rest[1..] == cs[|done| + 1..];
    assert done + [c] == cs[..|done| + 1];
  }
}
