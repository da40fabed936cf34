/** Any run of the kernel's allocator: to its callers, each live block is a private array of words. */
module HeapRun {
  import opened HeapShape
  import opened HeapLists
  import opened KernelHeap

  /** Blocks are named by the number of the request they came from. */
  datatype Request =
    | Malloc(n: nat)
    | Free(k: nat)
    | Store(k: nat, i: nat, v: nat)
    | TakePage
    | GivePage(k: nat)

  /** What callers hold: addresses, 0 for none, and pages. */
  class Callers {
    var blocks: seq<nat>
    var sizes: seq<nat>
    var pages: seq<nat>
    ghost var words: seq<map<nat, nat>>    // what each block's owner stored in it

    constructor ()
      ensures blocks == sizes == pages == [] && words == []
    { blocks, sizes, pages, words := [], [], [], []; }
  }

  function With(m: map<nat, nat>, i: nat, v: nat): map<nat, nat> { m[i := v] }

  ghost predicate BlockHolds(s: Shape, a: nat, size: nat, words: map<nat, nat>) {
    && a in s.live && s.live[a] == size
    && forall i: nat :: i in words ==> i < size && Held(s.mem, a, i) == words[i]
  }

  /** Every block held is live, of the size asked for, holds what was stored in it, and is nobody else's. */
  ghost predicate Holds(s: Shape, blocks: seq<nat>, sizes: seq<nat>, words: seq<map<nat, nat>>) {
    && |blocks| == |sizes| == |words|
    && (forall k: nat :: k < |blocks| && blocks[k] != 0 ==> BlockHolds(s, blocks[k], sizes[k], words[k]))
    && (forall j: nat, k: nat :: j < k < |blocks| && blocks[j] != 0 ==> blocks[j] != blocks[k])
  }

  ghost predicate PagesHeld(others: set<nat>, pages: seq<nat>) {
    && (forall k: nat :: k < |pages| && pages[k] != 0 ==> pages[k] in others)
    && (forall j: nat, k: nat :: j < k < |pages| && pages[j] != 0 ==> pages[j] != pages[k])
  }

  ghost predicate Match(heap: KernelHeap, c: Callers)
    reads heap, heap.ram, c
  { heap.Valid() && Holds(heap.View(), c.blocks, c.sizes, c.words) && PagesHeld(heap.others, c.pages) }

  /** Blocks that stay live and undisturbed hold what they held. */
  lemma StillHolds(s: Shape, t: Shape, a: nat, size: nat, words: map<nat, nat>)
    requires BlockHolds(s, a, size, words) && Undisturbed(s, t) && a in t.live && t.live[a] == size
    ensures BlockHolds(t, a, size, words)
  { }

  lemma MallocHolds(s: Shape, t: Shape, blocks: seq<nat>, sizes: seq<nat>, words: seq<map<nat, nat>>, a: nat, n: nat)
    requires Holds(s, blocks, sizes, words) && Undisturbed(s, t)
    requires if a == 0 then t == s else a !in s.live && t.live == s.live[a := n]
    ensures Holds(t, blocks + [a], sizes + [n], words + [map[]])
  {
    forall k: nat | k < |blocks| && blocks[k] != 0
      ensures BlockHolds(t, blocks[k], sizes[k], words[k]) && blocks[k] != a {
      StillHolds(s, t, blocks[k], sizes[k], words[k]);
    }
  }

  lemma FreeHolds(s: Shape, t: Shape, blocks: seq<nat>, sizes: seq<nat>, words: seq<map<nat, nat>>, k: nat)
    requires Holds(s, blocks, sizes, words) && Undisturbed(s, t) && k < |blocks| && blocks[k] != 0
    requires t.live == s.live - {blocks[k]}
    ensures Holds(t, blocks[k := 0], sizes, words)
  {
    forall j: nat | j < |blocks| && j != k && blocks[j] != 0 ensures BlockHolds(t, blocks[j], sizes[j], words[j]) {
      assert blocks[j] != blocks[k];
      StillHolds(s, t, blocks[j], sizes[j], words[j]);
    }
  }

  lemma StoreHolds(s: Shape, t: Shape, blocks: seq<nat>, sizes: seq<nat>, words: seq<map<nat, nat>>, k: nat, i: nat,
                   v: nat)
    requires Holds(s, blocks, sizes, words) && k < |blocks| && blocks[k] != 0 && i < sizes[k]
    requires t == s.(mem := s.mem[blocks[k] + i := v])
    requires forall b: nat, j: nat :: b in s.live && j < Room(s.live[b]) && !(b == blocks[k] && j == i) ==>
               Held(t.mem, b, j) == Held(s.mem, b, j)
    ensures Holds(t, blocks, sizes, words[k := With(words[k], i, v)])
  {
    forall j: nat | j < |blocks| && blocks[j] != 0
      ensures BlockHolds(t, blocks[j], sizes[j], words[k := With(words[k], i, v)][j]) {
      assert BlockHolds(s, blocks[j], sizes[j], words[j]);
      assert Held(t.mem, blocks[k], i) == v;
    }
  }

  // ----- requests --------------------------------------------------------------------------------------------------

  /** What the callers stored in their blocks, after a request; a block asked for in vain has no words. */
  function After(words: seq<map<nat, nat>>, held: bool, req: Request): seq<map<nat, nat>> {
    match req
    case Malloc(n) => words + [map[]]
    case Store(k, i, v) => if held && k < |words| then words[k := With(words[k], i, v)] else words
    case _ => words
  }

  /** A store into a block that is held and large enough. */
  predicate Fits(blocks: seq<nat>, sizes: seq<nat>, req: Request) {
    req.Store? && req.k < |blocks| == |sizes| && blocks[req.k] != 0 && req.i < sizes[req.k]
  }

  /** The block of a free request that is held. */
  predicate Given(blocks: seq<nat>, req: Request) { req.Free? && req.k < |blocks| && blocks[req.k] != 0 }

  /** The heap and what callers hold, at one moment of a run. */
  datatype Moment = Moment(heap: Shape, blocks: seq<nat>, sizes: seq<nat>, words: seq<map<nat, nat>>, pages: seq<nat>)

  /** Everything is in its place: the heap's own invariant, and every block and page held is the holder's alone. */
  ghost predicate Fine(m: Moment) {
    Ok(m.heap) && Holds(m.heap, m.blocks, m.sizes, m.words) && PagesHeld(m.heap.others, m.pages)
  }

  /** Memory asked for: there is none just when the allocator has no room, and else a block that was not live, from the
      first pages free if it takes any. */
  ghost predicate Allocated(m0: Moment, m: Moment, n: nat) {
    && |m.blocks| == |m0.blocks| + 1 && m.blocks[..|m0.blocks|] == m0.blocks && |m0.heap.lists| == BUCKETS
    && m.heap.others == m0.heap.others
    && var a := m.blocks[|m0.blocks|];
    && (a == 0 <==> NoRoom(m0.heap, n))
    && (if a == 0 then m.heap == m0.heap
        else a !in m0.heap.live && m.heap.live == m0.heap.live[a := n] && Drawn(m0.heap, m.heap.bits, n))
  }

  /** A block given back: it and no other is live no more, and a large one's own pages and no others come free. */
  ghost predicate Released(m0: Moment, m: Moment, k: nat)
    requires k < |m0.blocks|
  {
    && m.blocks == m0.blocks[k := 0] && m.heap.live == m0.heap.live - {m0.blocks[k]} && m.heap.others == m0.heap.others
    && m0.blocks[k] in m0.heap.live
       && m.heap.bits == BitsWithout(m0.heap.bits, m0.blocks[k], m0.heap.live[m0.blocks[k]])
  }

  /** The bitmap without the pages of a large block. */
  function BitsWithout(bits: seq<bool>, a: nat, n: nat): (r: seq<bool>)
    ensures |r| == |bits|
    ensures forall q: nat :: q < |r| ==> r[q] == (bits[q] && !(n > SMALL && a / PAGE <= q < a / PAGE + Pages(n)))
  {
    seq(|bits|, q requires 0 <= q < |bits| => bits[q] && !(n > SMALL && a / PAGE <= q < a / PAGE + Pages(n)))
  }

  /** A page for another client of the page allocator. */
  ghost predicate PageDrawn(m0: Moment, m: Moment) {
    && |m.pages| == |m0.pages| + 1 && m.pages[..|m0.pages|] == m0.pages
    && var p := m.pages[|m0.pages|];
    && (p == 0 <==> AllUsed(m0.heap.bits))
    && (if p == 0 then m.heap == m0.heap
        else p !in m0.heap.others && m.heap.others == m0.heap.others + {p}
             && LowestTaken(m0.heap.bits, m.heap.bits, 1))
  }

  ghost predicate PageGivenBack(m0: Moment, m: Moment, k: nat)
    requires k < |m0.pages|
  {
    && m.pages == m0.pages[k := 0] && m.heap.others == m0.heap.others - {m0.pages[k]}
    && m0.pages[k] < |m0.heap.bits| && m.heap.bits == m0.heap.bits[m0.pages[k] := false]
  }

  /** What a request does: exactly that, and nothing to what others hold. A request for a block or page not held, or
      for a word outside its block, does nothing. */
  ghost predicate Follows(m0: Moment, m: Moment, req: Request) {
    && m.words == After(m0.words, Fits(m0.blocks, m0.sizes, req), req)
    && m.sizes == m0.sizes + (if req.Malloc? then [req.n] else [])
    && (if req.Malloc? then Allocated(m0, m, req.n)
        else if Given(m0.blocks, req) then Released(m0, m, req.k)
        else m.blocks == m0.blocks && m.heap.live == m0.heap.live)
    && (if req.TakePage? then PageDrawn(m0, m)
        else if req.GivePage? && req.k < |m0.pages| && m0.pages[req.k] != 0 then PageGivenBack(m0, m, req.k)
        else m.pages == m0.pages && m.heap.others == m0.heap.others)
    && (req.Store? ==> m.heap.bits == m0.heap.bits)
  }

  ghost function Now(heap: KernelHeap, c: Callers): Moment
    reads heap, heap.ram, c
  { Moment(heap.View(), c.blocks, c.sizes, c.words, c.pages) }

  /** One request. */
  method Perform(heap: KernelHeap, c: Callers, req: Request)
    requires Match(heap, c)
    modifies heap, heap.ram, c
    ensures Match(heap, c) && Follows(old(Now(heap, c)), Now(heap, c), req)
  {
    match req
    case Malloc(n) => DoMalloc(heap, c, req);
    case Free(k) => DoFree(heap, c, req);
    case Store(k, i, v) =>
      if k < |c.blocks| && c.blocks[k] != 0 && i < c.sizes[k] {
        DoStore(heap, c, k, i, v);
      }
      assert c.sizes == old(c.sizes) + [];
    case TakePage => DoTake(heap, c, req);
    case GivePage(k) => DoGive(heap, c, req);
  }

  method DoTake(heap: KernelHeap, c: Callers, req: Request)
    requires Match(heap, c) && req.TakePage?
    modifies heap, heap.ram, c
    ensures Match(heap, c) && Follows(old(Now(heap, c)), Now(heap, c), req)
  {
    var p := heap.TakePage();
    c.pages := c.pages + [p];
    assert c.sizes == old(c.sizes) + [];
  }

  method DoGive(heap: KernelHeap, c: Callers, req: Request)
    requires Match(heap, c) && req.GivePage?
    modifies heap, heap.ram, c
    ensures Match(heap, c) && Follows(old(Now(heap, c)), Now(heap, c), req)
  {
    if req.k < |c.pages| && c.pages[req.k] != 0 {
      heap.GivePage(c.pages[req.k]);
      c.pages := c.pages[req.k := 0];
    }
    assert c.sizes == old(c.sizes) + [];
  }

  method DoMalloc(heap: KernelHeap, c: Callers, req: Request)
    requires Match(heap, c) && req.Malloc?
    modifies heap, heap.ram, c
    ensures Match(heap, c) && Follows(old(Now(heap, c)), Now(heap, c), req)
  {
    ghost var s := heap.View();
    var a := heap.Malloc(req.n);
    MallocHolds(s, heap.View(), c.blocks, c.sizes, c.words, a, req.n);
    c.blocks, c.sizes, c.words := c.blocks + [a], c.sizes + [req.n], c.words + [map[]];
  }

  method DoFree(heap: KernelHeap, c: Callers, req: Request)
    requires Match(heap, c) && req.Free?
    modifies heap, heap.ram, c
    ensures Match(heap, c) && Follows(old(Now(heap, c)), Now(heap, c), req)
  {
    ghost var s, k := heap.View(), req.k;
    if req.k < |c.blocks| && c.blocks[req.k] != 0 {
      assert BlockHolds(s, c.blocks[k], c.sizes[k], c.words[k]);
      heap.Free(c.blocks[req.k]);
      FreeHolds(s, heap.View(), c.blocks, c.sizes, c.words, k);
      c.blocks := c.blocks[req.k := 0];
      assert heap.ram.bits == BitsWithout(s.bits, old(c.blocks)[k], s.live[old(c.blocks)[k]]);
    }
    assert c.sizes == old(c.sizes) + [];
  }

  method DoStore(heap: KernelHeap, c: Callers, k: nat, i: nat, v: nat)
    requires Match(heap, c) && k < |c.blocks| && c.blocks[k] != 0 && i < c.sizes[k]
    modifies heap`mem, c`words
    ensures Match(heap, c) && c.words == old(c.words)[k := With(old(c.words)[k], i, v)]
  {
    ghost var s := heap.View();
    assert BlockHolds(s, c.blocks[k], c.sizes[k], c.words[k]);
    heap.Store(c.blocks[k], i, v);
    StoreHolds(s, heap.View(), c.blocks, c.sizes, c.words, k, i, v);
    c.words := c.words[k := With(c.words[k], i, v)];
  }

  /** The moments of a run: each follows from the one before by its request, and in each everything is in place. */
  ghost predicate Runs(ms: seq<Moment>, reqs: seq<Request>) {
    && |ms| == |reqs| + 1 && (forall j: nat :: j < |ms| ==> Fine(ms[j]))
    && forall j: nat :: j < |reqs| ==> Follows(ms[j], ms[j + 1], reqs[j])
  }

  lemma RunsOn(ms: seq<Moment>, reqs: seq<Request>, k: nat, m: Moment)
    requires k < |reqs| && Runs(ms, reqs[..k]) && Fine(m) && Follows(ms[k], m, reqs[k])
    ensures Runs(ms + [m], reqs[..k + 1])
  {
    var ms', reqs' := ms + [m], reqs[..k + 1];
    forall j: nat | j < |reqs'| ensures Follows(ms'[j], ms'[j + 1], reqs'[j]) {
      assert j < k ==> reqs[..k][j] == reqs'[j];
    }
  }

  /** Over any run, at every moment every block held is live, apart from all others, and reads back what its owner
      stored; and every request does exactly what it should. */
  method PerformAll(heap: KernelHeap, c: Callers, reqs: seq<Request>) returns (ghost ms: seq<Moment>)
    requires Match(heap, c)
    modifies heap, heap.ram, c
    ensures Match(heap, c) && Runs(ms, reqs) && ms[0] == old(Now(heap, c)) && ms[|reqs|] == Now(heap, c)
  {
    ms := [Now(heap, c)];
    for j := 0 to |reqs|
      invariant Match(heap, c) && Runs(ms, reqs[..j]) && ms[0] == old(Now(heap, c)) && ms[j] == Now(heap, c)
    {
      Perform(heap, c, reqs[j]);
      RunsOn(ms, reqs, j, Now(heap, c));
      ms := ms + [Now(heap, c)];
    }
    assert reqs[..|reqs|] == reqs;
  }

  /** Reading a word of a block that its owner stored before. */
  method Load(heap: KernelHeap, c: Callers, k: nat, i: nat) returns (v: nat)
    requires Match(heap, c) && k < |c.blocks| && c.blocks[k] != 0 && i in c.words[k]
    ensures v == c.words[k][i]
  {
    assert BlockHolds(heap.View(), c.blocks[k], c.sizes[k], c.words[k]);
    v := Held(heap.mem, c.blocks[k], i);
  }
}
