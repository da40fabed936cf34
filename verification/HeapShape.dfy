/** The shape of the kernel heap: page tags, objects of bucket pages, free lists and live blocks. */
module HeapShape {
  const PAGE: nat := 4096
  const BUCKETS: nat := 8
  const SMALL: nat := 2048      // the largest request a bucket serves

  // Tags of pages; from 0 on, the bucket a page belongs to.
  const FREE: int := -1
  const LARGE: int := -2
  const CONT: int := -3

  /** The bucket for a request. */
  function Index(n: nat): (b: nat)
    ensures b < BUCKETS && (n <= SMALL ==> n <= Size(b))
  {
    if n <= 16 then 0 else if n <= 32 then 1 else if n <= 64 then 2 else if n <= 128 then 3
    else if n <= 256 then 4 else if n <= 512 then 5 else if n <= 1024 then 6 else 7
  }

  /** Bytes of an object of bucket `b`. */
  function Size(b: nat): (r: nat)
    ensures 16 <= r <= SMALL
  {
    if b == 0 then 16 else if b == 1 then 32 else if b == 2 then 64 else if b == 3 then 128
    else if b == 4 then 256 else if b == 5 then 512 else if b == 6 then 1024 else 2048
  }

  /** Objects per page. */
  function Per(b: nat): (r: nat)
    ensures r >= 2
  { PAGE / Size(b) }

  /** Pages for a large request. */
  function Pages(n: nat): nat { (n + PAGE - 1) / PAGE }

  /** `k` objects further. */
  function Steps(k: nat, size: nat): nat { if k == 0 then 0 else Steps(k - 1, size) + size }

  lemma {:induction false} StepsIs(k: nat, size: nat)
    ensures Steps(k, size) == k * size
  {
    if k > 0 {
      StepsIs(k - 1, size);
      assert k * size == (k - 1) * size + size;
    }
  }

  lemma {:induction false} StepsApart(j: nat, k: nat, size: nat)
    requires j < k
    ensures Steps(j, size) + size <= Steps(k, size)
    decreases k
  {
    if j < k - 1 {
      StepsApart(j, k - 1, size);
    }
  }

  lemma PageFull(b: nat)
    ensures Steps(Per(b), Size(b)) == PAGE
  {
    StepsIs(Per(b), Size(b));
  }

  // ----- objects -------------------------------------------------------------------------------------------------

  /** Object `k` of page `p`. */
  function Obj(p: nat, b: nat, k: nat): nat { p * PAGE + Steps(k, Size(b)) }

  /** `o` is an object of a page of bucket `b`. */
  ghost predicate IsObj(tags: seq<int>, o: nat, b: nat) {
    exists k: nat :: IsObjAt(tags, o, b, k)
  }

  ghost predicate IsObjAt(tags: seq<int>, o: nat, b: nat, k: nat) {
    b < BUCKETS && o / PAGE < |tags| && tags[o / PAGE] == b && k < Per(b) && o == Obj(o / PAGE, b, k)
  }

  lemma ObjFits(p: nat, b: nat, k: nat)
    requires k < Per(b)
    ensures p * PAGE <= Obj(p, b, k) && Obj(p, b, k) + Size(b) <= p * PAGE + PAGE && Obj(p, b, k) / PAGE == p
  {
    PageFull(b);
    StepsApart(k, Per(b), Size(b));
  }

  /** Objects lie in their page, and apart. */
  lemma ObjsApart(tags: seq<int>, o: nat, b: nat, o': nat, b': nat)
    requires IsObj(tags, o, b) && IsObj(tags, o', b') && o < o'
    ensures o + Size(b) <= o' && (o / PAGE == o' / PAGE ==> b == b')
  {
    var k: nat :| IsObjAt(tags, o, b, k);
    var k': nat :| IsObjAt(tags, o', b', k');
    ObjFits(o / PAGE, b, k);
    ObjFits(o' / PAGE, b', k');
    if o / PAGE == o' / PAGE {
      if k < k' {
        StepsApart(k, k', Size(b));
      } else if k' < k {
        StepsApart(k', k, Size(b));
      }
    }
  }

  // ----- blocks --------------------------------------------------------------------------------------------------

  /** The pages of a large block: a head and its continuations, and no continuation behind them. */
  ghost predicate LargeAt(tags: seq<int>, p: nat, count: nat) {
    && 0 < count && p + count <= |tags| && tags[p] == LARGE
    && (forall i: nat :: p < i < p + count ==> tags[i] == CONT)
    && (p + count < |tags| ==> tags[p + count] != CONT)
  }

  /** A live block of `n` bytes at `a`. */
  ghost predicate BlockOk(tags: seq<int>, a: nat, n: nat) {
    if n <= SMALL then n > 0 && IsObj(tags, a, Index(n)) else a % PAGE == 0 && LargeAt(tags, a / PAGE, Pages(n))
  }

  /** The bytes set aside for a block. */
  function Room(n: nat): (r: nat)
    ensures n <= r
  { if n <= SMALL then Size(Index(n)) else Pages(n) * PAGE }

  /** Blocks at different places do not overlap. */
  lemma BlocksApart(tags: seq<int>, a: nat, n: nat, b: nat, m: nat)
    requires BlockOk(tags, a, n) && BlockOk(tags, b, m) && a < b
    ensures a + Room(n) <= b
  {
    if n <= SMALL && m <= SMALL {
      ObjsApart(tags, a, Index(n), b, Index(m));
    } else if n <= SMALL {
      var k: nat :| IsObjAt(tags, a, Index(n), k);
      ObjFits(a / PAGE, Index(n), k);
    } else {
      LargeBefore(tags, a / PAGE, Pages(n), b / PAGE);
      if m <= SMALL {
        var k: nat :| IsObjAt(tags, b, Index(m), k);
        ObjFits(b / PAGE, Index(m), k);
      }
    }
  }

  /** What is not a continuation is behind a large block that starts before it, or in its head page. */
  lemma LargeBefore(tags: seq<int>, p: nat, count: nat, q: nat)
    requires LargeAt(tags, p, count) && q < |tags| && p <= q && tags[q] != CONT
    ensures p == q || p + count <= q
  { }

  /** Nor do free objects and live blocks. */
  lemma FreeApart(tags: seq<int>, o: nat, b: nat, a: nat, n: nat)
    requires IsObj(tags, o, b) && BlockOk(tags, a, n) && o != a
    ensures o + Size(b) <= a || a + Room(n) <= o
  {
    if n <= SMALL {
      if o < a {
        ObjsApart(tags, o, b, a, Index(n));
      } else {
        ObjsApart(tags, a, Index(n), o, b);
      }
    } else {
      var k: nat :| IsObjAt(tags, o, b, k);
      ObjFits(o / PAGE, b, k);
      if a / PAGE <= o / PAGE {
        LargeBefore(tags, a / PAGE, Pages(n), o / PAGE);
      }
    }
  }
}
