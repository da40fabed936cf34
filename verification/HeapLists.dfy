/** The kernel heap as a value: every object of a bucket page is on its bucket's free list or live, never both. */
module HeapLists {
  import opened HeapShape

  /** Page bitmap and tags, list heads, the words of memory, the live blocks with the sizes asked for, the objects
      on each free list, and the pages in use by others or never handed out. */
  datatype Shape = Shape(bits: seq<bool>, tags: seq<int>, heads: seq<nat>, mem: map<nat, nat>,
                         live: map<nat, nat>, lists: seq<seq<nat>>, others: set<nat>, reserved: set<nat>)

  /** Following the words of memory from `head` visits exactly `list`. */
  ghost predicate Linked(mem: map<nat, nat>, head: nat, list: seq<nat>)
    decreases |list|
  {
    if list == [] then head == 0 else head == list[0] && head in mem && Linked(mem, mem[head], list[1..])
  }

  ghost predicate NoDup(list: seq<nat>) { forall i: nat, j: nat :: i < j < |list| ==> list[i] != list[j] }

  lemma {:induction false} LinkedFrame(mem: map<nat, nat>, mem': map<nat, nat>, head: nat, list: seq<nat>)
    requires Linked(mem, head, list) && forall o: nat :: o in list && o in mem ==> o in mem' && mem'[o] == mem[o]
    ensures Linked(mem', head, list)
    decreases |list|
  {
    if list != [] {
      LinkedFrame(mem, mem', mem[head], list[1..]);
    }
  }

  ghost predicate ListOk(s: Shape, b: nat)
    requires |s.heads| == |s.lists| == BUCKETS && b < BUCKETS
  {
    && Linked(s.mem, s.heads[b], s.lists[b]) && NoDup(s.lists[b])
    && forall o: nat :: o in s.lists[b] ==> IsObj(s.tags, o, b)
  }

  ghost predicate PageOk(s: Shape, p: nat)
    requires p < |s.tags| == |s.bits|
  {
    && CONT <= s.tags[p] < BUCKETS
    && (s.bits[p] <==> s.tags[p] != FREE || p in s.others || p in s.reserved)
    && (p in s.others || p in s.reserved ==> s.tags[p] == FREE)
    && (s.tags[p] == CONT ==> p > 0 && (s.tags[p - 1] == LARGE || s.tags[p - 1] == CONT))
    && (s.tags[p] == LARGE ==> p * PAGE in s.live && s.live[p * PAGE] > SMALL)
  }

  ghost predicate LiveOk(s: Shape, a: nat)
    requires a in s.live && |s.lists| == BUCKETS
  { BlockOk(s.tags, a, s.live[a]) && (s.live[a] <= SMALL ==> a !in s.lists[Index(s.live[a])]) }

  /** An object of a bucket page is on the list or live. */
  ghost predicate Kept(s: Shape, o: nat, b: nat)
    requires |s.lists| == BUCKETS
  { IsObj(s.tags, o, b) ==> o in s.lists[b] || (o in s.live && s.live[o] <= SMALL && Index(s.live[o]) == b) }

  ghost predicate Ok(s: Shape) {
    && 0 < |s.tags| == |s.bits| && |s.heads| == |s.lists| == BUCKETS && 0 in s.reserved && s.others !! s.reserved
    && (forall p: nat :: p in s.others ==> p < |s.tags|)
    && (forall p: nat :: p < |s.tags| ==> PageOk(s, p))
    && (forall b: nat :: b < BUCKETS ==> ListOk(s, b))
    && (forall a: nat :: a in s.live ==> LiveOk(s, a))
    && (forall o: nat, b: nat :: Kept(s, o, b))
  }

  // ----- what it means -------------------------------------------------------------------------------------------

  /** The tag of its page decides the bucket of an object. */
  lemma OtherBucket(tags: seq<int>, o: nat, b: nat)
    requires o / PAGE < |tags| && tags[o / PAGE] != b
    ensures !IsObj(tags, o, b)
  { }

  lemma LiveNotListed(s: Shape, a: nat, b: nat)
    requires Ok(s) && a in s.live && b < BUCKETS
    ensures a !in s.lists[b]
  {
    assert LiveOk(s, a) && ListOk(s, b);
    if s.live[a] > SMALL {
      OtherBucket(s.tags, a, b);
    } else {
      var k: nat :| IsObjAt(s.tags, a, Index(s.live[a]), k);
      if b != Index(s.live[a]) {
        OtherBucket(s.tags, a, b);
      }
    }
  }

  /** What is on a free list is an object of the bucket, and not live. */
  lemma ListedNotLive(s: Shape, b: nat, o: nat)
    requires Ok(s) && b < BUCKETS && o in s.lists[b]
    ensures o !in s.live && IsObj(s.tags, o, b) && o != 0
  {
    assert ListOk(s, b) && PageOk(s, 0);
    if o in s.live {
      LiveNotListed(s, o, b);
      assert false;
    }
  }

  /** Live blocks are large enough and pairwise disjoint, and no free object overlaps one. */
  lemma LiveDisjoint(s: Shape)
    requires Ok(s)
    ensures forall a: nat :: a in s.live ==> s.live[a] <= Room(s.live[a])
    ensures forall a: nat, b: nat :: a in s.live && b in s.live && a < b ==> a + Room(s.live[a]) <= b
    ensures forall a: nat, b: nat, o: nat :: a in s.live && b < BUCKETS && o in s.lists[b] ==>
              o + Size(b) <= a || a + Room(s.live[a]) <= o
  {
    forall a: nat, b: nat | a in s.live && b in s.live && a < b ensures a + Room(s.live[a]) <= b {
      assert LiveOk(s, a) && LiveOk(s, b);
      BlocksApart(s.tags, a, s.live[a], b, s.live[b]);
    }
    forall a: nat, b: nat, o: nat | a in s.live && b < BUCKETS && o in s.lists[b]
      ensures o + Size(b) <= a || a + Room(s.live[a]) <= o
    {
      assert LiveOk(s, a);
      ListedNotLive(s, b, o);
      FreeApart(s.tags, o, b, a, s.live[a]);
    }
  }

  // ----- taking from and returning to a list ---------------------------------------------------------------------

  /** The first object of list `b` taken for `n` bytes. */
  ghost function Popped(s: Shape, b: nat, n: nat): Shape
    requires b < |s.lists| == |s.heads| && s.lists[b] != [] && s.heads[b] in s.mem
  {
    s.(heads := s.heads[b := s.mem[s.heads[b]]], live := s.live[s.lists[b][0] := n], lists :=
       s.lists[b := s.lists[b][1..]])
  }

  lemma PopOk(s: Shape, b: nat, n: nat)
    requires Ok(s) && b < BUCKETS && s.lists[b] != [] && 0 < n <= SMALL && Index(n) == b
    ensures s.heads[b] in s.mem && s.heads[b] == s.lists[b][0] && Ok(Popped(s, b, n))
    ensures s.lists[b][0] !in s.live && s.lists[b][0] != 0
  {
    var o := s.lists[b][0];
    assert ListOk(s, b);
    ListedNotLive(s, b, o);
    var t := Popped(s, b, n);
    forall c: nat | c < BUCKETS ensures ListOk(t, c) {
      assert ListOk(s, c);
    }
    forall a: nat | a in t.live ensures LiveOk(t, a) {
      if a != o {
        assert LiveOk(s, a);
      }
    }
    forall p: nat | p < |t.tags| ensures PageOk(t, p) {
      assert PageOk(s, p);
    }
    forall x: nat, c: nat ensures Kept(t, x, c) {
      assert Kept(s, x, c);
      if x == o && IsObj(t.tags, x, c) {
        SameBucket(s.tags, x, b, c);
      }
    }
  }

  lemma SameBucket(tags: seq<int>, o: nat, b: nat, c: nat)
    requires IsObj(tags, o, b) && IsObj(tags, o, c)
    ensures b == c
  {
    var k: nat :| IsObjAt(tags, o, b, k);
    var k': nat :| IsObjAt(tags, o, c, k');
  }

  /** Object `o` freed to the front of its list. */
  ghost function Pushed(s: Shape, b: nat, o: nat): Shape
    requires b < |s.lists| == |s.heads|
  {
    s.(heads := s.heads[b := o], mem := s.mem[o := s.heads[b]], live := s.live - {o}, lists :=
       s.lists[b := [o] + s.lists[b]])
  }

  lemma PushOk(s: Shape, b: nat, o: nat)
    requires Ok(s) && o in s.live && s.live[o] <= SMALL && b == Index(s.live[o])
    ensures o / PAGE < |s.tags| && s.tags[o / PAGE] == b && Ok(Pushed(s, b, o))
  {
    assert LiveOk(s, o);
    var k: nat :| IsObjAt(s.tags, o, b, k);
    var t := Pushed(s, b, o);
    forall c: nat | c < BUCKETS ensures ListOk(t, c) {
      assert ListOk(s, c);
      LiveNotListed(s, o, c);
      LinkedFrame(s.mem, t.mem, s.heads[c], s.lists[c]);
      assert t.lists[b][1..] == s.lists[b];
    }
    forall a: nat | a in t.live ensures LiveOk(t, a) {
      assert LiveOk(s, a);
    }
    forall p: nat | p < |t.tags| ensures PageOk(t, p) {
      assert PageOk(s, p) && (p * PAGE) / PAGE == p;
    }
    forall x: nat, c: nat ensures Kept(t, x, c) {
      assert Kept(s, x, c);
    }
  }

  /** A word stored in a live block. */
  lemma StoreOk(s: Shape, a: nat, i: nat, v: nat)
    requires Ok(s) && a in s.live && i < Room(s.live[a])
    ensures Ok(s.(mem := s.mem[a + i := v]))
  {
    var t := s.(mem := s.mem[a + i := v]);
    LiveDisjoint(s);
    forall c: nat | c < BUCKETS ensures ListOk(t, c) {
      assert ListOk(s, c);
      assert a + i !in s.lists[c];
      LinkedFrame(s.mem, t.mem, s.heads[c], s.lists[c]);
    }
    forall b: nat | b in t.live ensures LiveOk(t, b) {
      assert LiveOk(s, b);
    }
    forall p: nat | p < |t.tags| ensures PageOk(t, p) {
      assert PageOk(s, p);
    }
    forall x: nat, c: nat ensures Kept(t, x, c) {
      assert Kept(s, x, c);
    }
  }

  // ----- pages -----------------------------------------------------------------------------------------------------

  /** The objects of page `p` from number `k` on. */
  ghost function PageObjs(p: nat, b: nat, k: nat): (r: seq<nat>)
    requires k <= Per(b)
    ensures |r| == Per(b) - k && forall i: nat :: i < |r| ==> r[i] == Obj(p, b, k + i)
  { seq<nat>(Per(b) - k, i requires i >= 0 => Obj(p, b, k + i)) }

  /** Page `p` given to bucket `b`, all its objects free, linked in order. */
  ghost predicate Split(mem: map<nat, nat>, mem': map<nat, nat>, p: nat, b: nat) {
    && Linked(mem', Obj(p, b, 0), PageObjs(p, b, 0))
    && forall x: nat :: x in mem && x / PAGE != p ==> x in mem' && mem'[x] == mem[x]
  }

  ghost function WithPage(s: Shape, p: nat, b: nat, mem': map<nat, nat>): Shape
    requires p < |s.tags| == |s.bits| && b < |s.lists| == |s.heads|
  {
    s.(bits := s.bits[p := true], tags := s.tags[p := b], heads := s.heads[b := Obj(p, b, 0)], mem := mem',
       lists := s.lists[b := PageObjs(p, b, 0)])
  }

  /** Tags of other pages decide other objects. */
  lemma ObjElsewhere(tags: seq<int>, tags': seq<int>, o: nat, b: nat)
    requires |tags| == |tags'| && (o / PAGE < |tags| ==> tags'[o / PAGE] == tags[o / PAGE])
    ensures IsObj(tags', o, b) <==> IsObj(tags, o, b)
  {
    if IsObj(tags, o, b) {
      var k: nat :| IsObjAt(tags, o, b, k);
      assert IsObjAt(tags', o, b, k);
    }
    if IsObj(tags', o, b) {
      var k: nat :| IsObjAt(tags', o, b, k);
      assert IsObjAt(tags, o, b, k);
    }
  }

  lemma PageObjsOk(tags: seq<int>, p: nat, b: nat)
    requires p < |tags| && tags[p] == b && b < BUCKETS
    ensures NoDup(PageObjs(p, b, 0))
    ensures forall o: nat :: o in PageObjs(p, b, 0) ==> IsObj(tags, o, b) && o / PAGE == p
    ensures forall o: nat, c: nat :: o / PAGE == p && IsObj(tags, o, c) ==> c == b && o in PageObjs(p, b, 0)
  {
    var objs := PageObjs(p, b, 0);
    forall i: nat, j: nat | i < j < |objs| ensures objs[i] != objs[j] {
      StepsApart(i, j, Size(b));
    }
    forall o: nat | o in objs ensures IsObj(tags, o, b) && o / PAGE == p {
      var k: nat :| k < |objs| && objs[k] == o;
      ObjFits(p, b, k);
      assert IsObjAt(tags, o, b, k);
    }
    forall o: nat, c: nat | o / PAGE == p && IsObj(tags, o, c) ensures c == b && o in objs {
      var k: nat :| IsObjAt(tags, o, c, k);
      assert objs[k] == o;
    }
  }

  /** Live blocks stay when free pages from `lo` to `hi` get tags. */
  lemma LiveElsewhere(s: Shape, tags': seq<int>, lo: nat, hi: nat, a: nat)
    requires Ok(s) && a in s.live && lo < hi <= |s.tags| == |tags'| && tags'[lo] != CONT
    requires forall q: nat :: q < |tags'| ==> if lo <= q < hi then s.tags[q] == FREE else tags'[q] == s.tags[q]
    ensures BlockOk(tags', a, s.live[a]) && !(lo <= a / PAGE < hi)
  {
    assert LiveOk(s, a);
    if s.live[a] <= SMALL {
      var k: nat :| IsObjAt(s.tags, a, Index(s.live[a]), k);
      ObjElsewhere(s.tags, tags', a, Index(s.live[a]));
    } else {
      var p, count := a / PAGE, Pages(s.live[a]);
      assert forall q: nat :: p <= q < p + count ==> s.tags[q] != FREE;
      assert !(lo <= p + count - 1 < hi);
    }
  }

  lemma PageGiven(s: Shape, p: nat, b: nat, mem': map<nat, nat>)
    requires Ok(s) && p < |s.tags| && !s.bits[p] && b < BUCKETS && s.lists[b] == [] && Split(s.mem, mem', p, b)
    ensures Ok(WithPage(s, p, b, mem'))
  {
    var t := WithPage(s, p, b, mem');
    assert PageOk(s, p) && s.tags[p] == FREE;
    PageObjsOk(t.tags, p, b);
    forall c: nat | c < BUCKETS ensures ListOk(t, c) {
      assert ListOk(s, c);
      if c != b {
        forall o: nat | o in s.lists[c] ensures IsObj(t.tags, o, c) && o / PAGE != p {
          var k: nat :| IsObjAt(s.tags, o, c, k);
          ObjElsewhere(s.tags, t.tags, o, c);
        }
        LinkedFrame(s.mem, mem', s.heads[c], s.lists[c]);
      }
    }
    forall a: nat | a in t.live ensures LiveOk(t, a) {
      LiveElsewhere(s, t.tags, p, p + 1, a);
      assert LiveOk(s, a);
    }
    forall q: nat | q < |t.tags| ensures PageOk(t, q) {
      assert PageOk(s, q);
    }
    forall x: nat, c: nat ensures Kept(t, x, c) {
      assert Kept(s, x, c);
      if x / PAGE != p {
        ObjElsewhere(s.tags, t.tags, x, c);
      }
    }
  }

  /** `count` pages from `p` on tagged as one large block. */
  function LargeTags(tags: seq<int>, p: nat, count: nat): (r: seq<int>)
    ensures |r| == |tags|
    ensures forall q: nat :: q < |tags| ==>
              r[q] == if q == p && count > 0 then LARGE else if p < q < p + count then CONT else tags[q]
  { seq(|tags|, q requires 0 <= q < |tags| => if q == p
        && count > 0 then LARGE else if p < q < p + count then CONT else tags[q]) }

  function FreeTags(tags: seq<int>, p: nat, count: nat): (r: seq<int>)
    ensures |r| == |tags| && forall q: nat :: q < |tags| ==> r[q] == if p <= q < p + count then FREE else tags[q]
  { seq(|tags|, q requires 0 <= q < |tags| => if p <= q < p + count then FREE else tags[q]) }

  /** Pages that stay out of bucket pages do not change the objects. */
  lemma NoObjs(s: Shape, tags': seq<int>, lo: nat, hi: nat, o: nat, c: nat)
    requires |s.tags| == |tags'| && lo <= hi <= |tags'| && c < BUCKETS
    requires forall q: nat :: q < |tags'| ==>
               if lo <= q < hi then s.tags[q] < 0 && tags'[q] < 0 else tags'[q] == s.tags[q]
    ensures IsObj(tags', o, c) <==> IsObj(s.tags, o, c)
  {
    if lo <= o / PAGE < hi {
      OtherBucket(s.tags, o, c);
      OtherBucket(tags', o, c);
    } else {
      ObjElsewhere(s.tags, tags', o, c);
    }
  }

  /** Free pages have no tag, and no continuation follows them. */
  lemma Untagged(s: Shape, p: nat, count: nat)
    requires Ok(s) && count > 0 && p + count <= |s.tags| && forall q: nat :: p <= q < p + count ==> !s.bits[q]
    ensures forall q: nat :: p <= q < p + count ==> s.tags[q] == FREE
    ensures p + count < |s.tags| ==> s.tags[p + count] != CONT
  {
    forall q: nat | p <= q < p + count ensures s.tags[q] == FREE {
      assert PageOk(s, q);
    }
    if p + count < |s.tags| {
      assert PageOk(s, p + count);
    }
  }

  /** The first page of a live block has a tag. */
  lemma LiveTagged(s: Shape, a: nat)
    requires Ok(s) && a in s.live
    ensures a / PAGE < |s.tags| && s.tags[a / PAGE] != FREE
  {
    assert LiveOk(s, a);
    if s.live[a] <= SMALL {
      var k: nat :| IsObjAt(s.tags, a, Index(s.live[a]), k);
    }
  }

  /** So no block starts in a page without one. */
  lemma FreshBlock(s: Shape, p: nat)
    requires Ok(s) && p < |s.tags| && s.tags[p] == FREE
    ensures p * PAGE !in s.live
  {
    if p * PAGE in s.live {
      LiveTagged(s, p * PAGE);
      assert false;
    }
  }

  ghost function WithLarge(s: Shape, p: nat, n: nat, bits': seq<bool>): Shape {
    s.(bits := bits', tags := LargeTags(s.tags, p, Pages(n)), live := s.live[p * PAGE := n])
  }

  lemma LargeGiven(s: Shape, p: nat, n: nat, bits': seq<bool>)
    requires Ok(s) && n > SMALL && p + Pages(n) <= |s.tags| == |bits'|
    requires forall q: nat :: p <= q < p + Pages(n) ==> !s.bits[q]
    requires forall q: nat :: q < |bits'| ==> bits'[q] == (s.bits[q] || p <= q < p + Pages(n))
    ensures p * PAGE !in s.live && Ok(WithLarge(s, p, n, bits'))
  {
    var t, count := WithLarge(s, p, n, bits'), Pages(n);
    Untagged(s, p, count);
    assert (p * PAGE) / PAGE == p && (p * PAGE) % PAGE == 0;
    FreshBlock(s, p);
    forall c: nat | c < BUCKETS ensures ListOk(t, c) {
      assert ListOk(s, c);
      forall o: nat | o in s.lists[c] ensures IsObj(t.tags, o, c) {
        NoObjs(s, t.tags, p, p + count, o, c);
      }
    }
    forall a: nat | a in t.live ensures LiveOk(t, a) {
      if a != p * PAGE {
        LiveElsewhere(s, t.tags, p, p + count, a);
        assert LiveOk(s, a);
      } else {
        assert LargeAt(t.tags, p, count);
      }
    }
    forall q: nat | q < |t.tags| ensures PageOk(t, q) {
      assert PageOk(s, q);
    }
    forall x: nat, c: nat ensures Kept(t, x, c) {
      assert Kept(s, x, c);
      if c < BUCKETS {
        NoObjs(s, t.tags, p, p + count, x, c);
      }
    }
  }

  ghost function WithoutLarge(s: Shape, a: nat, bits': seq<bool>): Shape
    requires a in s.live
  { s.(bits := bits', tags := FreeTags(s.tags, a / PAGE, Pages(s.live[a])), live := s.live - {a}) }

  lemma LargeReturned(s: Shape, a: nat, bits': seq<bool>)
    requires Ok(s) && a in s.live && s.live[a] > SMALL && |bits'| == |s.bits|
    requires forall q: nat :: q < |bits'| ==> bits'[q] == (s.bits[q] && !(a / PAGE <= q < a / PAGE + Pages(s.live[a])))
    ensures LargeAt(s.tags, a / PAGE, Pages(s.live[a])) && Ok(WithoutLarge(s, a, bits'))
  {
    assert LiveOk(s, a);
    var t, p, count := WithoutLarge(s, a, bits'), a / PAGE, Pages(s.live[a]);
    forall c: nat | c < BUCKETS ensures ListOk(t, c) {
      assert ListOk(s, c);
      forall o: nat | o in s.lists[c] ensures IsObj(t.tags, o, c) {
        NoObjs(s, t.tags, p, p + count, o, c);
      }
    }
    forall b: nat | b in t.live ensures LiveOk(t, b) {
      OthersStay(s, a, b);
      assert LiveOk(s, b);
    }
    forall q: nat | q < |t.tags| ensures PageOk(t, q) {
      assert PageOk(s, q) && (q * PAGE) / PAGE == q;
    }
    forall x: nat, c: nat ensures Kept(t, x, c) {
      assert Kept(s, x, c);
      if c < BUCKETS {
        NoObjs(s, t.tags, p, p + count, x, c);
      }
    }
  }

  /** Untagging the pages of a large block leaves the other blocks. */
  lemma OthersStay(s: Shape, a: nat, b: nat)
    requires Ok(s) && a in s.live && s.live[a] > SMALL && b in s.live && b != a
    ensures BlockOk(FreeTags(s.tags, a / PAGE, Pages(s.live[a])), b, s.live[b])
  {
    assert LiveOk(s, a) && LiveOk(s, b);
    var p, count := a / PAGE, Pages(s.live[a]);
    var tags' := FreeTags(s.tags, p, count);
    if s.live[b] <= SMALL {
      NoObjs(s, tags', p, p + count, b, Index(s.live[b]));
    } else {
      var q, m := b / PAGE, Pages(s.live[b]);
      if p < q {
        LargeBefore(s.tags, p, count, q);
      } else {
        LargeBefore(s.tags, q, m, p);
      }
      assert LargeAt(tags', q, m);
    }
  }

  /** A page for another client of the page allocator. */
  lemma PageTaken(s: Shape, p: nat)
    requires Ok(s) && p < |s.bits| && !s.bits[p]
    ensures Ok(s.(bits := s.bits[p := true], others := s.others + {p}))
  {
    var t := s.(bits := s.bits[p := true], others := s.others + {p});
    SameHeap(s, t);
    assert PageOk(s, p);
    forall q: nat | q < |t.tags| ensures PageOk(t, q) {
      assert PageOk(s, q);
    }
  }

  lemma PageReturned(s: Shape, p: nat)
    requires Ok(s) && p in s.others
    ensures p < |s.bits| && Ok(s.(bits := s.bits[p := false], others := s.others - {p}))
  {
    var t := s.(bits := s.bits[p := false], others := s.others - {p});
    SameHeap(s, t);
    forall q: nat | q < |t.tags| ensures PageOk(t, q) {
      assert PageOk(s, q);
    }
  }

  lemma SameHeap(s: Shape, t: Shape)
    requires Ok(s) && t == s.(bits := t.bits, others := t.others)
    ensures forall b: nat :: b < BUCKETS ==> ListOk(t, b)
    ensures forall a: nat :: a in t.live ==> LiveOk(t, a)
    ensures forall o: nat, b: nat :: Kept(t, o, b)
  {
    forall b: nat | b < BUCKETS ensures ListOk(t, b) {
      assert ListOk(s, b);
    }
    forall a: nat | a in t.live ensures LiveOk(t, a) {
      assert LiveOk(s, a);
    }
    forall o: nat, b: nat ensures Kept(t, o, b) {
      assert Kept(s, o, b);
    }
  }

  // ----- memory of live blocks -------------------------------------------------------------------------------------

  function Word(mem: map<nat, nat>, x: nat): nat { if x in mem then mem[x] else 0 }

  /** Word `i` of block `a`. */
  function Held(mem: map<nat, nat>, a: nat, i: nat): nat { Word(mem, a + i) }

  /** Blocks live before and after hold what they held. */
  ghost predicate Undisturbed(s: Shape, t: Shape) {
    forall a: nat, i: nat :: a in s.live && a in t.live && i < Room(s.live[a]) ==>
        Held(t.mem, a, i) == Held(s.mem, a, i)
  }

  /** A page that was free holds no byte of a live block. */
  lemma FreePageApart(s: Shape, p: nat, a: nat, i: nat)
    requires Ok(s) && p < |s.bits| && !s.bits[p] && a in s.live && i < Room(s.live[a])
    ensures (a + i) / PAGE != p
  {
    assert PageOk(s, p) && LiveOk(s, a);
    if s.live[a] <= SMALL {
      var k: nat :| IsObjAt(s.tags, a, Index(s.live[a]), k);
      ObjFits(a / PAGE, Index(s.live[a]), k);
      assert (a + i) / PAGE == a / PAGE;
    } else {
      assert a / PAGE <= (a + i) / PAGE < a / PAGE + Pages(s.live[a]);
      assert s.tags[(a + i) / PAGE] != FREE;
    }
  }

  lemma SplitUndisturbed(s: Shape, t: Shape, p: nat)
    requires Ok(s) && p < |s.bits| && !s.bits[p]
    requires forall x: nat :: x / PAGE != p ==> Word(t.mem, x) == Word(s.mem, x)
    ensures Undisturbed(s, t)
  {
    forall a: nat, i: nat | a in s.live && a in t.live && i < Room(s.live[a])
      ensures Held(t.mem, a, i) == Held(s.mem, a, i) {
      FreePageApart(s, p, a, i);
    }
  }

  /** No other live block covers the address of one. */
  lemma NotInside(s: Shape, o: nat, a: nat, i: nat)
    requires Ok(s) && o in s.live && a in s.live && a != o && i < Room(s.live[a])
    ensures a + i != o
  {
    assert LiveOk(s, a) && LiveOk(s, o);
    if a < o {
      BlocksApart(s.tags, a, s.live[a], o, s.live[o]);
    }
  }

  lemma PushUndisturbed(s: Shape, b: nat, o: nat)
    requires Ok(s) && o in s.live && b < BUCKETS
    ensures Undisturbed(s, Pushed(s, b, o))
  {
    var t := Pushed(s, b, o);
    forall a: nat, i: nat | a in s.live && a in t.live && i < Room(s.live[a])
      ensures Held(t.mem, a, i) == Held(s.mem, a, i) {
      NotInside(s, o, a, i);
    }
  }
}
