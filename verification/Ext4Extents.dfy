/** Extents as a sorted list, and the finite map from logical to physical block
    that such a list denotes.  The map is the reference every extent-tree
    operation is compared with. */
module Ext4Extents {

  const U32: nat := 0x1_0000_0000
  const PHYS_LIMIT: nat := 0x1_0000_0000_0000
  const MAX_LEN: nat := 32768

  /** One on-disk record: `len` blocks from logical `block` at physical `start`. */
  datatype Extent = Extent(block: nat, len: nat, start: nat) {
    function End(): nat { block + len }

    predicate Covers(b: nat) { block <= b < End() }

    /** What an initialised record satisfies; `End` stays below 2^32 so that the
        32-bit sum `ee_block + ee_len` of the source does not wrap. */
    predicate Valid() {
      1 <= len <= MAX_LEN && End() < U32 && 0 < start && start + len <= PHYS_LIMIT
    }
  }

  ghost predicate Sorted(s: seq<Extent>) {
    forall i, j :: 0 <= i < j < |s| ==> s[i].End() <= s[j].block
  }

  ghost predicate AllValid(s: seq<Extent>) {
    forall i :: 0 <= i < |s| ==> s[i].Valid()
  }

  ghost predicate Good(s: seq<Extent>) { AllValid(s) && Sorted(s) }

  /** The map of a list: the physical block of logical block `b`, 0 if none. */
  ghost function At(s: seq<Extent>, b: nat): nat {
    if s == [] then 0
    else if s[0].Covers(b) then s[0].start + (b - s[0].block)
    else At(s[1..], b)
  }

  /** No block of the range is mapped. */
  ghost predicate Unmapped(s: seq<Extent>, block: nat, len: nat) {
    forall b :: block <= b < block + len ==> At(s, b) == 0
  }

  /** The value at `b` of a map holding `was` there, extended by one run. */
  ghost function WithRun(was: nat, b: nat, block: nat, start: nat, len: nat): nat {
    if block <= b < block + len then start + (b - block) else was
  }

  /** `t` is well formed and denotes the map of `s` extended by exactly one run. */
  ghost predicate Adds(s: seq<Extent>, t: seq<Extent>, block: nat, start: nat, len: nat) {
    Good(t) && forall b :: At(t, b) == WithRun(At(s, b), b, block, start, len)
  }

  // ----- the map of a list ---------------------------------------------------

  lemma {:induction false} AtConcat(a: seq<Extent>, c: seq<Extent>, b: nat)
    requires AllValid(a)
    ensures At(a + c, b) == if At(a, b) != 0 then At(a, b) else At(c, b)
  {
    if a == [] {
      assert a + c == c;
    } else {
      AtConcat(a[1..], c, b);
      assert (a + c)[1..] == a[1..] + c;
    }
  }

  /** A mapped block lies in some extent, which decides its physical block. */
  lemma {:induction false} MappedSomewhere(s: seq<Extent>, b: nat) returns (i: nat)
    requires At(s, b) != 0
    ensures i < |s| && s[i].Covers(b) && At(s, b) == s[i].start + (b - s[i].block)
  {
    if s[0].Covers(b) {
      i := 0;
    } else {
      i := MappedSomewhere(s[1..], b);
      i := i + 1;
    }
  }

  /** In a sorted list every extent that covers `b` gives its physical block. */
  lemma {:induction false} MappedAt(s: seq<Extent>, i: nat, b: nat)
    requires Good(s) && i < |s| && s[i].Covers(b)
    ensures At(s, b) == s[i].start + (b - s[i].block) != 0
  {
    if i > 0 {
      assert s[0].End() <= s[i].block;
      assert Good(s[1..]);
      MappedAt(s[1..], i - 1, b);
    }
  }

  lemma UnmappedBelow(s: seq<Extent>, b: nat)
    requires StartsFrom(s, b + 1)
    ensures At(s, b) == 0
  {
    if At(s, b) != 0 {
      var i := MappedSomewhere(s, b);
    }
  }

  lemma UnmappedAbove(s: seq<Extent>, b: nat)
    requires EndsBy(s, b)
    ensures At(s, b) == 0
  {
    if At(s, b) != 0 {
      var i := MappedSomewhere(s, b);
    }
  }

  // ----- replacing the middle of a list ---------------------------------------

  ghost predicate Before(a: seq<Extent>, c: seq<Extent>) {
    forall i, j :: 0 <= i < |a| && 0 <= j < |c| ==> a[i].End() <= c[j].block
  }

  ghost predicate EndsBy(s: seq<Extent>, hi: nat) {
    forall i :: 0 <= i < |s| ==> s[i].End() <= hi
  }

  ghost predicate StartsFrom(s: seq<Extent>, lo: nat) {
    forall i :: 0 <= i < |s| ==> lo <= s[i].block
  }

  lemma GoodSplit(a: seq<Extent>, c: seq<Extent>)
    requires Good(a + c)
    ensures Good(a) && Good(c) && Before(a, c)
  {
    var s := a + c;
    assert forall i :: 0 <= i < |a| ==> s[i] == a[i];
    assert forall i :: 0 <= i < |c| ==> s[|a| + i] == c[i];
  }

  lemma GoodParts(a: seq<Extent>, x: seq<Extent>, c: seq<Extent>)
    requires Good(a + x + c)
    ensures Good(a) && Good(x) && Good(c)
    ensures Before(a, x) && Before(x, c) && Before(a, c)
  {
    GoodSplit(a + x, c);
    GoodSplit(a, x);
    BeforeParts(a, x, c);
  }

  lemma BeforeParts(a: seq<Extent>, x: seq<Extent>, c: seq<Extent>)
    requires Before(a + x, c)
    ensures Before(a, c) && Before(x, c)
  {
    var s := a + x;
    assert forall i :: 0 <= i < |a| ==> s[i] == a[i];
    assert forall i :: 0 <= i < |x| ==> s[|a| + i] == x[i];
  }

  lemma GoodJoin(a: seq<Extent>, x: seq<Extent>, c: seq<Extent>)
    requires Good(a) && Good(x) && Good(c)
    requires Before(a, x) && Before(x, c) && Before(a, c)
    ensures Good(a + x + c)
  {
  }

  /** The run touches neither the part before it nor the part after it. */
  ghost predicate Fits(a: seq<Extent>, c: seq<Extent>, block: nat, len: nat) {
    EndsBy(a, block) && StartsFrom(c, block + len)
  }

  lemma StaysBetween(a: seq<Extent>, x: seq<Extent>, y: seq<Extent>, c: seq<Extent>,
                     block: nat, start: nat, len: nat)
    requires Before(a, x) && Before(x, c) && Fits(a, c, block, len)
    requires Adds(x, y, block, start, len)
    ensures Before(a, y) && Before(y, c)
  {
    forall i, j | 0 <= i < |a| && 0 <= j < |y| ensures a[i].End() <= y[j].block {
      MappedAt(y, j, y[j].block);
      if y[j].block < block {
        var k := MappedSomewhere(x, y[j].block);
      }
    }
    forall i, j | 0 <= i < |y| && 0 <= j < |c| ensures y[i].End() <= c[j].block {
      MappedAt(y, i, y[i].End() - 1);
      if block + len <= y[i].End() - 1 {
        var k := MappedSomewhere(x, y[i].End() - 1);
      }
    }
  }

  lemma LiftAt(a: seq<Extent>, x: seq<Extent>, y: seq<Extent>, c: seq<Extent>,
               block: nat, start: nat, len: nat, b: nat)
    requires AllValid(a) && AllValid(x) && Fits(a, c, block, len) && 0 < start
    requires Adds(x, y, block, start, len)
    ensures At(a + y + c, b) == WithRun(At(a + x + c, b), b, block, start, len)
  {
    AtConcat(a + x, c, b);
    AtConcat(a + y, c, b);
    AtConcat(a, x, b);
    AtConcat(a, y, b);
    if block <= b {
      UnmappedAbove(a, b);
    }
  }

  /** Adding a run to the middle part of a list adds it to the whole list. */
  lemma LiftAdds(a: seq<Extent>, x: seq<Extent>, y: seq<Extent>, c: seq<Extent>,
                 block: nat, start: nat, len: nat)
    requires Good(a + x + c) && Adds(x, y, block, start, len) && Fits(a, c, block, len) && 0 < start
    ensures Adds(a + x + c, a + y + c, block, start, len)
  {
    GoodParts(a, x, c);
    StaysBetween(a, x, y, c, block, start, len);
    GoodJoin(a, y, c);
    forall b ensures At(a + y + c, b) == WithRun(At(a + x + c, b), b, block, start, len) {
      LiftAt(a, x, y, c, block, start, len, b);
    }
  }

  // ----- physical blocks ------------------------------------------------------

  /** The `len` consecutive numbers from `lo`. */
  ghost function Range(lo: nat, len: nat): (r: set<nat>)
    ensures forall b :: b in r <==> lo <= b < lo + len
  {
    if len == 0 then {} else Range(lo, len - 1) + {lo + len - 1}
  }

  function InRun(start: nat, len: nat, x: nat): nat {
    if start <= x < start + len then 1 else 0
  }

  /** How many records of the list use physical block `x` for data. */
  ghost function DataRefs(s: seq<Extent>, x: nat): nat {
    if s == [] then 0 else InRun(s[0].start, s[0].len, x) + DataRefs(s[1..], x)
  }

  /** How many data blocks the list uses in all. */
  ghost function DataCount(s: seq<Extent>): nat {
    if s == [] then 0 else s[0].len + DataCount(s[1..])
  }

  lemma {:induction false} DataConcat(a: seq<Extent>, c: seq<Extent>)
    ensures forall x :: DataRefs(a + c, x) == DataRefs(a, x) + DataRefs(c, x)
    ensures DataCount(a + c) == DataCount(a) + DataCount(c)
  {
    if a == [] {
      assert a + c == c;
    } else {
      DataConcat(a[1..], c);
      assert (a + c)[1..] == a[1..] + c;
    }
  }

  lemma DataSplit(a: seq<Extent>, y: seq<Extent>, c: seq<Extent>)
    ensures forall x :: DataRefs(a + y + c, x) == DataRefs(a, x) + DataRefs(y, x) + DataRefs(c, x)
    ensures DataCount(a + y + c) == DataCount(a) + DataCount(y) + DataCount(c)
  {
    DataConcat(a + y, c);
    DataConcat(a, y);
  }

  lemma One(e: Extent)
    ensures forall b: nat :: At([e], b) == if e.Covers(b) then e.start + (b - e.block) else 0
    ensures forall x :: DataRefs([e], x) == InRun(e.start, e.len, x)
    ensures DataCount([e]) == e.len
  {
    assert [e][1..] == [];
  }

  /** `t` uses the blocks of `s` and, once more each, those of the run. */
  ghost predicate UsesRun(s: seq<Extent>, t: seq<Extent>, start: nat, len: nat) {
    && (forall x :: DataRefs(t, x) == DataRefs(s, x) + InRun(start, len, x))
    && DataCount(t) == DataCount(s) + len
  }

  // ----- inserting one run into a leaf ----------------------------------------

  /** Number of leading extents that start at or before `block`. */
  function Position(s: seq<Extent>, block: nat): (pos: nat)
    ensures pos <= |s|
    ensures forall i :: 0 <= i < pos ==> s[i].block <= block
    ensures pos < |s| ==> block < s[pos].block
  {
    if s == [] || block < s[0].block then 0 else 1 + Position(s[1..], block)
  }

  /** The run continues `e` both logically and physically and fits one record. */
  predicate Follows(e: Extent, block: nat, start: nat, len: nat) {
    e.End() == block && e.start + e.len == start && e.len + len <= MAX_LEN
  }

  predicate Precedes(e: Extent, block: nat, start: nat, len: nat) {
    block + len == e.block && start + len == e.start && e.len + len <= MAX_LEN
  }

  /** Does the run coalesce with a neighbour of position `pos`? */
  predicate CoalescesAt(s: seq<Extent>, pos: nat, block: nat, start: nat, len: nat)
    requires pos <= |s|
  {
    (pos > 0 && Follows(s[pos - 1], block, start, len)) ||
    (pos < |s| && Precedes(s[pos], block, start, len))
  }

  predicate Coalesces(s: seq<Extent>, block: nat, start: nat, len: nat) {
    CoalescesAt(s, Position(s, block), block, start, len)
  }

  /** The record list after a run is put at position `pos`. */
  function PutAt(s: seq<Extent>, pos: nat, block: nat, start: nat, len: nat): (t: seq<Extent>)
    requires pos <= |s|
    ensures |t| == |s| + if CoalescesAt(s, pos, block, start, len) then 0 else 1
  {
    if pos > 0 && Follows(s[pos - 1], block, start, len) then
      s[..pos - 1] + [s[pos - 1].(len := s[pos - 1].len + len)] + s[pos..]
    else if pos < |s| && Precedes(s[pos], block, start, len) then
      s[..pos] + [Extent(block, s[pos].len + len, start)] + s[pos + 1..]
    else
      s[..pos] + [Extent(block, len, start)] + s[pos..]
  }

  function Put(s: seq<Extent>, block: nat, start: nat, len: nat): seq<Extent> {
    PutAt(s, Position(s, block), block, start, len)
  }

  /** What a caller of an inserting operation must supply. */
  ghost predicate RunOk(block: nat, start: nat, len: nat) {
    Extent(block, len, start).Valid()
  }

  lemma PositionFits(s: seq<Extent>, block: nat, len: nat)
    requires Good(s) && Unmapped(s, block, len)
    requires 1 <= len
    ensures Fits(s[..Position(s, block)], s[Position(s, block)..], block, len)
  {
    var pos := Position(s, block);
    forall i | 0 <= i < pos ensures s[i].End() <= block {
      if block < s[i].End() {
        MappedAt(s, i, block);
      }
    }
    forall i | pos <= i < |s| ensures block + len <= s[i].block {
      MappedAt(s, i, s[i].block);
      assert i == pos || s[pos].End() <= s[i].block;
    }
  }

  lemma MergeFollows(e: Extent, block: nat, start: nat, len: nat)
    requires e.Valid() && RunOk(block, start, len) && Follows(e, block, start, len)
    ensures Adds([e], [e.(len := e.len + len)], block, start, len)
    ensures UsesRun([e], [e.(len := e.len + len)], start, len)
  {
    One(e);
    One(e.(len := e.len + len));
  }

  lemma MergePrecedes(e: Extent, block: nat, start: nat, len: nat)
    requires e.Valid() && RunOk(block, start, len) && Precedes(e, block, start, len)
    ensures Adds([e], [Extent(block, e.len + len, start)], block, start, len)
    ensures UsesRun([e], [Extent(block, e.len + len, start)], start, len)
  {
    One(e);
    One(Extent(block, e.len + len, start));
  }

  lemma PutFresh(block: nat, start: nat, len: nat)
    requires RunOk(block, start, len)
    ensures Adds([], [Extent(block, len, start)], block, start, len)
    ensures UsesRun([], [Extent(block, len, start)], start, len)
  {
    One(Extent(block, len, start));
  }

  /** The shape of every insertion: one short piece `x` is replaced by `y`. */
  ghost predicate PutAs(s: seq<Extent>, t: seq<Extent>,
                        a: seq<Extent>, x: seq<Extent>, y: seq<Extent>, c: seq<Extent>,
                        block: nat, start: nat, len: nat)
  {
    && s == a + x + c && t == a + y + c
    && Adds(x, y, block, start, len) && Fits(a, c, block, len)
    && UsesRun(x, y, start, len)
  }

  lemma CutOut<T>(s: seq<T>, i: nat)
    requires i < |s|
    ensures s == s[..i] + [s[i]] + s[i + 1..]
  {
  }

  lemma FitsNarrower(s: seq<Extent>, pos: nat, block: nat, len: nat)
    requires pos <= |s| && Fits(s[..pos], s[pos..], block, len)
    ensures pos > 0 ==> Fits(s[..pos - 1], s[pos..], block, len)
    ensures pos < |s| ==> Fits(s[..pos], s[pos + 1..], block, len)
  {
    assert forall i :: 0 <= i < pos ==> s[i] == s[..pos][i];
    assert forall i :: pos <= i < |s| ==> s[i] == s[pos..][i - pos];
  }

  lemma PutFollowing(s: seq<Extent>, i: nat, block: nat, start: nat, len: nat)
    requires i < |s| && s[i].Valid() && RunOk(block, start, len) && Follows(s[i], block, start, len)
    requires Fits(s[..i], s[i + 1..], block, len)
    ensures var y := s[i].(len := s[i].len + len);
            PutAs(s, s[..i] + [y] + s[i + 1..], s[..i], [s[i]], [y], s[i + 1..], block, start, len)
  {
    CutOut(s, i);
    MergeFollows(s[i], block, start, len);
  }

  lemma PutPreceding(s: seq<Extent>, i: nat, block: nat, start: nat, len: nat)
    requires i < |s| && s[i].Valid() && RunOk(block, start, len) && Precedes(s[i], block, start, len)
    requires Fits(s[..i], s[i + 1..], block, len)
    ensures var y := Extent(block, s[i].len + len, start);
            PutAs(s, s[..i] + [y] + s[i + 1..], s[..i], [s[i]], [y], s[i + 1..], block, start, len)
  {
    CutOut(s, i);
    MergePrecedes(s[i], block, start, len);
  }

  lemma PutBetween(s: seq<Extent>, i: nat, block: nat, start: nat, len: nat)
    requires i <= |s| && RunOk(block, start, len) && Fits(s[..i], s[i..], block, len)
    ensures var y := Extent(block, len, start);
            PutAs(s, s[..i] + [y] + s[i..], s[..i], [], [y], s[i..], block, start, len)
  {
    PutFresh(block, start, len);
    assert s == s[..i] + [] + s[i..];
  }

  lemma ReplaceAdds(s: seq<Extent>, t: seq<Extent>,
                    a: seq<Extent>, x: seq<Extent>, y: seq<Extent>, c: seq<Extent>,
                    block: nat, start: nat, len: nat)
    requires Good(s) && 0 < start && PutAs(s, t, a, x, y, c, block, start, len)
    ensures Adds(s, t, block, start, len) && UsesRun(s, t, start, len)
  {
    LiftAdds(a, x, y, c, block, start, len);
    DataSplit(a, x, c);
    DataSplit(a, y, c);
  }

  lemma PutAtAdds(s: seq<Extent>, pos: nat, block: nat, start: nat, len: nat)
    requires Good(s) && RunOk(block, start, len)
    requires pos <= |s| && Fits(s[..pos], s[pos..], block, len)
    ensures Adds(s, PutAt(s, pos, block, start, len), block, start, len)
    ensures UsesRun(s, PutAt(s, pos, block, start, len), start, len)
  {
    var t := PutAt(s, pos, block, start, len);
    FitsNarrower(s, pos, block, len);
    if pos > 0 && Follows(s[pos - 1], block, start, len) {
      PutFollowing(s, pos - 1, block, start, len);
      ReplaceAdds(s, t, s[..pos - 1], [s[pos - 1]], [s[pos - 1].(len := s[pos - 1].len + len)], s[pos..],
                  block, start, len);
    } else if pos < |s| && Precedes(s[pos], block, start, len) {
      PutPreceding(s, pos, block, start, len);
      ReplaceAdds(s, t, s[..pos], [s[pos]], [Extent(block, s[pos].len + len, start)], s[pos + 1..],
                  block, start, len);
    } else {
      PutBetween(s, pos, block, start, len);
      ReplaceAdds(s, t, s[..pos], [], [Extent(block, len, start)], s[pos..], block, start, len);
    }
  }

  /** Putting an unmapped run into a sorted list adds exactly that run to the
      map, keeps the list sorted and disjoint, and uses exactly its blocks. */
  lemma PutAdds(s: seq<Extent>, block: nat, start: nat, len: nat)
    requires Good(s) && RunOk(block, start, len) && Unmapped(s, block, len)
    ensures Adds(s, Put(s, block, start, len), block, start, len)
    ensures UsesRun(s, Put(s, block, start, len), start, len)
  {
    PositionFits(s, block, len);
    PutAtAdds(s, Position(s, block), block, start, len);
  }

  /** Two extents of a sorted list never cover one block. */
  lemma CoverOnce(s: seq<Extent>, i: nat, j: nat, b: nat)
    requires Sorted(s) && i < |s| && j < |s| && s[i].Covers(b) && s[j].Covers(b)
    ensures i == j
  {
    assert forall k: nat, l: nat :: k < l < |s| ==> s[k].End() <= s[l].block;
  }

  /** The insertion looks at the place of the run's first block only: the list
      stays well formed exactly when no block of the run was mapped. */
  lemma PutGoodIff(s: seq<Extent>, block: nat, start: nat, len: nat)
    requires Good(s) && RunOk(block, start, len)
    ensures Good(Put(s, block, start, len)) <==> Unmapped(s, block, len)
  {
    if Unmapped(s, block, len) {
      PutAdds(s, block, start, len);
    } else {
      var b: nat :| block <= b < block + len && At(s, b) != 0;
      var k := MappedSomewhere(s, b);
      var t := Put(s, block, start, len);
      var at, k' := PutTwice(s, Position(s, block), block, start, len, b, k);
      if Good(t) {
        CoverOnce(t, at, k', b);
      }
    }
  }

  /** A block of the run that record `k` covers already is covered by two records once the run is put. */
  lemma PutTwice(s: seq<Extent>, pos: nat, block: nat, start: nat, len: nat, b: nat, k: nat) returns (at: nat, k': nat)
    requires Good(s) && RunOk(block, start, len) && pos <= |s| && k < |s| && s[k].Covers(b)
    requires block <= b < block + len
    ensures var t := PutAt(s, pos, block, start, len);
            at < |t| && k' < |t| && at != k' && t[at].Covers(b) && t[k'].Covers(b)
  {
    var t := PutAt(s, pos, block, start, len);
    if pos > 0 && Follows(s[pos - 1], block, start, len) {
      at, k' := pos - 1, k;
      assert t[at].Covers(b) && k != at;
      assert t[k'] == s[k];
    } else if pos < |s| && Precedes(s[pos], block, start, len) {
      at, k' := pos, k;
      assert t[at].Covers(b) && k != at;
      assert t[k'] == s[k];
    } else {
      at, k' := pos, if k < pos then k else k + 1;
      assert t[at].Covers(b);
      assert t[k'] == s[k];
    }
  }
}
