/** The mounted volume: its blocks, its block bitmaps and the free counts kept
    beside them.  Allocation takes the lowest free block, or a run starting
    there; the counts always equal the number of clear bits. */
module Ext4Volume {
  import opened RawBytes
  import opened Ext4Extents
  import opened Division
  import opened Ext4Tree

  const SECTOR: nat := 512

  // ----- bitmaps -------------------------------------------------------------------

  /** Number of clear bits. */
  ghost function Clear(bits: seq<bool>): nat {
    if bits == [] then 0 else (if bits[0] then 0 else 1) + Clear(bits[1..])
  }

  lemma {:induction false} ClearConcat(a: seq<bool>, c: seq<bool>)
    ensures Clear(a + c) == Clear(a) + Clear(c)
  {
    if a == [] {
      assert a + c == c;
    } else {
      ClearConcat(a[1..], c);
      assert (a + c)[1..] == a[1..] + c;
    }
  }

  lemma ClearUpdate(bits: seq<bool>, i: nat, v: bool)
    requires i < |bits|
    ensures Clear(bits[i := v]) + (if bits[i] then 0 else 1) == Clear(bits) + (if v then 0 else 1)
  {
    CutOut(bits, i);
    CutOut(bits[i := v], i);
    assert bits[i := v][..i] == bits[..i] && bits[i := v][i + 1..] == bits[i + 1..];
    ClearConcat(bits[..i] + [bits[i]], bits[i + 1..]);
    ClearConcat(bits[..i], [bits[i]]);
    ClearConcat(bits[..i] + [v], bits[i + 1..]);
    ClearConcat(bits[..i], [v]);
  }

  lemma {:induction false} ClearNone(bits: seq<bool>)
    ensures Clear(bits) == 0 <==> forall i :: 0 <= i < |bits| ==> bits[i]
  {
    if bits != [] {
      ClearNone(bits[1..]);
      assert forall i :: 1 <= i < |bits| ==> bits[i] == bits[1..][i - 1];
    }
  }

  ghost function Sum(s: seq<nat>): nat {
    if s == [] then 0 else s[0] + Sum(s[1..])
  }

  lemma {:induction false} SumUpdate(s: seq<nat>, i: nat, v: nat)
    requires i < |s|
    ensures Sum(s[i := v]) + s[i] == Sum(s) + v
  {
    if i > 0 {
      SumUpdate(s[1..], i - 1, v);
      assert s[i := v][1..] == s[1..][i - 1 := v];
    }
  }

  // ----- which blocks the bitmaps mark ------------------------------------------------

  ghost predicate Marked(bits: seq<seq<bool>>, bpg: nat, first: nat, b: nat) {
    && bpg > 0 && first <= b && Div(b - first, bpg) < |bits|
    && Mod(b - first, bpg) < |bits[Div(b - first, bpg)]|
    && bits[Div(b - first, bpg)][Mod(b - first, bpg)]
  }

  /** The bitmaps of `n` groups describe block `b`. */
  ghost predicate InGroups(n: nat, bpg: nat, first: nat, b: nat) {
    first <= b < first + n * bpg
  }

  ghost predicate Groups(bits: seq<seq<bool>>, bpg: nat) {
    bpg > 0 && forall g :: 0 <= g < |bits| ==> |bits[g]| == bpg
  }

  lemma MarkedIn(bits: seq<seq<bool>>, bpg: nat, first: nat, b: nat)
    requires Marked(bits, bpg, first, b)
    ensures InGroups(|bits|, bpg, first, b)
  {
    var g := Div(b - first, bpg);
    DivMod(b - first, bpg);
    GroupStep(g, |bits|, bpg);
  }

  lemma MarkedBit(bits: seq<seq<bool>>, bpg: nat, first: nat, g: nat, bit: nat)
    requires Groups(bits, bpg) && g < |bits| && bit < bpg
    ensures Marked(bits, bpg, first, g * bpg + first + bit) <==> bits[g][bit]
    ensures first <= g * bpg + first + bit < first + |bits| * bpg
  {
    DivUnique(g * bpg + bit, g, bit, bpg);
    GroupStep(g, |bits|, bpg);
    assert g * bpg + first + bit - first == g * bpg + bit;
  }

  /** `c` is `a` with the `n` bits from `lo` set to `v`. */
  ghost predicate Painted(a: seq<bool>, c: seq<bool>, lo: nat, n: nat, v: bool) {
    |a| == |c| && forall i :: 0 <= i < |a| ==> c[i] == if lo <= i < lo + n then v else a[i]
  }

  /** Painting bits of one group marks or unmarks exactly their blocks. */
  lemma PaintMarks(bits: seq<seq<bool>>, bm: seq<bool>, bpg: nat, first: nat, g: nat, lo: nat, n: nat, v: bool, b: nat)
    requires Groups(bits, bpg) && g < |bits| && lo + n <= bpg && Painted(bits[g], bm, lo, n, v)
    ensures Marked(bits[g := bm], bpg, first, b) <==>
      if g * bpg + first + lo <= b < g * bpg + first + lo + n then v else Marked(bits, bpg, first, b)
  {
    if first <= b {
      var m := b - first;
      var q, r := Div(m, bpg), Mod(m, bpg);
      DivMod(m, bpg);
      if q < g {
        GroupStep(q, g, bpg);
      } else if g < q {
        GroupStep(g, q, bpg);
      }
    }
  }

  lemma CountsFollow(bits: seq<seq<bool>>, counts: seq<nat>, bm: seq<bool>, g: nat)
    requires |counts| == |bits| && g < |bits| && forall h :: 0 <= h < |bits| ==> counts[h] == Clear(bits[h])
    ensures Sum(counts[g := Clear(bm)]) == Sum(counts) - Clear(bits[g]) + Clear(bm)
    ensures var bits', counts' := bits[g := bm], counts[g := Clear(bm)];
            forall h :: 0 <= h < |bits'| ==> counts'[h] == Clear(bits'[h])
  {
    CountUpdate(bits, counts, bm, g);
  }

  lemma PaintUsed(bits: seq<seq<bool>>, bm: seq<bool>, bpg: nat, first: nat, g: nat, lo: nat, n: nat, v: bool,
                  used: set<nat>, used': set<nat>)
    requires Groups(bits, bpg) && g < |bits| && lo + n <= bpg && Painted(bits[g], bm, lo, n, v)
    requires forall b :: b in used <==> Marked(bits, bpg, first, b)
    requires used' == if v then used + Range(g * bpg + first + lo, n) else used - Range(g * bpg + first + lo, n)
    ensures forall b :: b in used' <==> Marked(bits[g := bm], bpg, first, b)
  {
    forall b ensures b in used' <==> Marked(bits[g := bm], bpg, first, b) {
      PaintMarks(bits, bm, bpg, first, g, lo, n, v, b);
    }
  }

  /** The sum of the group counts follows one group's bitmap. */
  lemma CountUpdate(bits: seq<seq<bool>>, counts: seq<nat>, bm: seq<bool>, g: nat)
    requires |counts| == |bits| && g < |bits| && counts[g] == Clear(bits[g])
    ensures Sum(counts[g := Clear(bm)]) == Sum(counts) - Clear(bits[g]) + Clear(bm)
  {
    SumUpdate(counts, g, Clear(bm));
  }

  lemma {:induction false} PrefixClear(bm: seq<bool>, k: nat)
    requires k <= |bm| && forall i: nat :: i < |bm| ==> (bm[i] <==> i < k)
    ensures Clear(bm) == |bm| - k
  {
    if bm != [] {
      PrefixClear(bm[1..], if k == 0 then 0 else k - 1);
    }
  }

  lemma PrefixMarked(bm: seq<bool>, bpg: nat, first: nat, k: nat)
    requires |bm| == bpg > 0 && k <= bpg && forall i: nat :: i < |bm| ==> (bm[i] <==> i < k)
    ensures forall b: nat {:trigger Marked([bm], bpg, first, b)} :: Marked([bm], bpg, first, b) <==>
              first <= b < first + k
  {
    forall b: nat ensures Marked([bm], bpg, first, b) <==> first <= b < first + k {
      if b >= first {
        assert Div(b - first, bpg) == 0 <==> b - first < bpg;
      }
    }
  }

  // ----- scanning one bitmap ------------------------------------------------------------

  method FirstClear(bm: seq<bool>) returns (bit: nat)
    ensures bit <= |bm| && (bit < |bm| ==> !bm[bit]) && forall i :: 0 <= i < bit ==> bm[i]
  {
    bit := 0;
    while bit < |bm| && bm[bit]
      invariant bit <= |bm| && forall i :: 0 <= i < bit ==> bm[i]
    {
      bit := bit + 1;
    }
  }

  /** How long a run is asked for. */
  function RunWant(want: nat): nat { if want == 0 then 1 else if want > MAX_LEN then MAX_LEN else want }

  method ClearRun(bm: seq<bool>, bit: nat, want: nat) returns (run: nat)
    requires bit < |bm| && !bm[bit] && 1 <= want
    ensures 1 <= run <= want && bit + run <= |bm|
    ensures forall i :: bit <= i < bit + run ==> !bm[i]
    ensures run < want && bit + run < |bm| ==> bm[bit + run]
  {
    run := 0;
    while bit + run < |bm| && run < want && !bm[bit + run]
      invariant run <= want && bit + run <= |bm|
      invariant forall i :: bit <= i < bit + run ==> !bm[i]
    {
      run := run + 1;
    }
  }

  method SetRun(bm: seq<bool>, bit: nat, run: nat) returns (r: seq<bool>)
    requires bit + run <= |bm| && forall i :: bit <= i < bit + run ==> !bm[i]
    ensures Painted(bm, r, bit, run, true) && Clear(r) == Clear(bm) - run
  {
    r := bm;
    var k := 0;
    while k < run
      invariant k <= run && Painted(bm, r, bit, k, true)
      invariant Clear(r) == Clear(bm) - k
    {
      ClearUpdate(r, bit + k, true);
      r := r[bit + k := true];
      k := k + 1;
    }
  }

  // ----- the volume -----------------------------------------------------------------

  class Volume {
    const blockSize: nat
    const bpg: nat          // s_blocks_per_group
    const firstData: nat    // s_first_data_block
    var bits: seq<seq<bool>>
    var freeCount: seq<nat> // bg_free_blocks_count_lo
    var sbFree: nat         // s_free_blocks_count_lo
    var disk: Disk
    ghost var used: set<nat>

    /** Records that fit in a block node: a 12-byte header, 12-byte records. */
    function Cap(): nat { if blockSize < 12 then 0 else (blockSize - 12) / 12 }

    /** 512-byte sectors per block, the unit of `i_blocks`. */
    function Spb(): nat { blockSize / SECTOR }

    /** One past the last block the bitmaps describe. */
    ghost function Limit(): nat
      reads this
    { firstData + |bits| * bpg }

    ghost predicate Geometry()
      reads this
    {
      blockSize >= 1024 && bpg < 0x1_0000 && Limit() < U32 && Groups(bits, bpg)
    }

    /** Group and superblock free counts equal the number of clear bits. */
    ghost predicate Counts()
      reads this
    {
      && |freeCount| == |bits|
      && (forall g :: 0 <= g < |bits| ==> freeCount[g] == Clear(bits[g]))
      && sbFree == Sum(freeCount)
    }

    ghost predicate UsedIsMarked()
      reads this
    {
      && (forall b {:trigger Marked(bits, bpg, firstData, b)} :: b in used <==> Marked(bits, bpg, firstData, b))
      && (firstData == 0 && |bits| > 0 && |bits[0]| > 0 ==> bits[0][0])
    }

    ghost predicate Contents()
      reads this
    {
      && (forall b {:trigger InGroups(|bits|, bpg, firstData, b)} :: InGroups(|bits|, bpg, firstData, b) ==> b in disk)
      && (forall b :: b in disk && disk[b].DataBlock? ==> |disk[b].bytes| == blockSize)
    }

    ghost predicate Valid()
      reads this
    {
      Geometry() && Counts() && UsedIsMarked() && Contents()
    }

    /** A volume of one group whose first `k` blocks are in use. */
    constructor Prefix(blockSize: nat, bpg: nat, firstData: nat, k: nat, disk: Disk)
      requires blockSize >= 1024 && 0 < bpg < 0x1_0000 && 0 < firstData && firstData + bpg < U32 && k <= bpg
      requires forall b: nat :: firstData <= b < firstData + bpg ==> b in disk
      requires forall b :: b in disk && disk[b].DataBlock? ==> |disk[b].bytes| == blockSize
      ensures Valid() && used == Range(firstData, k) && this.disk == disk
      ensures this.blockSize == blockSize && this.bpg == bpg && this.firstData == firstData && |bits| == 1
    {
      this.blockSize, this.bpg, this.firstData := blockSize, bpg, firstData;
      var bm := seq(bpg, i => i < k);
      bits := [bm];
      freeCount := [bpg - k];
      sbFree := bpg - k;
      this.disk := disk;
      used := Range(firstData, k);
      PrefixClear(bm, k);
      PrefixMarked(bm, bpg, firstData, k);
    }

    /** The block number of bit `bit` of group `g`. */
    function BlockNo(g: nat, bit: nat): nat { g * bpg + firstData + bit }

    /** Write group `g`'s bitmap back with `n` bits painted and adjust the counts;
        `used` follows. */
    method PaintGroup(g: nat, bm: seq<bool>, lo: nat, n: nat, v: bool)
      requires Valid() && g < |bits| && lo + n <= bpg && Painted(bits[g], bm, lo, n, v)
      requires forall i :: lo <= i < lo + n ==> bits[g][i] != v
      requires firstData == 0 && g == 0 && n > 0 && !v ==> lo > 0
      requires Clear(bm) == if v then Clear(bits[g]) - n else Clear(bits[g]) + n
      modifies this`bits, this`freeCount, this`sbFree, this`used
      ensures Valid()
      ensures bits == old(bits)[g := bm]
      ensures v ==> used == old(used) + Range(BlockNo(g, lo), n)
      ensures !v ==> used == old(used) - Range(BlockNo(g, lo), n)
    {
      CountsFollow(bits, freeCount, bm, g);
      ghost var used1 := if v then used + Range(BlockNo(g, lo), n) else used - Range(BlockNo(g, lo), n);
      PaintUsed(bits, bm, bpg, firstData, g, lo, n, v, used, used1);
      var count: nat := if v then freeCount[g] - n else freeCount[g] + n;
      assert count == Clear(bm);
      bits := bits[g := bm];
      freeCount := freeCount[g := count];
      sbFree := if v then sbFree - n else sbFree + n;
      used := used1;
    }

    /** Nothing is free in any group before `g`. */
    ghost predicate FullBefore(g: nat)
      reads this
    {
      g <= |bits| && forall h, i :: 0 <= h < g && 0 <= i < |bits[h]| ==> bits[h][i]
    }

    /** `b` is the lowest free block. */
    ghost predicate Lowest(b: nat)
      reads this
    {
      firstData <= b < Limit() && b !in used && forall c :: firstData <= c < b ==> c in used
    }

    lemma LowestBit(g: nat, bit: nat)
      requires Valid() && g < |bits| && bit < bpg && FullBefore(g)
      requires !bits[g][bit] && forall i :: 0 <= i < bit ==> bits[g][i]
      ensures Lowest(BlockNo(g, bit)) && BlockNo(g, bit) > 0
    {
      MarkedBit(bits, bpg, firstData, g, bit);
      forall c | firstData <= c < BlockNo(g, bit) ensures c in used {
        assert Marked(bits, bpg, firstData, c) ==> c in used;
        var m := c - firstData;
        BeforeBit(m, g, bit, bpg);
      }
      if g > 0 {
        GroupStep(0, g, bpg);
      }
    }

    lemma FullMeansNone()
      requires Valid() && FullBefore(|bits|)
      ensures Exhausted()
    {
      forall b: nat | InGroups(|bits|, bpg, firstData, b) ensures b in used {
        assert Marked(bits, bpg, firstData, b) ==> b in used;
        var m := b - firstData;
        QuotientBelow(m, |bits|, bpg);
      }
    }

    /** No block is free. */
    ghost predicate Exhausted()
      reads this
    {
      forall c {:trigger InGroups(|bits|, bpg, firstData, c)} :: InGroups(|bits|, bpg, firstData, c) ==> c in used
    }

    /** No block outside `s` is free. */
    ghost predicate AllBut(s: set<nat>)
      reads this
    {
      forall c {:trigger InGroups(|bits|, bpg, firstData, c)} :: InGroups(|bits|, bpg, firstData, c) ==>
          c in used || c in s
    }

    lemma UsedOnDisk(b: nat)
      requires Valid() && b in used
      ensures b in disk
    {
      MarkedIn(bits, bpg, firstData, b);
    }

    method WriteNode(b: nat, n: Node)
      requires Contents()
      modifies this`disk
      ensures Contents() && (old(Valid()) ==> Valid()) && disk == old(disk)[b := NodeBlock(n)]
    {
      disk := disk[b := NodeBlock(n)];
    }

    method WriteData(b: nat, bytes: seq<Byte>)
      requires Valid() && |bytes| == blockSize
      modifies this`disk
      ensures Valid() && disk == old(disk)[b := DataBlock(bytes)]
    {
      disk := disk[b := DataBlock(bytes)];
    }

    /** Allocate and zero the lowest free block; 0 when none is free. */
    method AllocBlock() returns (b: nat)
      requires Valid()
      modifies this
      ensures Valid()
      ensures b == 0 ==> Exhausted() && used == old(used) && disk == old(disk) && bits == old(bits)
      ensures b != 0 ==> old(Lowest(b)) && used == old(used) + {b} && |bits| == |old(bits)|
      ensures b != 0 ==> disk == old(disk)[b := DataBlock(seq(blockSize, _ => 0))]
    {
      var bg := 0;
      while bg < |bits|
        invariant bg <= |bits| && FullBefore(bg)
        invariant Valid() && used == old(used) && disk == old(disk) && bits == old(bits)
      {
        if freeCount[bg] != 0 {
          var bm := bits[bg];
          var bit := FirstClear(bm);
          if bit < bpg {
            LowestBit(bg, bit);
            ClearUpdate(bm, bit, true);
            PaintGroup(bg, bm[bit := true], bit, 1, true);
            b := BlockNo(bg, bit);
            disk := disk[b := DataBlock(seq(blockSize, _ => 0))];
            return;
          }
        }
        ClearNone(bits[bg]);
        bg := bg + 1;
      }
      FullMeansNone();
      b := 0;
    }

    /** Return block `b` to the bitmap; a block that is out of range or already
        free is left alone. */
    method FreeBlock(b: nat)
      requires Valid() && b > 0
      modifies this`bits, this`freeCount, this`sbFree, this`used
      ensures Valid() && used == old(used) - {b} && |bits| == |old(bits)|
    {
      if b < firstData {
        assert !Marked(bits, bpg, firstData, b);
        return;
      }
      var rel := b - firstData;
      var bg, bit := rel / bpg, rel % bpg;
      DivIs(rel, bpg);
      DivMod(rel, bpg);
      if bg >= |bits| {
        assert !Marked(bits, bpg, firstData, b);
        return;
      }
      var bm := bits[bg];
      assert Marked(bits, bpg, firstData, b) <==> bm[bit];
      if bm[bit] {
        ClearUpdate(bm, bit, false);
        PaintGroup(bg, bm[bit := false], bit, 1, false);
      }
    }

    ghost predicate GroupStart(b: nat) { exists g: nat :: b == BlockNo(g, 0) }

    /** Allocate up to `want` consecutive blocks from the lowest free one on, fewer only where the next
        block is in use or of another group. */
    method AllocRun(want: nat) returns (start: nat, got: nat)
      requires Valid()
      modifies this`bits, this`freeCount, this`sbFree, this`used
      ensures Valid() && |bits| == |old(bits)|
      ensures start == 0 ==> got == 0 && used == old(used) && Exhausted()
      ensures start != 0 ==> 1 <= got && (want > 0 ==> got <= want) && got <= MAX_LEN && old(Lowest(start))
      ensures start != 0 ==> Range(start, got) !! old(used) && used == old(used) + Range(start, got)
      ensures start != 0 ==> start + got <= Limit()
      ensures start != 0 ==> got == RunWant(want) || start + got in old(used) || GroupStart(start + got)
    {
      var n := RunWant(want);
      var bg := 0;
      while bg < |bits|
        invariant bg <= |bits| && FullBefore(bg)
        invariant Valid() && used == old(used) && bits == old(bits)
      {
        if freeCount[bg] != 0 {
          var bm := bits[bg];
          var bit := FirstClear(bm);
          if bit < bpg {
            LowestBit(bg, bit);
            var run := ClearRun(bm, bit, n);
            bm := SetRun(bm, bit, run);
            RunFree(bg, bit, run);
            RunEnds(bg, bit, run);
            PaintGroup(bg, bm, bit, run, true);
            return BlockNo(bg, bit), run;
          }
        }
        ClearNone(bits[bg]);
        bg := bg + 1;
      }
      FullMeansNone();
      return 0, 0;
    }

    lemma RunEnds(g: nat, lo: nat, n: nat)
      requires Valid() && g < |bits| && lo + n <= bpg
      ensures lo + n == bpg ==> GroupStart(BlockNo(g, lo) + n)
      ensures lo + n < bpg && bits[g][lo + n] ==> BlockNo(g, lo) + n in used
    {
      if lo + n == bpg {
        GroupAfter(g, bpg);
        assert BlockNo(g + 1, 0) == BlockNo(g, lo) + n;
      } else {
        MarkedBit(bits, bpg, firstData, g, lo + n);
        assert BlockNo(g, lo + n) == BlockNo(g, lo) + n;
      }
    }

    lemma RunFree(g: nat, lo: nat, n: nat)
      requires Valid() && g < |bits| && lo + n <= bpg && forall i :: lo <= i < lo + n ==> !bits[g][i]
      ensures Range(BlockNo(g, lo), n) !! used && BlockNo(g, lo) + n <= Limit()
    {
      GroupStep(g, |bits|, bpg);
      forall b | b in Range(BlockNo(g, lo), n) ensures b !in used {
        MarkedBit(bits, bpg, firstData, g, b - BlockNo(g, lo) + lo);
      }
    }
  }
}
