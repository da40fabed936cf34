/** Physical memory: a bitmap of frames in use, a count of free ones, and what the
    frames hold. */
module VmmRam {
  import opened VmmTables

  /** Number of clear bits. */
  ghost function Clear(bits: seq<bool>): nat {
    if bits == [] then 0 else (if bits[0] then 0 else 1) + Clear(bits[1..])
  }

  lemma {:induction false} ClearSet(bits: seq<bool>, i: nat, b: bool)
    requires i < |bits|
    ensures Clear(bits[i := b]) == Clear(bits) + (if bits[i] then 1 else 0) - (if b then 1 else 0)
    decreases |bits|
  {
    if i == 0 {
      assert bits[0 := b][1..] == bits[1..];
    } else {
      ClearSet(bits[1..], i - 1, b);
      assert bits[i := b][1..] == bits[1..][i - 1 := b];
    }
  }

  lemma {:induction false} NoneClear(bits: seq<bool>)
    requires forall x: nat :: x < |bits| ==> bits[x]
    ensures Clear(bits) == 0
  {
    if bits != [] {
      NoneClear(bits[1..]);
    }
  }

  /** `count` free frames from `s` on. */
  ghost predicate FreeRun(bits: seq<bool>, s: nat, count: nat) {
    s + count <= |bits| && forall x: nat :: s <= x < s + count ==> !bits[x]
  }

  /** The bitmap with `count` frames from `s` on in use. */
  function RunTaken(bits: seq<bool>, s: nat, count: nat): (r: seq<bool>)
    ensures |r| == |bits| && forall x: nat :: x < |bits| ==> r[x] == (bits[x] || s <= x < s + count)
  { seq(|bits|, x requires 0 <= x < |bits| => bits[x] || s <= x < s + count) }

  lemma {:induction false} RunTakenClear(bits: seq<bool>, s: nat, count: nat)
    requires FreeRun(bits, s, count)
    ensures Clear(RunTaken(bits, s, count)) == Clear(bits) - count
    decreases count
  {
    if count == 0 {
      assert RunTaken(bits, s, 0) == bits;
    } else {
      RunTakenClear(bits, s, count - 1);
      ClearSet(RunTaken(bits, s, count - 1), s + count - 1, true);
      assert RunTaken(bits, s, count - 1)[s + count - 1 := true] == RunTaken(bits, s, count);
    }
  }

  /** No run of `count` ends at frame `i` while the free frames up to it are `run`, fewer. */
  lemma NoRunYet(bits: seq<bool>, i: nat, run: nat, count: nat)
    requires i < |bits| && run <= i + 1 && run < count && (run < i + 1 ==> bits[i - run])
    requires forall s: nat :: s + count <= i ==> !FreeRun(bits, s, count)
    ensures forall s: nat :: s + count <= i + 1 ==> !FreeRun(bits, s, count)
  {
    forall s: nat | s + count <= i + 1 ensures !FreeRun(bits, s, count) {
      if s + count == i + 1 {
        var x: nat := i - run;
        assert s <= x < s + count && bits[x];
      }
    }
  }

  class Ram {
    var bits: seq<bool>     // set: in use
    var freeCount: nat
    var frames: Frames

    /** Frame 0 is reserved, and the count is that of the clear bits. */
    ghost predicate Valid()
      reads this
    { 0 < |bits| == |frames| && bits[0] && freeCount == Clear(bits) }

    /** The lowest free frame, 0 if there is none. */
    method AllocPage() returns (p: nat)
      requires Valid()
      modifies this`bits, this`freeCount
      ensures Valid() && |bits| == |old(bits)|
      ensures p == 0 ==> bits == old(bits) && freeCount == 0 && forall x: nat :: x < |bits| ==> bits[x]
      ensures p != 0 ==> freeCount + 1 == old(freeCount)
      ensures p != 0 ==> p < |bits| && !old(bits)[p] && bits == old(bits)[p := true] && forall x: nat :: x < p ==>
                old(bits)[x]
    {
      var i := 0;
      while i < |bits|
        invariant i <= |bits| && forall x: nat :: x < i ==> bits[x]
      {
        if !bits[i] {
          ClearSet(bits, i, true);
          bits := bits[i := true];
          freeCount := freeCount - 1;
          return i;
        }
        i := i + 1;
      }
      p := 0;
      NoneClear(bits);
    }

    /** The lowest run of `count` free frames, 0 if there is none. */
    method AllocPages(count: nat) returns (p: nat)
      requires Valid()
      modifies this`bits, this`freeCount
      ensures Valid() && |bits| == |old(bits)|
      ensures p == 0 ==> bits == old(bits) && (count == 0 || forall s: nat :: !FreeRun(bits, s, count))
      ensures p != 0 ==> count > 0 && FreeRun(old(bits), p, count) && forall s: nat :: s < p ==>
                !FreeRun(old(bits), s, count)
      ensures p != 0 ==> bits == RunTaken(old(bits), p, count)
    {
      if count == 0 {
        return 0;
      }
      var run, start, i := 0, 0, 0;
      while i < |bits|
        invariant Valid() && bits == old(bits) && i <= |bits| && run <= i && run < count
                  && (run > 0 ==> start == i - run)
        invariant forall x: nat :: i - run <= x < i ==> !bits[x]
        invariant run < i ==> bits[i - run - 1]
        invariant forall s: nat :: s + count <= i ==> !FreeRun(bits, s, count)
      {
        if !bits[i] {
          if run == 0 {
            start := i;
          }
          run := run + 1;
          if run >= count {
            assert FreeRun(bits, start, count);
            RunTakenClear(bits, start, count);
            bits := RunTaken(bits, start, count);
            freeCount := freeCount - count;
            return start;
          }
        } else {
          run := 0;
        }
        NoRunYet(bits, i, run, count);
        i := i + 1;
      }
      p := 0;
    }

    /** Frames out of range or already free are ignored. */
    method FreePage(p: nat)
      requires Valid() && p != 0
      modifies this`bits, this`freeCount
      ensures Valid() && |bits| == |old(bits)|
      ensures forall x: nat :: x < |bits| ==> (bits[x] <==> old(bits)[x] && x != p)
      ensures freeCount == old(freeCount) + if p < |bits| && old(bits)[p] then 1 else 0
    {
      if p < |bits| && bits[p] {
        ClearSet(bits, p, false);
        bits := bits[p := false];
        freeCount := freeCount + 1;
      }
    }
  }
}
