/** The write-through sector cache between the file systems and the block devices. */
module BlockCache {
  import opened RawBytes

  const ENTRIES := 512
  const CLOCK_LIMIT: nat := 0x1_0000_0000

  type Sector = seq<Byte>

  /** `age` is the stamp of the last use; 0 marks an unused slot. */
  datatype Slot = Slot(dev: nat, lba: nat, age: nat, data: Sector)

  predicate Live(s: Slot) { s.age != 0 }

  predicate Keyed(s: Slot, dev: nat, lba: nat) { Live(s) && s.dev == dev && s.lba == lba }

  /** At most one live slot for a sector. */
  ghost predicate Single(slots: seq<Slot>) {
    forall i: nat, j: nat :: i < j < |slots| && Live(slots[i]) ==> !Keyed(slots[j], slots[i].dev, slots[i].lba)
  }

  /** A slot is given a sector no other slot has. */
  lemma SinglePut(slots: seq<Slot>, k: nat, s: Slot)
    requires Single(slots) && k < |slots|
    requires forall i: nat :: i < |slots| && i != k ==> !Keyed(slots[i], s.dev, s.lba)
    ensures Single(slots[k := s])
  { }

  /** The contents of every device. */
  type Disks = seq<seq<Sector>>

  predicate OnDisk(disks: Disks, dev: nat, lba: nat, data: Sector) {
    dev < |disks| && lba < |disks[dev]| && disks[dev][lba] == data
  }

  /** Live slots agree with the devices, but for sectors from..to of `dev`. */
  ghost predicate CoherentBut(slots: seq<Slot>, disks: Disks, dev: nat, from: nat, to: nat) {
    forall i: nat :: i < |slots| && Live(slots[i]) && !(slots[i].dev == dev && from <= slots[i].lba < to) ==>
      OnDisk(disks, slots[i].dev, slots[i].lba, slots[i].data)
  }

  /** What a transfer of `count` sectors at `lba` touches exists. */
  predicate InRange(disks: Disks, dev: nat, lba: nat, count: nat) {
    dev < |disks| && lba + count <= |disks[dev]|
  }

  function Overlaid(disks: Disks, dev: nat, lba: nat, data: seq<Sector>): Disks
    requires InRange(disks, dev, lba, |data|)
  { disks[dev := disks[dev][..lba] + data + disks[dev][lba + |data|..]] }

  lemma OverlaidAt(disks: Disks, dev: nat, lba: nat, data: seq<Sector>, d: nat, l: nat)
    requires InRange(disks, dev, lba, |data|) && d < |disks| && l < |disks[d]|
    ensures |Overlaid(disks, dev, lba, data)| == |disks| && |Overlaid(disks, dev, lba, data)[d]| == |disks[d]|
    ensures Overlaid(disks, dev, lba, data)[d][l] == if d == dev
            && lba <= l < lba + |data| then data[l - lba] else disks[d][l]
  { }

  /** The first `n` sectors of the buffer are those from `lba` on, the rest are as they were. */
  ghost predicate Filled(was: seq<Sector>, buf: seq<Sector>, disks: Disks, dev: nat, lba: nat, n: nat) {
    && |buf| == |was| && n <= |was| && buf[n..] == was[n..]
    && (n > 0 ==> InRange(disks, dev, lba, n) && buf[..n] == disks[dev][lba..lba + n])
  }

  lemma FilledMore(was: seq<Sector>, buf: seq<Sector>, buf': seq<Sector>, disks: Disks, dev: nat, lba: nat, n: nat,
                   run: nat)
    requires Filled(was, buf, disks, dev, lba, n) && n + run <= |was| && run > 0
    requires InRange(disks, dev, lba + n, run) && buf' == buf[..n] + disks[dev][lba + n..lba + n + run] + buf[n + run..]
    ensures Filled(was, buf', disks, dev, lba, n + run)
  {
    assert n > 0 ==> disks[dev][lba..lba + n] + disks[dev][lba + n..lba + n + run] == disks[dev][lba..lba + n + run];
    assert buf'[..n + run] == buf[..n] + disks[dev][lba + n..lba + n + run];
    assert buf'[n + run..] == buf[n + run..] == buf[n..][run..] == was[n + run..];
  }

  /** One of the transfers from..to failed. */
  ghost predicate Fault(fails: nat -> bool, from: nat, to: nat) { exists k: nat :: from <= k < to && fails(k) }

  /** The cache and the devices behind it. The k-th transfer of all fails if `fails(k)`,
      and so does one outside the device; a transfer moves everything or nothing. */
  class Cache {
    const fails: nat -> bool
    const slots: array<Slot>
    var clock: nat
    var disks: Disks
    var transfers: nat

    ghost predicate Ready() reads this, slots {
      && slots.Length == ENTRIES && clock < CLOCK_LIMIT
      && (forall i: nat :: i < ENTRIES ==> slots[i].age < CLOCK_LIMIT)
      && Single(slots[..])
    }

    ghost predicate Valid() reads this, slots {
      Ready() && CoherentBut(slots[..], disks, 0, 0, 0)
    }

    constructor (disks: Disks, fails: nat -> bool)
      ensures Valid() && this.disks == disks && fresh(slots) && this.fails == fails
    {
      this.fails := fails;
      slots := new Slot[ENTRIES](i => Slot(0, 0, 0, []));
      clock := 1;
      this.disks := disks;
      transfers := 0;
    }

    method Find(dev: nat, lba: nat) returns (slot: int)
      requires Ready()
      ensures -1 <= slot < ENTRIES
      ensures slot >= 0 ==> Keyed(slots[slot], dev, lba)
      ensures slot < 0 ==> forall i: nat :: i < ENTRIES ==> !Keyed(slots[i], dev, lba)
    {
      for i := 0 to ENTRIES
        invariant forall j: nat :: j < i ==> !Keyed(slots[j], dev, lba)
      {
        if slots[i].age != 0 && slots[i].dev == dev && slots[i].lba == lba {
          return i;
        }
      }
      return -1;
    }

    /** An unused slot if there is one, else the least recently used. */
    method Victim() returns (best: nat)
      requires Ready()
      ensures best < ENTRIES && forall i: nat :: i < ENTRIES ==> slots[best].age <= slots[i].age
    {
      best := 0;
      var age := CLOCK_LIMIT - 1;
      for i := 0 to ENTRIES
        invariant best < ENTRIES && forall j: nat :: j < i ==> age <= slots[j].age
        invariant age == slots[best].age || (age == CLOCK_LIMIT - 1 && best == 0)
      {
        if slots[i].age == 0 {
          return i;
        }
        if slots[i].age < age {
          age, best := slots[i].age, i;
        }
      }
    }

    /** The next stamp; after 2^32 - 1 comes 0, which leaves the slot unused. */
    method Stamp(slot: nat)
      requires Ready() && slot < ENTRIES && Live(slots[slot])
      modifies this`clock, slots
      ensures Ready() && clock == (old(clock) + 1) % CLOCK_LIMIT
      ensures slots[..] == old(slots[..])[slot := old(slots[slot]).(age := clock)]
    {
      clock := (clock + 1) % CLOCK_LIMIT;
      SinglePut(slots[..], slot, slots[slot].(age := clock));
      slots[slot] := slots[slot].(age := clock);
      assert slots[..] == old(slots[..])[slot := old(slots[slot]).(age := clock)];
    }

    /** Sector `lba` of `dev` is cached in its own slot, in an unused one or in place of the
        least recently used; no other slot changes. */
    method Put(dev: nat, lba: nat, data: Sector) returns (slot: nat)
      requires Ready()
      modifies this`clock, slots
      ensures Ready() && slot < ENTRIES && clock == (old(clock) + 1) % CLOCK_LIMIT
      ensures slots[..] == old(slots[..])[slot := Slot(dev, lba, clock, data)]
      ensures forall i: nat :: i < ENTRIES && i != slot ==> !Keyed(slots[i], dev, lba)
      ensures Keyed(old(slots[slot]), dev, lba) || forall i: nat :: i < ENTRIES ==>
                old(slots[slot]).age <= old(slots[i]).age
    {
      var s := Find(dev, lba);
      if s < 0 {
        slot := Victim();
      } else {
        slot := s;
      }
      clock := (clock + 1) % CLOCK_LIMIT;
      SinglePut(slots[..], slot, Slot(dev, lba, clock, data));
      slots[slot] := Slot(dev, lba, clock, data);
      assert slots[..] == old(slots[..])[slot := Slot(dev, lba, clock, data)];
    }

    // ----- the devices ----------------------------------------------------------------------------------------

    /** Whether the next transfer goes through. */
    predicate Works(dev: nat, lba: nat, count: nat) reads this {
      !fails(transfers) && InRange(disks, dev, lba, count)
    }

    method RawRead(dev: nat, lba: nat, buf: array<Sector>, at: nat, count: nat) returns (r: int)
      requires at + count <= buf.Length && buf as object != slots
      modifies this`transfers, buf
      ensures transfers == old(transfers) + 1 && r == (if old(Works(dev, lba, count)) then 0 else -1)
      ensures r == 0 ==> InRange(disks, dev, lba, count)
      ensures buf[..] == if r == 0 then old(buf[..at]) + disks[dev][lba..lba + count] + old(buf[at + count..])
              else old(buf[..])
    {
      var ok := Works(dev, lba, count);
      transfers := transfers + 1;
      if !ok {
        return -1;
      }
      forall i | at <= i < at + count { buf[i] := disks[dev][lba + i - at]; }
      return 0;
    }

    method RawWrite(dev: nat, lba: nat, data: seq<Sector>) returns (r: int)
      modifies this`transfers, this`disks
      ensures transfers == old(transfers) + 1 && r == (if old(Works(dev, lba, |data|)) then 0 else -1)
      ensures r == 0 ==> InRange(old(disks), dev, lba, |data|)
      ensures disks == if r == 0 then Overlaid(old(disks), dev, lba, data) else old(disks)
    {
      var ok := Works(dev, lba, |data|);
      transfers := transfers + 1;
      if !ok {
        return -1;
      }
      disks := Overlaid(disks, dev, lba, data);
      return 0;
    }

    /** A sector just moved is put in the cache. */
    method Refresh(dev: nat, lba: nat, to: nat, data: Sector)
      requires Ready() && CoherentBut(slots[..], disks, dev, lba, to) && lba < to && OnDisk(disks, dev, lba, data)
      modifies this`clock, slots
      ensures Ready() && CoherentBut(slots[..], disks, dev, lba + 1, to)
    {
      var slot := Put(dev, lba, data);
      assert forall i: nat :: i < ENTRIES ==> slots[..][i] == slots[i];
    }

    // ----- block_read and block_write -------------------------------------------------------------------------

    ghost predicate Cached(dev: nat, lba: nat)
      reads slots
    { exists i: nat :: i < slots.Length && Keyed(slots[i], dev, lba) }

    /** The longest run of sectors from `lba` on that are not cached, up to `most`. */
    method MissRun(dev: nat, lba: nat, most: nat) returns (run: nat)
      requires Ready() && most > 0 && !Cached(dev, lba)
      ensures 0 < run <= most && forall l: nat :: lba <= l < lba + run ==> !Cached(dev, l)
      ensures run < most ==> Cached(dev, lba + run)
    {
      run := 1;
      while run < most
        invariant 0 < run <= most && forall l: nat :: lba <= l < lba + run ==> !Cached(dev, l)
      {
        var slot := Find(dev, lba + run);
        if slot >= 0 {
          return;
        }
        run := run + 1;
      }
    }

    /** The sectors `buf[at..at + count]`, just read from `lba`, are cached. */
    method Keep(dev: nat, lba: nat, buf: array<Sector>, at: nat, count: nat)
      requires Valid() && at + count <= buf.Length && InRange(disks, dev, lba, count)
      requires buf[at..at + count] == disks[dev][lba..lba + count]
      modifies this`clock, slots
      ensures Valid()
    {
      for k := 0 to count
        invariant Valid()
      {
        assert buf[at + k] == buf[at..at + count][k] == disks[dev][lba + k];
        Refresh(dev, lba + k, lba + k + 1, buf[at + k]);
      }
    }

    /** One transfer for the run of misses at `lba`. */
    method Miss(dev: nat, lba: nat, buf: array<Sector>, at: nat, count: nat) returns (r: int, run: nat)
      requires Valid() && at < count <= buf.Length && buf as object != slots && !Cached(dev, lba)
      modifies this`clock, this`transfers, slots, buf
      ensures Valid() && 0 < run <= count - at && transfers == old(transfers) + 1
      ensures r == if old(Works(dev, lba, run)) then 0 else -1
      ensures r == 0 ==> InRange(disks, dev, lba, run)
      ensures buf[..] == if r == 0 then old(buf[..at]) + disks[dev][lba..lba + run] + old(buf[at + run..])
              else old(buf[..])
    {
      run := MissRun(dev, lba, count - at);
      r := RawRead(dev, lba, buf, at, run);
      if r == 0 {
        assert buf[at..at + run] == buf[..][at..at + run] == disks[dev][lba..lba + run];
        Keep(dev, lba, buf, at, run);
      }
    }

    /** A device of -1 is none, or not a block device. The buffer gets what the device holds. */
    method Read(dev: int, lba: nat, buf: array<Sector>, count: nat) returns (r: int)
      requires Valid() && count <= buf.Length && buf as object != slots
      modifies this`clock, this`transfers, slots, buf
      ensures Valid() && (r == 0 || r == -1)
      ensures r == 0 ==> dev >= 0 && (count > 0 ==> InRange(disks, dev, lba, count))
      ensures r == 0 && count > 0 ==> buf[..count] == disks[dev][lba..lba + count]
      ensures buf[count..] == old(buf[count..])
      ensures transfers >= old(transfers)
      ensures r == -1 && dev >= 0 && (count > 0 ==> InRange(disks, dev, lba, count)) ==>
                Fault(fails, old(transfers), transfers)
    {
      if dev < 0 {
        return -1;
      }
      var i := 0;
      ghost var buf0 := buf[..];
      while i < count
        invariant i <= count && Valid() && transfers >= old(transfers)
        invariant Filled(buf0, buf[..], disks, dev, lba, i)
      {
        var run;
        ghost var buf1, before := buf[..], transfers;
        r, run := Fetch(dev, lba + i, buf, i, count);
        if r < 0 {
          assert buf[..][count..] == buf0[count..];
          LaterFault(fails, old(transfers), before, transfers);
          return;
        }
        FilledMore(buf0, buf1, buf[..], disks, dev, lba, i, run);
        i := i + run;
      }
      r := 0;
      assert buf[..][..count] == buf[..count] && buf[..][count..] == buf[count..];
    }

    /** A sector from the cache or a run of misses from the device. */
    method Fetch(dev: nat, lba: nat, buf: array<Sector>, at: nat, count: nat) returns (r: int, run: nat)
      requires Valid() && at < count <= buf.Length && buf as object != slots
      modifies this`clock, this`transfers, slots, buf
      ensures Valid() && 0 < run <= count - at && transfers >= old(transfers)
      ensures r == 0 || (r == -1 && (Fault(fails, old(transfers), transfers) || !InRange(disks, dev, lba, run)))
      ensures r == 0 ==> InRange(disks, dev, lba, run)
      ensures buf[..] == if r == 0 then old(buf[..at]) + disks[dev][lba..lba + run] + old(buf[at + run..])
              else old(buf[..])
    {
      var slot := Find(dev, lba);
      if slot >= 0 {
        assert slots[..][slot] == slots[slot];
        buf[at] := slots[slot].data;
        Hit(slot);
        r, run := 0, 1;
      } else {
        r, run := Miss(dev, lba, buf, at, count);
      }
    }

    method Hit(slot: nat)
      requires Valid() && slot < ENTRIES && Live(slots[slot])
      modifies this`clock, slots
      ensures Valid()
    {
      assert slots[..][slot] == slots[slot];
      Stamp(slot);
    }

    /** The device first, then the cache. */
    method Write(dev: int, lba: nat, data: seq<Sector>) returns (r: int)
      requires Valid()
      modifies this, slots
      ensures Valid() && (r == 0 || r == -1)
      ensures r == 0 <==> dev >= 0 && old(Works(dev, lba, |data|))
      ensures transfers >= old(transfers)
      ensures r == -1 && dev >= 0 && InRange(old(disks), dev, lba, |data|) ==> Fault(fails, old(transfers), transfers)
      ensures disks == if r == 0 then Overlaid(old(disks), dev, lba, data) else old(disks)
    {
      if dev < 0 {
        return -1;
      }
      r := RawWrite(dev, lba, data);
      if r < 0 {
        return;
      }
      StaleAtMost(slots[..], old(disks), dev, lba, data);
      for k := 0 to |data|
        invariant Ready() && CoherentBut(slots[..], disks, dev, lba + k, lba + |data|)
        invariant disks == Overlaid(old(disks), dev, lba, data) && transfers == old(transfers) + 1
      {
        OverlaidAt(old(disks), dev, lba, data, dev, lba + k);
        Refresh(dev, lba + k, lba + |data|, data[k]);
      }
    }
  }

  /** Only the sectors written can be stale. */
  lemma StaleAtMost(slots: seq<Slot>, disks: Disks, dev: nat, lba: nat, data: seq<Sector>)
    requires CoherentBut(slots, disks, 0, 0, 0) && InRange(disks, dev, lba, |data|)
    ensures CoherentBut(slots, Overlaid(disks, dev, lba, data), dev, lba, lba + |data|)
  {
    forall i: nat | i < |slots| && Live(slots[i]) && !(slots[i].dev == dev && lba <= slots[i].lba < lba + |data|)
      ensures OnDisk(Overlaid(disks, dev, lba, data), slots[i].dev, slots[i].lba, slots[i].data)
    {
      OverlaidAt(disks, dev, lba, data, slots[i].dev, slots[i].lba);
    }
  }

  // ----- any sequence of requests -------------------------------------------------------------------------------

  datatype Request = ReadReq(dev: int, lba: nat, count: nat) | WriteReq(dev: int, lba: nat, data: seq<Sector>)

  datatype Reply = Data(sectors: seq<Sector>) | Done | Failed

  /** What a device with no cache in front might answer. */
  ghost predicate Honest(disks: Disks, q: Request, a: Reply) {
    match q
    case ReadReq(dev, lba, count) =>
      a == Failed || (a.Data? && dev >= 0 && |a.sectors| == count
                      && (count > 0 ==> InRange(disks, dev, lba, count) && a.sectors == disks[dev][lba..lba + count]))
    case WriteReq(dev, lba, data) => a == Failed || (a == Done && dev >= 0 && InRange(disks, dev, lba, |data|))
  }

  /** A request that only a fault of the device can make fail. */
  ghost predicate Feasible(disks: Disks, q: Request) {
    match q
    case ReadReq(dev, lba, count) => dev >= 0 && (count > 0 ==> InRange(disks, dev, lba, count))
    case WriteReq(dev, lba, data) => dev >= 0 && InRange(disks, dev, lba, |data|)
  }

  /** Its contents after the answer. */
  ghost function Then(disks: Disks, q: Request, a: Reply): Disks {
    if q.WriteReq? && a == Done && q.dev >= 0
      && InRange(disks, q.dev, q.lba, |q.data|) then Overlaid(disks, q.dev, q.lba, q.data)
    else disks
  }

  ghost function DisksAfter(disks: Disks, qs: seq<Request>, answers: seq<Reply>): Disks
    requires |qs| == |answers|
  {
    if qs == [] then disks
    else Then(DisksAfter(disks, qs[..|qs| - 1], answers[..|qs| - 1]), qs[|qs| - 1], answers[|qs| - 1])
  }

  /** Every answer to every sequence of requests is one the bare devices might have given. */
  method Serve(cache: Cache, qs: seq<Request>) returns (answers: seq<Reply>)
    requires cache.Valid()
    modifies cache, cache.slots
    ensures cache.Valid() && |answers| == |qs| && cache.disks == DisksAfter(old(cache.disks), qs, answers)
    ensures forall i: nat :: i < |qs| ==> Honest(DisksAfter(old(cache.disks), qs[..i], answers[..i]), qs[i], answers[i])
    ensures cache.transfers >= old(cache.transfers)
    ensures !Fault(cache.fails, old(cache.transfers), cache.transfers) ==>
      forall i: nat :: i < |qs| ==>
          (answers[i] != Failed <==> Feasible(DisksAfter(old(cache.disks), qs[..i], answers[..i]), qs[i]))
  {
    answers := [];
    for n := 0 to |qs|
      invariant cache.Valid() && |answers| == n && cache.disks == DisksAfter(old(cache.disks), qs[..n], answers)
      invariant forall i: nat :: i < n ==>
                  Honest(DisksAfter(old(cache.disks), qs[..i], answers[..i]), qs[i], answers[i])
      invariant cache.transfers >= old(cache.transfers)
      invariant !Fault(cache.fails, old(cache.transfers), cache.transfers) ==>
        forall i: nat :: i < n ==>
            (answers[i] != Failed <==> Feasible(DisksAfter(old(cache.disks), qs[..i], answers[..i]), qs[i]))
    {
      ghost var answers0, moved := answers, cache.transfers;
      var a := Answer(cache, qs[n]);
      LaterFault(cache.fails, old(cache.transfers), moved, cache.transfers);
      answers := answers + [a];
      assert answers[..n] == answers0 && qs[..n + 1][..n] == qs[..n] && qs[..n + 1][n] == qs[n];
      assert forall i: nat :: i < n ==> answers[..i] == answers0[..i];
    }
    assert qs[..|qs|] == qs;
  }

  /** A fault stays in view as the window grows at either end. */
  lemma LaterFault(fails: nat -> bool, from: nat, mid: nat, to: nat)
    requires from <= mid <= to
    ensures Fault(fails, from, to) <==> Fault(fails, from, mid) || Fault(fails, mid, to)
  { }

  method Answer(cache: Cache, q: Request) returns (a: Reply)
    requires cache.Valid()
    modifies cache, cache.slots
    ensures cache.Valid() && Honest(old(cache.disks), q, a) && cache.disks == Then(old(cache.disks), q, a)
    ensures cache.transfers >= old(cache.transfers) && (a != Failed ==> Feasible(old(cache.disks), q))
    ensures a == Failed && Feasible(old(cache.disks), q) ==> Fault(cache.fails, old(cache.transfers), cache.transfers)
  {
    match q
    case ReadReq(dev, lba, count) =>
      var buf := new Sector[count](i => []);
      var r := cache.Read(dev, lba, buf, count);
      a := if r == 0 then Data(buf[..]) else Failed;
      assert buf[..count] == buf[..];
    case WriteReq(dev, lba, data) =>
      var r := cache.Write(dev, lba, data);
      a := if r == 0 then Done else Failed;
  }
}
