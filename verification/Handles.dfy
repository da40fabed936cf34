/** File descriptors of all processes: tables, shared open files and the pipes behind some of them. */
module Handles {
  import opened RawBytes
  import opened HandleCounts
  import opened Pipes
  import opened Folds
  import opened HandleSpec

  // ----- files and pipes -----------------------------------------------------------------------------------------

  /** Each pipe has one file for its read end and one for its write end. */
  ghost predicate Linked(files: seq<OpenFile>, n: nat, rd: seq<nat>, wr: seq<nat>) {
    && |rd| == |wr| == n
    && (forall p: nat :: p < n ==> rd[p] < |files| && files[rd[p]].kind == ReadEnd(p))
    && (forall p: nat :: p < n ==> wr[p] < |files| && files[wr[p]].kind == WriteEnd(p))
    && (forall f: nat :: f < |files| && files[f].kind.ReadEnd? ==> files[f].kind.p < n && rd[files[f].kind.p] == f)
    && (forall f: nat :: f < |files| && files[f].kind.WriteEnd? ==> files[f].kind.p < n && wr[files[f].kind.p] == f)
  }

  /** The pipe's own counts say which ends are open; it is freed with the last. */
  ghost predicate PipeOk(pipe: Pipe, read: bool, write: bool)
    reads pipe, pipe.buf
  {
    pipe.Valid() && pipe.readers == One(read) && pipe.writers == One(write) && pipe.freed == (!read && !write)
  }

  ghost predicate Apart(pipes: seq<Pipe>) {
    forall p: nat, q: nat :: p < q < |pipes| ==> pipes[p] != pipes[q] && pipes[p].buf != pipes[q].buf
  }

  ghost function Bufs(pipes: seq<Pipe>): set<array<Byte>> { set p | 0 <= p < |pipes| :: pipes[p].buf }

  ghost predicate PipesOk(files: seq<OpenFile>, pipes: seq<Pipe>, rd: seq<nat>, wr: seq<nat>)
    reads pipes, Bufs(pipes)
  {
    && Linked(files, |pipes|, rd, wr) && Apart(pipes)
    && forall p: nat :: p < |pipes| ==> PipeAt(files, pipes[p], rd[p], wr[p])
  }

  ghost predicate PipeAt(files: seq<OpenFile>, pipe: Pipe, r: nat, w: nat)
    reads pipe, pipe.buf
    requires r < |files| && w < |files|
  { PipeOk(pipe, !files[r].freed, !files[w].freed) }

  /** Pipes stay linked while files keep their kinds. */
  lemma KindsLinked(a: seq<OpenFile>, b: seq<OpenFile>, n: nat, rd: seq<nat>, wr: seq<nat>)
    requires Linked(a, n, rd, wr) && |a| == |b| && forall f: nat :: f < |a| ==> a[f].kind == b[f].kind
    ensures Linked(b, n, rd, wr)
  { }

  /** File `f` closed and freed. */
  function Closed(files: seq<OpenFile>, f: nat): seq<OpenFile>
    requires f < |files|
  { files[f := files[f].(closes := files[f].closes + 1, freed := true)] }

  /** All pipes but `p` are in order. */
  ghost predicate PipesBut(files: seq<OpenFile>, pipes: seq<Pipe>, rd: seq<nat>, wr: seq<nat>, p: nat)
    reads pipes, Bufs(pipes)
  {
    && Linked(files, |pipes|, rd, wr) && Apart(pipes)
    && forall q: nat :: q < |pipes| && q != p ==> PipeAt(files, pipes[q], rd[q], wr[q])
  }

  lemma EndClosed(files: seq<OpenFile>, pipes: seq<Pipe>, rd: seq<nat>, wr: seq<nat>, f: nat, p: nat)
    requires p < |pipes| && PipesBut(files, pipes, rd, wr, p) && f < |files| && !files[f].freed
    requires || (files[f].kind == ReadEnd(p) && PipeOk(pipes[p], false, !files[wr[p]].freed))
             || (files[f].kind == WriteEnd(p) && PipeOk(pipes[p], !files[rd[p]].freed, false))
    ensures PipesOk(Closed(files, f), pipes, rd, wr)
  {
    KindsLinked(files, Closed(files, f), |pipes|, rd, wr);
    forall q: nat | q < |pipes| ensures PipeAt(Closed(files, f), pipes[q], rd[q], wr[q]) {
      assert q != p ==> PipeAt(files, pipes[q], rd[q], wr[q]);
    }
  }

  lemma PlainClosed(files: seq<OpenFile>, pipes: seq<Pipe>, rd: seq<nat>, wr: seq<nat>, f: nat)
    requires PipesOk(files, pipes, rd, wr) && f < |files| && files[f].kind == Plain
    ensures PipesOk(Closed(files, f), pipes, rd, wr)
  {
    KindsLinked(files, Closed(files, f), |pipes|, rd, wr);
    forall q: nat | q < |pipes| ensures PipeAt(Closed(files, f), pipes[q], rd[q], wr[q]) {
      assert PipeAt(files, pipes[q], rd[q], wr[q]);
    }
  }

  /** What went into and came out of every pipe. */
  ghost function StreamsOf(pipes: seq<Pipe>): (r: seq<(seq<Byte>, seq<Byte>)>)
    reads pipes
    ensures |r| == |pipes| && forall p: nat :: p < |pipes| ==> r[p] == (pipes[p].written, pipes[p].got)
  { seq(|pipes|, p requires 0 <= p < |pipes| reads pipes => (pipes[p].written, pipes[p].got)) }

  lemma MoreStreams(pipes: seq<Pipe>, pipe: Pipe)
    ensures StreamsOf(pipes + [pipe]) == StreamsOf(pipes) + [(pipe.written, pipe.got)]
  { }

  /** A file is open while some slot holds it. */
  lemma OpenIff(files: seq<OpenFile>, tables: seq<Table>, f: nat)
    requires Counted(files, tables, {}) && f < |files|
    ensures !files[f].freed <==> Count(tables, f) > 0
  {
    assert FileCounted(files[f], Count(tables, f), f in {});
  }

  class Handles {
    var files: seq<OpenFile>
    var tables: seq<Table>
    var pipes: seq<Pipe>
    ghost var rd: seq<nat>       // the files of the pipes' ends
    ghost var wr: seq<nat>

    constructor ()
      ensures Valid({}) && files == [] && tables == [] && pipes == []
    { files, tables, pipes, rd, wr := [], [], [], [], []; }

    ghost predicate PipesValid()
      reads this, pipes, Bufs(pipes)
    { PipesOk(files, pipes, rd, wr) }

    ghost predicate Valid(due: set<nat>)
      reads this, pipes, Bufs(pipes)
    { Counted(files, tables, due) && PipesValid() }

    ghost function Streams(): seq<(seq<Byte>, seq<Byte>)>
      reads this, pipes
    { StreamsOf(pipes) }

    predicate Live(t: nat)
      reads this
    { t < |tables| && !tables[t].freed }

    /** The close hook of a file. */
    method RunHook(f: nat)
      requires PipesValid() && f < |files| && !files[f].freed
      modifies pipes
      ensures PipesOk(Closed(files, f), pipes, rd, wr) && Streams() == old(Streams())
    {
      match files[f].kind {
        case ReadEnd(p) => CloseReadEnd(f, p);
        case WriteEnd(p) => CloseWriteEnd(f, p);
        case Plain => PlainClosed(files, pipes, rd, wr, f);
      }
    }

    method CloseReadEnd(f: nat, p: nat)
      requires PipesValid() && f < |files| && !files[f].freed && files[f].kind == ReadEnd(p)
      modifies pipes
      ensures PipesOk(Closed(files, f), pipes, rd, wr) && Streams() == old(Streams())
    {
      assert PipeAt(files, pipes[p], f, wr[p]);
      pipes[p].CloseRead();
      assert PipesBut(files, pipes, rd, wr, p);
      EndClosed(files, pipes, rd, wr, f, p);
    }

    method CloseWriteEnd(f: nat, p: nat)
      requires PipesValid() && f < |files| && !files[f].freed && files[f].kind == WriteEnd(p)
      modifies pipes
      ensures PipesOk(Closed(files, f), pipes, rd, wr) && Streams() == old(Streams())
    {
      assert PipeAt(files, pipes[p], rd[p], f);
      pipes[p].CloseWrite();
      assert PipesBut(files, pipes, rd, wr, p);
      EndClosed(files, pipes, rd, wr, f, p);
    }

    /** Dropping a reference; the last one runs the close hook and frees the file. */
    method VfsClose(f: nat)
      requires PipesValid() && f < |files| && !files[f].freed
      modifies this`files, pipes
      ensures files == Dropped(old(files), f) && PipesValid()
      ensures Streams() == old(Streams())
    {
      if files[f].refs > 1 {
        files := files[f := files[f].(refs := files[f].refs - 1)];
        KindsLinked(old(files), files, |pipes|, rd, wr);
      } else {
        RunHook(f);
        files := Closed(files, f);
      }
    }

    /** The lowest empty slot from `min` on, or -1. */
    method FindSlot(t: nat, min: nat) returns (i: int)
      requires t < |tables| && |tables[t].slots| == FD_MAX
      ensures i == LowestFree(tables[t].slots, min)
    {
      i := min;
      while i < FD_MAX
        invariant min <= i && LowestFree(tables[t].slots, min) == LowestFree(tables[t].slots, i)
      {
        if tables[t].slots[i] == NONE {
          return;
        }
        i := i + 1;
      }
      i := -1;
    }

    /** Close descriptor `fd`, if there is one. */
    method Close(t: nat, fd: int, ghost due: set<nat>)
      requires Valid(due) && t < |tables|
      modifies this`files, this`tables, pipes
      ensures Valid(due) && Streams() == old(Streams()) && KindsOf(files) == KindsOf(old(files))
      ensures tables == if 0 <= fd < FD_MAX
              && old(tables)[t].slots[fd] != NONE then Put(old(tables), t, fd, NONE) else old(tables)
    {
      assert TableOk(tables[t], |files|);
      if fd < 0 || fd >= FD_MAX {
        return;
      }
      var f := tables[t].slots[fd];
      if f != NONE {
        CloseCounted(files, tables, due, t, fd, f);
        HeldOpen(files, tables, due, t, fd);
        VfsClose(f);
        tables := Put(tables, t, fd, NONE);
      }
    }

    /** Another descriptor, at least `min`, for the file behind `fd`: the lowest free one. */
    method DupFrom(t: nat, fd: int, min: nat) returns (r: int)
      requires Valid({}) && t < |tables|
      modifies this`files, this`tables
      ensures Valid({}) && Streams() == old(Streams()) && KindsOf(files) == KindsOf(old(files))
      ensures var slots := old(tables)[t].slots;
              && r == (if Held(slots, fd) == NONE then -1 else LowestFree(slots, min))
              && tables == if r == -1 then old(tables) else Put(old(tables), t, r, slots[fd])
    {
      r := -1;
      assert TableOk(tables[t], |files|);
      if fd < 0 || fd >= FD_MAX || tables[t].slots[fd] == NONE {
        return;
      }
      r := FindSlot(t, min);
      if r != -1 {
        HeldOpen(files, tables, {}, t, fd);
        Share(t, fd, t, r);
      }
    }

    /** Slot `to` of table `u`, empty, shares the file of slot `fd` of table `t`. */
    method Share(t: nat, fd: nat, u: nat, to: nat)
      requires Valid({}) && t < |tables| && fd < |tables[t].slots| && tables[t].slots[fd] != NONE
      requires Live(u) && to < |tables[u].slots| && tables[u].slots[to] == NONE
      modifies this`files, this`tables
      ensures Valid({}) && Streams() == old(Streams()) && KindsOf(files) == KindsOf(old(files))
      ensures tables == Put(old(tables), u, to, old(tables)[t].slots[fd])
    {
      HeldOpen(files, tables, {}, t, fd);
      var f := tables[t].slots[fd];
      AddCounted(files, tables, {}, u, to, f);
      tables := Put(tables, u, to, f);
      files := Bumped(files, f);
      KindsLinked(old(files), files, |pipes|, rd, wr);
      assert forall p: nat :: p < |pipes| ==> old(PipeAt(files, pipes[p], rd[p], wr[p]));
    }

    /** Make `to` another descriptor for the file behind `fd`, closing what it was. */
    method Dup2(t: nat, fd: int, to: int) returns (r: int)
      requires Valid({}) && t < |tables|
      modifies this`files, this`tables, pipes
      ensures Valid({}) && Streams() == old(Streams()) && KindsOf(files) == KindsOf(old(files))
      ensures r == if 0 <= fd < FD_MAX && 0 <= to < FD_MAX && old(tables)[t].slots[fd] != NONE then to else -1
      ensures tables == if r == -1 then old(tables) else Put(old(tables), t, to, old(tables)[t].slots[fd])
    {
      assert TableOk(tables[t], |files|);
      if fd < 0 || fd >= FD_MAX || tables[t].slots[fd] == NONE || to < 0 || to >= FD_MAX {
        return -1;
      }
      r := to;
      if fd == to {
        assert tables[t].slots[to := tables[t].slots[fd]] == tables[t].slots;
        return;
      }
      HeldOpen(files, tables, {}, t, fd);
      Close(t, to, {});
      assert TableOk(tables[t], |files|);
      Share(t, fd, t, to);
      assert tables[t].slots == old(tables)[t].slots[to := old(tables)[t].slots[fd]];
    }

    // ----- new files ---------------------------------------------------------------------------------------------

    /** A new file on its way to table `t` takes the lowest empty slot, if there is one. */
    method Install(t: nat, f: nat, ghost due: set<nat>) returns (r: int)
      requires Valid(due) && f in due && Live(t)
      modifies this`tables
      ensures Valid(if r == -1 then due else due - {f}) && Streams() == old(Streams())
      ensures r == LowestFree(old(tables)[t].slots, 0)
      ensures tables == if r == -1 then old(tables) else Put(old(tables), t, r, f)
    {
      assert TableOk(tables[t], |files|);
      r := FindSlot(t, 0);
      if r != -1 {
        InstallCounted(files, tables, due, t, r, f);
        tables := Put(tables, t, r, f);
      }
    }

    /** A new file that has no slot goes. */
    method Discard(f: nat, ghost due: set<nat>)
      requires Valid(due) && f in due
      modifies this`files, pipes
      ensures Valid(due - {f}) && Streams() == old(Streams()) && KindsOf(files) == KindsOf(old(files))
    {
      DropCounted(files, tables, due, f);
      VfsClose(f);
    }

    /** Open a file that is not a pipe. */
    method Open(t: nat) returns (r: int)
      requires Valid({}) && Live(t)
      modifies this`files, this`tables, pipes
      ensures Valid({}) && Streams() == old(Streams()) && KindsOf(files) == KindsOf(old(files)) + [Plain]
      ensures r == LowestFree(old(tables)[t].slots, 0)
      ensures tables == if r == -1 then old(tables) else Put(old(tables), t, r, |old(files)|)
      ensures r != -1 ==> files == old(files) + [OpenFile(Plain, 1, 0, false)]
    {
      var f := NewFile();
      assert {f} - {f} == {} && KindsOf(files) == KindsOf(old(files)) + [Plain];
      r := Install(t, f, {f});
      if r == -1 {
        Discard(f, {f});
      }
    }

    /** A file just opened, not yet in a table. */
    method NewFile() returns (f: nat)
      requires Valid({})
      modifies this`files
      ensures Valid({f}) && Streams() == old(Streams()) && f == |old(files)|
      ensures files == old(files) + [OpenFile(Plain, 1, 0, false)]
    {
      f := |files|;
      OpenCounted(files, tables, {}, Plain);
      assert {} + {f} == {f};
      files := files + [OpenFile(Plain, 1, 0, false)];
      PlainLinked(old(files), |pipes|, rd, wr);
      forall p: nat | p < |pipes| ensures PipeAt(files, pipes[p], rd[p], wr[p]) {
        assert old(PipeAt(files, pipes[p], rd[p], wr[p]));
      }
    }

    /** A pipe gets the files of its two ends, not yet in a table. */
    method AddPipe(pipe: Pipe) returns (r: nat, w: nat)
      requires Valid({}) && PipeOk(pipe, true, true)
      requires forall q: nat :: q < |pipes| ==> pipes[q] != pipe && pipes[q].buf != pipe.buf
      modifies this`files, this`pipes, this`rd, this`wr
      ensures Valid({r, w}) && r == |old(files)| && w == r + 1
      ensures pipes == old(pipes) + [pipe] && files == WithEnds(old(files), |old(pipes)|)
      ensures rd == old(rd) + [r] && wr == old(wr) + [w]
    {
      var p := |pipes|;
      r, w := |files|, |files| + 1;
      EndsCounted(files, tables, p);
      MorePipes(files, pipes, rd, wr, pipe);
      files, pipes, rd, wr := WithEnds(files, p), pipes + [pipe], rd + [r], wr + [w];
    }

    /** Two descriptors for the ends of a new pipe, or neither. */
    method MakePipe(t: nat) returns (a: int, b: int)
      requires Valid({}) && Live(t)
      modifies this, pipes
      ensures Valid({}) && Streams() == old(Streams()) + [([], [])]
      ensures PipeJoined(old(pipes), pipes)
      ensures fresh(pipes[|old(pipes)|]) && fresh(pipes[|old(pipes)|].buf)
      ensures KindsOf(files) == WithEndKinds(KindsOf(old(files)), |old(pipes)|)
      ensures rd == old(rd) + [|old(files)|] && wr == old(wr) + [|old(files)| + 1]
      ensures EndsPlaced(old(tables), tables, t, |old(files)|, |old(files)| + 1, a, b)
      ensures a != -1 ==> files == WithEnds(old(files), |old(pipes)|)
    {
      var r, w := NewPipe();
      a, b := InstallEnds(t, r, w);
    }

    method NewPipe() returns (r: nat, w: nat)
      requires Valid({})
      modifies this`files, this`pipes, this`rd, this`wr
      ensures Valid({r, w}) && r == |old(files)| && w == r + 1
      ensures PipeJoined(old(pipes), pipes)
      ensures fresh(pipes[|old(pipes)|]) && fresh(pipes[|old(pipes)|].buf)
      ensures files == WithEnds(old(files), |old(pipes)|) && Streams() == old(Streams()) + [([], [])]
      ensures KindsOf(files) == WithEndKinds(KindsOf(old(files)), |old(pipes)|)
      ensures rd == old(rd) + [r] && wr == old(wr) + [w]
    {
      var pipe := new Pipe();
      assert Streams() == old(Streams());
      MoreStreams(pipes, pipe);
      EndsKinds(files, |pipes|);
      r, w := AddPipe(pipe);
    }

    /** Close the end that has a slot, then the one that has none. */
    method Undo(t: nat, a: nat, w: nat)
      requires Valid({w}) && t < |tables| && a < |tables[t].slots| && tables[t].slots[a] != NONE
      modifies this`files, this`tables, pipes
      ensures Valid({}) && Streams() == old(Streams()) && tables == Put(old(tables), t, a, NONE)
              && KindsOf(files) == KindsOf(old(files))
    {
      assert TableOk(tables[t], |files|);
      Close(t, a, {w});
      assert {w} - {w} == {};
      Discard(w, {w});
    }

    /** Close both ends, of which neither has a slot. */
    method DiscardEnds(r: nat, w: nat)
      requires Valid({r, w}) && r != w
      modifies this`files, pipes
      ensures Valid({}) && Streams() == old(Streams()) && KindsOf(files) == KindsOf(old(files))
    {
      assert {r, w} - {r} == {w} && {w} - {w} == {};
      Discard(r, {r, w});
      Discard(w, {w});
    }

    /** Both ends get the lowest empty slots, or both are closed. */
    method InstallEnds(t: nat, r: nat, w: nat) returns (a: int, b: int)
      requires Valid({r, w}) && r != w && Live(t)
      modifies this`files, this`tables, pipes
      ensures Valid({}) && Streams() == old(Streams()) && KindsOf(files) == KindsOf(old(files))
      ensures EndsPlaced(old(tables), tables, t, r, w, a, b) && (a != -1 ==> files == old(files))
    {
      assert {r, w} - {r} == {w};
      assert {w} - {w} == {};
      a := Install(t, r, {r, w});
      if a == -1 {
        b := Install(t, w, {r, w});
        DiscardEnds(r, w);
        return;
      }
      assert tables[t].slots == old(tables)[t].slots[a := r];
      b := Install(t, w, {w});
      if b == -1 {
        PutBack(old(tables), t, a, r);
        Undo(t, a, w);
        a := -1;
      }
    }

    // ----- tables ------------------------------------------------------------------------------------------------

    /** A table for a new process, empty. */
    method NewTable() returns (t: nat)
      requires Valid({})
      modifies this`tables
      ensures Valid({}) && Streams() == old(Streams()) && t == |old(tables)|
      ensures tables == old(tables) + [Table(1, Empty(), false)]
    {
      t := |tables|;
      TableCounted(files, tables, {}, Table(1, Empty(), false));
      tables := tables + [Table(1, Empty(), false)];
    }

    /** The sharing of a table changes. */
    method SetTable(t: nat, table: Table)
      requires Valid({}) && t < |tables| && table.slots == tables[t].slots && TableOk(table, |files|)
      modifies this`tables
      ensures Valid({}) && Streams() == old(Streams()) && tables == old(tables)[t := table]
    {
      ShareCounted(files, tables, {}, t, table);
      tables := tables[t := table];
    }

    /** A thread that shares the table. */
    method ShareTable(t: nat)
      requires Valid({}) && Live(t)
      modifies this`tables
      ensures Valid({}) && Streams() == old(Streams())
      ensures tables == old(tables)[t := old(tables)[t].(refs := old(tables)[t].refs + 1)]
    {
      assert TableOk(tables[t], |files|);
      SetTable(t, tables[t].(refs := tables[t].refs + 1));
    }

    /** A copy of a table for a forked process: the same open files, each held once more per slot. */
    method CloneTable(t: nat) returns (u: nat)
      requires Valid({}) && t < |tables|
      modifies this`files, this`tables
      ensures Valid({}) && Streams() == old(Streams()) && KindsOf(files) == KindsOf(old(files)) && u == |old(tables)|
      ensures tables == old(tables) + [Table(1, old(tables)[t].slots, false)]
    {
      assert TableOk(tables[t], |files|);
      u := NewTable();
      ghost var slots := tables[t].slots;
      assert Cleared(slots, 0, FD_MAX) == Empty();
      var i := 0;
      while i < FD_MAX
        invariant i <= FD_MAX && Valid({}) && Streams() == old(Streams()) && |slots| == FD_MAX
                  && KindsOf(files) == KindsOf(old(files))
        invariant tables == old(tables) + [Table(1, Cleared(slots, i, FD_MAX), false)]
      {
        assert TableOk(tables[t], |files|) && tables[t].slots == slots;
        ClearedLess(slots, i, FD_MAX);
        if tables[t].slots[i] != NONE {
          Share(t, i, u, i);
        }
        i := i + 1;
      }
      assert Cleared(slots, FD_MAX, FD_MAX) == slots;
    }

    /** The next descriptor closed. */
    method CloseNext(t: nat, from: nat, i: nat, ghost tables0: seq<Table>, ghost kinds: seq<Kind>,
                     ghost streams: seq<Stream>)
      requires t < |tables0| && from <= i < FD_MAX && Closing(t, from, i, tables0, kinds, streams)
      modifies this`files, this`tables, pipes
      ensures Closing(t, from, i + 1, tables0, kinds, streams)
    {
      assert TableOk(tables[t], |files|);
      ClearedMore(tables0[t].slots, from, i);
      Close(t, i, {});
    }

    ghost predicate Closing(t: nat, from: nat, i: nat, tables0: seq<Table>, kinds: seq<Kind>, streams: seq<Stream>)
      reads this, pipes, Bufs(pipes)
      requires t < |tables0|
    {
      && Valid({}) && Streams() == streams && KindsOf(files) == kinds
      && tables == tables0[t := tables0[t].(slots := Cleared(tables0[t].slots, from, i))]
    }

    /** Close every descriptor from `from` on. */
    method CloseFrom(t: nat, from: nat)
      requires Valid({}) && t < |tables| && from <= FD_MAX
      modifies this`files, this`tables, pipes
      ensures Valid({}) && Streams() == old(Streams()) && KindsOf(files) == KindsOf(old(files))
      ensures tables == old(tables)[t := old(tables)[t].(slots := Cleared(old(tables)[t].slots, from, FD_MAX))]
    {
      assert TableOk(tables[t], |files|);
      ghost var tables0, kinds, streams := tables, KindsOf(files), Streams();
      var i := from;
      assert Cleared(tables[t].slots, from, from) == tables[t].slots;
      while i < FD_MAX
        invariant from <= i <= FD_MAX && Closing(t, from, i, tables0, kinds, streams)
      {
        CloseNext(t, from, i, tables0, kinds, streams);
        i := i + 1;
      }
    }

    /** A thread gives up its table; the last one closes all that is in it. */
    method FreeTable(t: nat)
      requires Valid({}) && Live(t)
      modifies this`files, this`tables, pipes
      ensures Valid({}) && Streams() == old(Streams()) && KindsOf(files) == KindsOf(old(files))
      ensures var table := old(tables)[t];
              tables == old(tables)[t := if table.refs > 1 then table.(refs := table.refs - 1)
                                    else Table(0, Empty(), true)]
    {
      assert TableOk(tables[t], |files|);
      if tables[t].refs > 1 {
        SetTable(t, tables[t].(refs := tables[t].refs - 1));
        return;
      }
      CloseFrom(t, 0);
      assert tables[t].slots == Empty();
      SetTable(t, Table(0, Empty(), true));
    }

    // ----- reading and writing pipes -----------------------------------------------------------------------------

    /** One turn of a reader of pipe `p`. */
    method PipeRead(p: nat, n: nat) returns (r: seq<Byte>, out: Outcome)
      requires PipesValid() && p < |pipes|
      modifies pipes
      ensures PipesValid() && Streams() == old(Streams())[p := TakenOut(old(Streams())[p], r)]
      ensures r == First(Left(old(Streams())[p]), n)
      ensures out == if Left(old(Streams())[p]) == [] && !files[wr[p]].freed then Yield else Done
    {
      assert PipeAt(files, pipes[p], rd[p], wr[p]);
      var pipe := pipes[p];
      r, out := pipe.Read(n);
      assert PipeAt(files, pipe, rd[p], wr[p]);
      Kept(p);
    }

    /** One turn of a writer of pipe `p`. */
    method PipeWrite(p: nat, src: seq<Byte>, n: nat, resumed: bool, ghost readers: nat) returns (m: nat, out: Outcome)
      requires PipesValid() && p < |pipes| && n <= |src| && (readers == 0 <==> files[rd[p]].freed)
      modifies pipes, Bufs(pipes)
      ensures PipesValid() && n <= m <= |src| && Streams() == old(Streams())[p := PutIn(old(Streams())[p], src[n..m])]
      ensures out == if m == |src| then Done else if readers == 0 then Broken else Yield
      ensures m == Sent(|src|, n, resumed, |Left(old(Streams())[p])|, readers)
    {
      assert PipeAt(files, pipes[p], rd[p], wr[p]);
      var pipe := pipes[p];
      SentSame(|src|, n, resumed, pipe.count, One(!files[rd[p]].freed), readers);
      m, out := pipe.Write(src, n, resumed);
      assert PipeAt(files, pipe, rd[p], wr[p]);
      Kept(p);
    }

    /** Writing to pipe `p` leaves the others as they were. */
    twostate lemma Kept(p: nat)
      requires old(PipesValid()) && p < |pipes| && unchanged(this)
      requires forall q: nat :: q < |pipes| && q != p ==> unchanged(pipes[q]) && unchanged(pipes[q].buf)
      requires PipeAt(files, pipes[p], rd[p], wr[p])
      ensures PipesValid() && Streams() == old(Streams())[p := (pipes[p].written, pipes[p].got)]
    {
      forall q: nat | q < |pipes| && q != p ensures PipeAt(files, pipes[q], rd[q], wr[q]) {
        assert old(PipeAt(files, pipes[q], rd[q], wr[q]));
      }
    }

    ghost function View(): Sys
      reads this, pipes
    { Sys(Fds(tables, |files|), KindsOf(files), rd, wr, Streams()) }

    /** What descriptor `fd` of table `t` leads to. */
    function KindOf(t: nat, fd: int): Kind
      reads this
    {
      if t < |tables| && 0 <= fd < |tables[t].slots| && 0 <= tables[t].slots[fd] < |files|
      then files[tables[t].slots[fd]].kind
      else Plain
    }

    /** Read through a descriptor. */
    method ReadFd(t: nat, fd: int, n: nat) returns (a: Answer)
      requires Valid({}) && t < |tables|
      modifies pipes
      ensures Valid({})
      ensures !KindOf(t, fd).ReadEnd? ==>
                a == (if Held(tables[t].slots, fd) != NONE then Other else Bad) && Streams() == old(Streams())
      ensures KindOf(t, fd).ReadEnd? ==>
                var p := KindOf(t, fd).p;
                && p < |pipes| == |wr| && ReadGives(a, Left(old(Streams())[p]), n, Count(tables, wr[p]))
                && Streams() == old(Streams())[p := TakenOut(old(Streams())[p], if a.Bytes? then a.bytes else [])]
    {
      assert TableOk(tables[t], |files|);
      if fd < 0 || fd >= FD_MAX || tables[t].slots[fd] == NONE {
        return Bad;
      }
      var f := tables[t].slots[fd];
      if !files[f].kind.ReadEnd? {
        return Other;
      }
      var p := files[f].kind.p;
      OpenIff(files, tables, wr[p]);
      var r, out := PipeRead(p, n);
      a := if out == Yield then Wait(0) else Bytes(r);
    }

    /** Write through a descriptor; `m` bytes of `src` are in after it. */
    method WriteFd(t: nat, fd: int, src: seq<Byte>, n: nat, resumed: bool) returns (a: Answer, m: nat)
      requires Valid({}) && t < |tables| && n <= |src|
      modifies pipes, Bufs(pipes)
      ensures Valid({}) && n <= m <= |src|
      ensures !KindOf(t, fd).WriteEnd? ==>
                a == (if Held(tables[t].slots, fd) != NONE then Other else Bad) && Streams() == old(Streams())
      ensures KindOf(t, fd).WriteEnd? ==>
                var p := KindOf(t, fd).p;
                && p < |pipes| == |rd| && Streams() == old(Streams())[p := PutIn(old(Streams())[p], src[n..m])]
                && WriteGives(a, |src|, n, m, resumed, |Left(old(Streams())[p])|, Count(tables, rd[p]))
    {
      m := n;
      assert TableOk(tables[t], |files|);
      if fd < 0 || fd >= FD_MAX || tables[t].slots[fd] == NONE {
        return Bad, n;
      }
      var f := tables[t].slots[fd];
      if !files[f].kind.WriteEnd? {
        return Other, n;
      }
      var p := files[f].kind.p;
      a, m := WriteTo(p, src, n, resumed);
    }

    method WriteTo(p: nat, src: seq<Byte>, n: nat, resumed: bool) returns (a: Answer, m: nat)
      requires Valid({}) && p < |pipes| && n <= |src|
      modifies pipes, Bufs(pipes)
      ensures Valid({}) && n <= m <= |src| && Streams() == old(Streams())[p := PutIn(old(Streams())[p], src[n..m])]
      ensures WriteGives(a, |src|, n, m, resumed, |Left(old(Streams())[p])|, Count(tables, rd[p]))
    {
      OpenIff(files, tables, rd[p]);
      var out;
      m, out := PipeWrite(p, src, n, resumed, Count(tables, rd[p]));
      a := match out case Done => Wrote case Broken => NoReader case Yield => Wait(m);
    }

    // ----- runs --------------------------------------------------------------------------------------------------

    /** One request: tables, streams and answer are those of the system of tables and streams. One on a table that is
        gone, or that no process has, is refused. */
    method Perform(req: Request) returns (a: Answer)
      requires Valid({})
      modifies this, pipes, Bufs(pipes)
      ensures Valid({}) && View() == After(old(View()), req) && a == AnswerTo(old(View()), req)
      ensures PipesKept(old(pipes), pipes)
      ensures forall p: nat :: |old(pipes)| <= p < |pipes| ==> fresh(pipes[p]) && fresh(pipes[p].buf)
    {
      if req.MakePipe? && Live(req.t) {
        a := PipeRequest(req);
      } else {
        a := Settle(req);
      }
    }

    /** Requests that make no pipe. */
    method Settle(req: Request) returns (a: Answer)
      requires Valid({}) && (req.MakePipe? ==> !Live(req.t))
      modifies this`files, this`tables, pipes, Bufs(pipes)
      ensures Valid({}) && View() == After(old(View()), req) && a == AnswerTo(old(View()), req)
    {
      if req.Start? {
        var t := NewTable();
        a := Ready(t);
      } else if Live(req.t) {
        a := Serve(req);
      } else {
        a := Bad;
      }
    }

    method Serve(req: Request) returns (a: Answer)
      requires Valid({}) && !req.Start? && !req.MakePipe? && Live(req.t)
      modifies this`files, this`tables, pipes, Bufs(pipes)
      ensures Valid({}) && View() == After(old(View()), req) && a == AnswerTo(old(View()), req)
    {
      if req.Read? {
        a := ReadRequest(req);
      } else if req.Write? {
        a := WriteRequest(req);
      } else {
        FdsOnly(View(), req);
        if req.Open? {
          a := OpenRequest(req);
        } else if req.Close? {
          a := CloseRequest(req);
        } else if req.Dup? || req.Dup2? {
          a := DupRequest(req);
        } else {
          a := TableRequest(req);
        }
      }
    }

    method PipeRequest(req: Request) returns (a: Answer)
      requires Valid({}) && req.MakePipe? && Live(req.t)
      modifies this, pipes
      ensures Valid({}) && View() == After(old(View()), req) && a == AnswerTo(old(View()), req)
      ensures PipeJoined(old(pipes), pipes)
      ensures fresh(pipes[|old(pipes)|]) && fresh(pipes[|old(pipes)|].buf)
    {
      ghost var s := View();
      var r, w := MakePipe(req.t);
      PipeIs(s, req, tables, r, w);
      a := Ready(r);
    }

    method ReadRequest(req: Request) returns (a: Answer)
      requires Valid({}) && req.Read? && Live(req.t)
      modifies pipes
      ensures Valid({}) && View() == After(old(View()), req) && a == AnswerTo(old(View()), req)
    {
      ghost var s := View();
      assert TableOk(tables[req.t], |files|);
      a := ReadFd(req.t, req.fd, req.n);
      ReadIs(s, req, a, Streams());
    }

    method WriteRequest(req: Request) returns (a: Answer)
      requires Valid({}) && req.Write? && Live(req.t)
      modifies pipes, Bufs(pipes)
      ensures Valid({}) && View() == After(old(View()), req) && a == AnswerTo(old(View()), req)
    {
      ghost var s := View();
      assert TableOk(tables[req.t], |files|);
      if req.n <= |req.src| {
        var m;
        a, m := WriteFd(req.t, req.fd, req.src, req.n, req.resumed);
        WriteIs(s, req, a, m, Streams());
      } else {
        TransferSame(s, req);
        a := Bad;
      }
    }

    method TableRequest(req: Request) returns (a: Answer)
      requires Valid({}) && (req.Fork? || req.Thread? || req.Exit? || req.Exec?) && Live(req.t)
      modifies this`files, this`tables, pipes
      ensures Valid({}) && Streams() == old(Streams()) && KindsOf(files) == KindsOf(old(files))
      ensures View().fds == FdsAfter(old(View()).fds, req) && a == Reply(old(View()).fds, req)
    {
      a := Ready(0);
      assert TableOk(tables[req.t], |files|);
      match req {
        case Fork(t) =>
          var u := CloneTable(t);
          a := Ready(u);
        case Thread(t) => ShareTable(t);
        case Exit(t) => FreeTable(t);
        case Exec(t) => CloseFrom(t, 3);
      }
    }

    method OpenRequest(req: Request) returns (a: Answer)
      requires Valid({}) && req.Open? && Live(req.t)
      modifies this`files, this`tables, pipes
      ensures Valid({}) && Streams() == old(Streams()) && KindsOf(files) == KindsOf(old(files)) + [Plain]
      ensures View().fds == FdsAfter(old(View()).fds, req) && a == Reply(old(View()).fds, req)
    {
      ghost var s := View().fds;
      assert TableOk(tables[req.t], |files|);
      var r := Open(req.t);
      OpenIs(s, req, tables, r);
      assert |KindsOf(files)| == |files|;
      a := Ready(r);
    }

    method CloseRequest(req: Request) returns (a: Answer)
      requires Valid({}) && req.Close? && Live(req.t)
      modifies this`files, this`tables, pipes
      ensures Valid({}) && Streams() == old(Streams()) && KindsOf(files) == KindsOf(old(files))
      ensures View().fds == FdsAfter(old(View()).fds, req) && a == Reply(old(View()).fds, req)
    {
      ghost var s := View().fds;
      assert TableOk(tables[req.t], |files|);
      Close(req.t, req.fd, {});
      CloseIs(s, req, tables);
      assert |KindsOf(files)| == |files|;
      a := Ready(0);
    }

    method DupRequest(req: Request) returns (a: Answer)
      requires Valid({}) && (req.Dup? || req.Dup2?) && Live(req.t)
      modifies this`files, this`tables, pipes
      ensures Valid({}) && Streams() == old(Streams()) && KindsOf(files) == KindsOf(old(files))
      ensures View().fds == FdsAfter(old(View()).fds, req) && a == Reply(old(View()).fds, req)
    {
      assert TableOk(tables[req.t], |files|);
      var r;
      if req.Dup? {
        r := DupFrom(req.t, req.fd, req.min);
      } else {
        r := Dup2(req.t, req.fd, req.to);
      }
      a := Ready(r);
    }

    /** Whatever the processes do with their descriptors and pipes, in any order: tables, streams and every answer are
        those of the system of tables and streams, and the invariant holds throughout. */
    method PerformAll(reqs: seq<Request>) returns (answers: seq<Answer>)
      requires Valid({})
      modifies this, pipes, Bufs(pipes)
      ensures Valid({}) && View() == Fold(After, old(View()), reqs)
      ensures Answers(After, AnswerTo, old(View()), reqs, answers)
      ensures PipesKept(old(pipes), pipes)
    {
      answers := [];
      ghost var s := View();
      for k := 0 to |reqs|
        invariant Valid({}) && View() == Fold(After, s, reqs[..k]) && Answers(After, AnswerTo, s, reqs[..k], answers)
        invariant PipesKept(old(pipes), pipes)
        invariant forall p: nat :: |old(pipes)| <= p < |pipes| ==> fresh(pipes[p]) && fresh(pipes[p].buf)
      {
        FoldMore(After, s, reqs, k);
        var a := Perform(reqs[k]);
        AnswersMore(After, AnswerTo, s, reqs, answers, k, a);
        answers := answers + [a];
      }
      assert reqs[..|reqs|] == reqs;
    }
  }

  /** In every state that holds the invariant the streams are in order. */
  lemma ValidInOrder(h: Handles)
    requires h.Valid({})
    ensures AllInOrder(h.Streams())
  {
    forall p: nat | p < |h.pipes| ensures h.Streams()[p].1 <= h.Streams()[p].0 && |Left(h.Streams()[p])| <= SIZE {
      assert PipeAt(h.files, h.pipes[p], h.rd[p], h.wr[p]);
    }
  }

  lemma EndsKinds(files: seq<OpenFile>, p: nat)
    ensures KindsOf(WithEnds(files, p)) == WithEndKinds(KindsOf(files), p)
  { }

  /** A new pipe joined the others. */
  ghost predicate PipeJoined(pipes0: seq<Pipe>, pipes: seq<Pipe>) {
    |pipes| == |pipes0| + 1 && PipesKept(pipes0, pipes)
  }

  /** The pipes there were keep their places. */
  ghost predicate PipesKept(pipes0: seq<Pipe>, pipes: seq<Pipe>) {
    |pipes0| <= |pipes| && forall p: nat :: p < |pipes0| ==> pipes[p] == pipes0[p]
  }

  function WithEndKinds(kinds: seq<Kind>, p: nat): seq<Kind> { kinds + [ReadEnd(p), WriteEnd(p)] }

  /** The ends `r` and `w` of a pipe took the lowest empty slots of table `t`, or there were no two. */
  ghost predicate EndsPlaced(before: seq<Table>, after: seq<Table>, t: nat, r: nat, w: nat, a: int, b: int)
    requires t < |before|
  {
    var slots := before[t].slots;
    var i := LowestFree(slots, 0);
    var j := if i == -1 then -1 else LowestFree(slots[i := r], 0);
    if j == -1 then a == b == -1 && after == before
    else a == i && b == j && after == before[t := before[t].(slots := slots[i := r][j := w])]
  }

  lemma PipeIs(s: Sys, req: Request, tables: seq<Table>, a: int, b: int)
    requires req.MakePipe? && !Refused(s.fds, req)
    requires EndsPlaced(s.fds.tables, tables, req.t, s.fds.n, s.fds.n + 1, a, b)
    ensures After(s, req) == Sys(Fds(tables, s.fds.n + 2), WithEndKinds(s.kinds, |s.streams|), s.rd + [s.fds.n],
                                 s.wr + [s.fds.n + 1], s.streams + [([], [])])
    ensures AnswerTo(s, req) == Ready(a)
  {
    var table := s.fds.tables[req.t];
    assert table.(slots := table.slots) == table && s.fds.tables[req.t := table] == s.fds.tables;
  }

  lemma OpenIs(s: Fds, req: Request, tables: seq<Table>, r: int)
    requires req.Open? && !Refused(s, req) && r == LowestFree(s.tables[req.t].slots, 0)
    requires tables == if r == -1 then s.tables else Put(s.tables, req.t, r, s.n)
    ensures Fds(tables, s.n + 1) == FdsAfter(s, req) && Reply(s, req) == Ready(r)
  {
    var table := s.tables[req.t];
    assert table.(slots := table.slots) == table && s.tables[req.t := table] == s.tables;
  }

  lemma CloseIs(s: Fds, req: Request, tables: seq<Table>)
    requires req.Close? && !Refused(s, req) && |s.tables[req.t].slots| == FD_MAX
    requires tables == if 0 <= req.fd < FD_MAX && s.tables[req.t].slots[req.fd] != NONE
                       then Put(s.tables, req.t, req.fd, NONE) else s.tables
    ensures Fds(tables, s.n) == FdsAfter(s, req) && Reply(s, req) == Ready(0)
  {
    var table := s.tables[req.t];
    assert table.(slots := table.slots) == table && s.tables[req.t := table] == s.tables;
  }

  lemma PutBack(tables: seq<Table>, t: nat, i: nat, v: int)
    requires t < |tables| && i < |tables[t].slots| && tables[t].slots[i] == NONE
    ensures Put(Put(tables, t, i, v), t, i, NONE) == tables
  {
    assert tables[t].slots[i := v][i := NONE] == tables[t].slots;
  }

  /** The files with those of a new pipe's ends behind them. */
  function WithEnds(files: seq<OpenFile>, p: nat): seq<OpenFile> {
    files + [OpenFile(ReadEnd(p), 1, 0, false)] + [OpenFile(WriteEnd(p), 1, 0, false)]
  }

  lemma EndsCounted(files: seq<OpenFile>, tables: seq<Table>, p: nat)
    requires Counted(files, tables, {})
    ensures Counted(WithEnds(files, p), tables, {|files|, |files| + 1})
  {
    var n := |files|;
    OpenCounted(files, tables, {}, ReadEnd(p));
    assert {} + {n} == {n} && {n} + {n + 1} == {n, n + 1};
    OpenCounted(files + [OpenFile(ReadEnd(p), 1, 0, false)], tables, {n}, WriteEnd(p));
  }

  lemma MorePipes(files: seq<OpenFile>, pipes: seq<Pipe>, rd: seq<nat>, wr: seq<nat>, pipe: Pipe)
    requires PipesOk(files, pipes, rd, wr) && PipeOk(pipe, true, true)
    requires forall q: nat :: q < |pipes| ==> pipes[q] != pipe && pipes[q].buf != pipe.buf
    ensures PipesOk(WithEnds(files, |pipes|), pipes + [pipe], rd + [|files|], wr + [|files| + 1])
  {
    var files', pipes', rd', wr' := WithEnds(files, |pipes|), pipes + [pipe], rd + [|files|], wr + [|files| + 1];
    PipeLinked(files, |pipes|, rd, wr);
    forall q: nat | q < |pipes'| ensures PipeAt(files', pipes'[q], rd'[q], wr'[q]) {
      if q < |pipes| {
        assert PipeAt(files, pipes[q], rd[q], wr[q]);
      }
    }
  }

  lemma PipeLinked(files: seq<OpenFile>, n: nat, rd: seq<nat>, wr: seq<nat>)
    requires Linked(files, n, rd, wr)
    ensures Linked(WithEnds(files, n), n + 1, rd + [|files|], wr + [|files| + 1])
  { }

  lemma PlainLinked(files: seq<OpenFile>, n: nat, rd: seq<nat>, wr: seq<nat>)
    requires Linked(files, n, rd, wr)
    ensures Linked(files + [OpenFile(Plain, 1, 0, false)], n, rd, wr)
  { }
}
