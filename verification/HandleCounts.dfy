/** Open files and the descriptor tables that hold them: counting the slots of a file. */
module HandleCounts {
  const FD_MAX: nat := 256
  const NONE: int := -1

  datatype Kind = Plain | ReadEnd(p: nat) | WriteEnd(p: nat)

  /** An open file: `closes` is how often its close hook ran. */
  datatype OpenFile = OpenFile(kind: Kind, refs: int, closes: nat, freed: bool)

  /** A descriptor table; `refs` threads share it. */
  datatype Table = Table(refs: int, slots: seq<int>, freed: bool)

  /** What each file is. */
  function KindsOf(files: seq<OpenFile>): (r: seq<Kind>)
    ensures |r| == |files| && forall f: nat :: f < |files| ==> r[f] == files[f].kind
  { seq(|files|, f requires 0 <= f < |files| => files[f].kind) }

  // ----- counting ------------------------------------------------------------------------------------------------

  function One(b: bool): nat { if b then 1 else 0 }

  function Occurs(slots: seq<int>, f: int): nat {
    if slots == [] then 0 else One(slots[0] == f) + Occurs(slots[1..], f)
  }

  /** In how many slots of all tables the file is. */
  function Count(tables: seq<Table>, f: int): nat {
    if tables == [] then 0 else Occurs(tables[0].slots, f) + Count(tables[1..], f)
  }

  lemma {:induction false} OccursSet(slots: seq<int>, i: nat, v: int, f: int)
    requires i < |slots|
    ensures Occurs(slots[i := v], f) + One(slots[i] == f) == Occurs(slots, f) + One(v == f)
  {
    if i > 0 {
      assert slots[i := v][1..] == slots[1..][i - 1 := v];
      OccursSet(slots[1..], i - 1, v, f);
    } else {
      assert slots[0 := v][1..] == slots[1..];
    }
  }

  lemma {:induction false} OccursNone(slots: seq<int>, f: int)
    requires forall i: nat :: i < |slots| ==> slots[i] != f
    ensures Occurs(slots, f) == 0
  {
    if slots != [] {
      OccursNone(slots[1..], f);
    }
  }

  lemma {:induction false} CountTable(tables: seq<Table>, t: nat, table: Table, f: int)
    requires t < |tables|
    ensures Count(tables[t := table], f) + Occurs(tables[t].slots, f) == Count(tables, f) + Occurs(table.slots, f)
  {
    if t > 0 {
      assert tables[t := table][1..] == tables[1..][t - 1 := table];
      CountTable(tables[1..], t - 1, table, f);
    } else {
      assert tables[0 := table][1..] == tables[1..];
    }
  }

  lemma {:induction false} CountMore(tables: seq<Table>, table: Table, f: int)
    ensures Count(tables + [table], f) == Count(tables, f) + Occurs(table.slots, f)
  {
    if tables == [] {
      assert tables + [table] == [table] && [table][1..] == [];
    } else {
      assert (tables + [table])[1..] == tables[1..] + [table];
      CountMore(tables[1..], table, f);
    }
  }

  /** Slot `i` of table `t` set to `v`. */
  function Put(tables: seq<Table>, t: nat, i: nat, v: int): (r: seq<Table>)
    requires t < |tables| && i < |tables[t].slots|
  { tables[t := tables[t].(slots := tables[t].slots[i := v])] }

  lemma CountPut(tables: seq<Table>, t: nat, i: nat, v: int, f: int)
    requires t < |tables| && i < |tables[t].slots|
    ensures Count(Put(tables, t, i, v), f) + One(tables[t].slots[i] == f) == Count(tables, f) + One(v == f)
  {
    OccursSet(tables[t].slots, i, v, f);
    CountTable(tables, t, tables[t].(slots := tables[t].slots[i := v]), f);
  }

  // ----- the invariant -------------------------------------------------------------------------------------------

  /** A table has all its slots, each empty or an open file's; once given up it holds nothing. */
  ghost predicate TableOk(table: Table, n: nat) {
    && |table.slots| == FD_MAX
    && (forall i: nat :: i < FD_MAX ==> NONE <= table.slots[i] < n)
    && (if table.freed then forall i: nat :: i < FD_MAX ==> table.slots[i] == NONE else table.refs >= 1)
  }

  /** A file's references are the slots that hold it, and one more while it is on its way into a table.
      Its close hook has run once if there are none, and not yet otherwise. */
  ghost predicate FileCounted(file: OpenFile, slots: nat, due: bool) {
    && (file.freed ==> slots == 0 && !due && file.closes == 1)
    && (!file.freed ==> file.refs == slots + One(due) >= 1 && file.closes == 0)
  }

  ghost predicate Counted(files: seq<OpenFile>, tables: seq<Table>, due: set<nat>) {
    && (forall t: nat :: t < |tables| ==> TableOk(tables[t], |files|))
    && (forall f: nat :: f < |files| ==> FileCounted(files[f], Count(tables, f), f in due))
    && (forall f: nat :: f in due ==> f < |files|)
  }

  /** A reference to `f` dropped; with the last, the close hook runs and the file is freed. */
  function Dropped(files: seq<OpenFile>, f: nat): seq<OpenFile>
    requires f < |files|
  {
    var file := files[f];
    files[f := if file.refs > 1 then file.(refs := file.refs - 1) else file.(closes := file.closes + 1, freed := true)]
  }

  function Bumped(files: seq<OpenFile>, f: nat): seq<OpenFile>
    requires f < |files|
  { files[f := files[f].(refs := files[f].refs + 1)] }

  /** What a slot of a counted table holds is open. */
  lemma HeldOpen(files: seq<OpenFile>, tables: seq<Table>, due: set<nat>, t: nat, i: nat)
    requires Counted(files, tables, due) && t < |tables| && i < |tables[t].slots| && tables[t].slots[i] != NONE
    ensures tables[t].slots[i] < |files| && tables[t].slots[i] >= 0
    ensures !files[tables[t].slots[i]].freed && files[tables[t].slots[i]].refs >= 1 && !tables[t].freed
  {
    CountPut(tables, t, i, NONE, tables[t].slots[i]);
    assert TableOk(tables[t], |files|);
  }

  /** Closing a descriptor. */
  lemma CloseCounted(files: seq<OpenFile>, tables: seq<Table>, due: set<nat>, t: nat, i: nat, f: nat)
    requires Counted(files, tables, due) && t < |tables| && i < |tables[t].slots| && tables[t].slots[i] == f
    ensures f < |files| && Counted(Dropped(files, f), Put(tables, t, i, NONE), due)
  {
    HeldOpen(files, tables, due, t, i);
    var files', tables' := Dropped(files, f), Put(tables, t, i, NONE);
    forall g: nat | g < |files'| ensures FileCounted(files'[g], Count(tables', g), g in due) {
      CountPut(tables, t, i, NONE, g);
      assert FileCounted(files[g], Count(tables, g), g in due);
    }
    forall u: nat | u < |tables'| ensures TableOk(tables'[u], |files'|) {
      assert TableOk(tables[u], |files|);
    }
  }

  /** One more descriptor for an open file. */
  lemma AddCounted(files: seq<OpenFile>, tables: seq<Table>, due: set<nat>, t: nat, i: nat, f: nat)
    requires Counted(files, tables, due) && t < |tables| && i < |tables[t].slots| && tables[t].slots[i] == NONE
    requires f < |files| && !files[f].freed && !tables[t].freed
    ensures Counted(Bumped(files, f), Put(tables, t, i, f), due)
  {
    var files', tables' := Bumped(files, f), Put(tables, t, i, f);
    forall g: nat | g < |files'| ensures FileCounted(files'[g], Count(tables', g), g in due) {
      CountPut(tables, t, i, f, g);
      assert FileCounted(files[g], Count(tables, g), g in due);
    }
    forall u: nat | u < |tables'| ensures TableOk(tables'[u], |files'|) {
      assert TableOk(tables[u], |files|);
    }
  }

  /** A new file reaches its slot. */
  lemma InstallCounted(files: seq<OpenFile>, tables: seq<Table>, due: set<nat>, t: nat, i: nat, f: nat)
    requires Counted(files, tables, due) && t < |tables| && i < |tables[t].slots| && tables[t].slots[i] == NONE
    requires f in due && !tables[t].freed
    ensures Counted(files, Put(tables, t, i, f), due - {f})
  {
    var tables' := Put(tables, t, i, f);
    forall g: nat | g < |files| ensures FileCounted(files[g], Count(tables', g), g in due - {f}) {
      CountPut(tables, t, i, f, g);
      assert FileCounted(files[g], Count(tables, g), g in due);
    }
    forall u: nat | u < |tables'| ensures TableOk(tables'[u], |files|) {
      assert TableOk(tables[u], |files|);
    }
  }

  /** A new file that found no slot is closed. */
  lemma DropCounted(files: seq<OpenFile>, tables: seq<Table>, due: set<nat>, f: nat)
    requires Counted(files, tables, due) && f in due
    ensures !files[f].freed && Counted(Dropped(files, f), tables, due - {f})
  {
    var files' := Dropped(files, f);
    assert FileCounted(files[f], Count(tables, f), true);
    forall g: nat | g < |files'| ensures FileCounted(files'[g], Count(tables, g), g in due - {f}) {
      assert FileCounted(files[g], Count(tables, g), g in due);
    }
    forall u: nat | u < |tables| ensures TableOk(tables[u], |files'|) {
      assert TableOk(tables[u], |files|);
    }
  }

  lemma {:induction false} CountBeyond(files: seq<OpenFile>, tables: seq<Table>)
    requires forall t: nat :: t < |tables| ==> TableOk(tables[t], |files|)
    ensures Count(tables, |files|) == 0
  {
    if tables != [] {
      assert TableOk(tables[0], |files|);
      OccursNone(tables[0].slots, |files|);
      forall t: nat | t < |tables[1..]| ensures TableOk(tables[1..][t], |files|) {
        assert TableOk(tables[t + 1], |files|);
      }
      CountBeyond(files, tables[1..]);
    }
  }

  /** A file just opened, not yet in a table. */
  lemma OpenCounted(files: seq<OpenFile>, tables: seq<Table>, due: set<nat>, kind: Kind)
    requires Counted(files, tables, due)
    ensures Counted(files + [OpenFile(kind, 1, 0, false)], tables, due + {|files|})
  {
    CountBeyond(files, tables);
    var n := |files|;
    var files', due' := files + [OpenFile(kind, 1, 0, false)], due + {n};
    forall g: nat | g < |files'| ensures FileCounted(files'[g], Count(tables, g), g in due') {
      if g < n {
        assert FileCounted(files[g], Count(tables, g), g in due);
      } else {
        assert files'[g] == OpenFile(kind, 1, 0, false);
      }
    }
    forall u: nat | u < |tables| ensures TableOk(tables[u], |files'|) {
      assert TableOk(tables[u], |files|);
    }
  }

  /** A new table, empty. */
  lemma TableCounted(files: seq<OpenFile>, tables: seq<Table>, due: set<nat>, table: Table)
    requires Counted(files, tables, due) && TableOk(table, |files|)
    requires forall i: nat :: i < FD_MAX ==> table.slots[i] == NONE
    ensures Counted(files, tables + [table], due)
  {
    forall g: nat | g < |files| ensures FileCounted(files[g], Count(tables + [table], g), g in due) {
      CountMore(tables, table, g);
      OccursNone(table.slots, g);
      assert FileCounted(files[g], Count(tables, g), g in due);
    }
    forall u: nat | u < |tables + [table]| ensures TableOk((tables + [table])[u], |files|) {
      assert u < |tables| ==> TableOk(tables[u], |files|);
    }
  }

  /** The sharing of a table changes, not its slots. */
  lemma ShareCounted(files: seq<OpenFile>, tables: seq<Table>, due: set<nat>, t: nat, table: Table)
    requires Counted(files, tables, due) && t < |tables| && table.slots == tables[t].slots && TableOk(table, |files|)
    ensures Counted(files, tables[t := table], due)
  {
    var tables' := tables[t := table];
    forall g: nat | g < |files| ensures FileCounted(files[g], Count(tables', g), g in due) {
      CountTable(tables, t, table, g);
      assert FileCounted(files[g], Count(tables, g), g in due);
    }
    forall u: nat | u < |tables'| ensures TableOk(tables'[u], |files|) {
      assert TableOk(tables[u], |files|);
    }
  }
}
