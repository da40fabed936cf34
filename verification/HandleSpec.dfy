/** What processes see of their descriptors and pipes: a table of slots each, and a stream of bytes per pipe. */
module HandleSpec {
  import opened RawBytes
  import opened Folds
  import opened HandleCounts
  import opened Pipes

  function Empty(): (r: seq<int>)
    ensures |r| == FD_MAX && forall i: nat :: i < FD_MAX ==> r[i] == NONE
  { seq(FD_MAX, _ => NONE) }

  /** The slots with those from `lo` up to `hi` empty. */
  function Cleared(slots: seq<int>, lo: nat, hi: nat): (r: seq<int>)
    ensures |r| == |slots| && forall i: nat :: i < |slots| ==> r[i] == if lo <= i < hi then NONE else slots[i]
  { seq(|slots|, i requires 0 <= i < |slots| => if lo <= i < hi then NONE else slots[i]) }

  lemma ClearedMore(slots: seq<int>, lo: nat, hi: nat)
    requires lo <= hi < |slots|
    ensures Cleared(slots, lo, hi + 1) == Cleared(slots, lo, hi)[hi := NONE]
    ensures slots[hi] == NONE ==> Cleared(slots, lo, hi + 1) == Cleared(slots, lo, hi)
  { }

  lemma ClearedLess(slots: seq<int>, lo: nat, hi: nat)
    requires lo < hi <= |slots|
    ensures Cleared(slots, lo + 1, hi) == Cleared(slots, lo, hi)[lo := slots[lo]]
    ensures slots[lo] == NONE ==> Cleared(slots, lo + 1, hi) == Cleared(slots, lo, hi)
  { }

  /** What a read or write through a descriptor comes to: no descriptor, not this end, bytes read,
      bytes written, a turn given up with `m` bytes in, no reader left; or the number of a descriptor or table. */
  datatype Answer = Bad | Other | Bytes(bytes: seq<Byte>) | Wrote | Wait(m: nat) | NoReader | Ready(n: int)

  // ----- the streams of bytes through pipes ------------------------------------------------------------------------

  /** The bytes that went into a pipe and those that came out. */
  type Stream = (seq<Byte>, seq<Byte>)

  /** The bytes written and not read yet. */
  function Left(s: Stream): seq<Byte> { if s.1 <= s.0 then s.0[|s.1|..] else [] }

  function First(s: seq<Byte>, n: nat): seq<Byte> { if n < |s| then s[..n] else s }

  function TakenOut(s: Stream, r: seq<Byte>): Stream { (s.0, s.1 + r) }

  function PutIn(s: Stream, r: seq<Byte>): Stream { (s.0 + r, s.1) }

  // ----- requests --------------------------------------------------------------------------------------------------

  /** What processes ask for; `t` is the table of the one that asks. */
  datatype Request =
    | Start
    | Fork(t: nat)
    | Thread(t: nat)
    | Exit(t: nat)
    | Exec(t: nat)
    | Open(t: nat)
    | MakePipe(t: nat)
    | Close(t: nat, fd: int)
    | Dup(t: nat, fd: int, min: nat)
    | Dup2(t: nat, fd: int, to: int)
    | Read(t: nat, fd: int, n: nat)
    | Write(t: nat, fd: int, src: seq<Byte>, n: nat, resumed: bool)

  /** The lowest empty slot from `min` on, or -1. */
  function LowestFree(slots: seq<int>, min: nat): (r: int)
    ensures r == -1 || (min <= r < |slots| && slots[r] == NONE)
    ensures forall j: nat :: min <= j < (if r == -1 then |slots| else r) ==> slots[j] != NONE
    decreases if min < |slots| then |slots| - min else 0
  { if min >= |slots| then -1 else if slots[min] == NONE then min else LowestFree(slots, min + 1) }

  /** What descriptor `fd` holds. */
  function Held(slots: seq<int>, fd: int): int { if 0 <= fd < |slots| then slots[fd] else NONE }

  /** All descriptor tables, and the number of files opened so far, which names the next one. */
  datatype Fds = Fds(tables: seq<Table>, n: nat)

  predicate Refused(s: Fds, req: Request) { !req.Start? && (req.t >= |s.tables| || s.tables[req.t].freed) }

  /** The slots of the asking process after a request. */
  function SlotsAfter(slots: seq<int>, n: nat, req: Request): seq<int> {
    match req
    case Exec(_) => Cleared(slots, 3, FD_MAX)
    case Open(_) =>
      var i := LowestFree(slots, 0);
      if i == -1 then slots else slots[i := n]
    case MakePipe(_) =>
      var i := LowestFree(slots, 0);
      if i == -1 then slots
      else
        var j := LowestFree(slots[i := n], 0);
        if j == -1 then slots else slots[i := n][j := n + 1]
    case Close(_, fd) => if Held(slots, fd) == NONE then slots else slots[fd := NONE]
    case Dup(_, fd, min) =>
      var i := LowestFree(slots, min);
      if Held(slots, fd) == NONE || i == -1 then slots else slots[i := slots[fd]]
    case Dup2(_, fd, to) =>
      if Held(slots, fd) == NONE || to < 0 || to >= |slots| then slots else slots[to := slots[fd]]
    case _ => slots
  }

  /** The tables after a request, as the descriptors of independent processes. */
  function FdsAfter(s: Fds, req: Request): Fds {
    if req.Start? then s.(tables := s.tables + [Table(1, Empty(), false)])
    else if Refused(s, req) then s
    else
      var t, table := req.t, s.tables[req.t];
      if req.Fork? then s.(tables := s.tables + [Table(1, table.slots, false)])
      else if req.Thread? then s.(tables := s.tables[t := table.(refs := table.refs + 1)])
      else if req.Exit? && table.refs > 1 then s.(tables := s.tables[t := table.(refs := table.refs - 1)])
      else if req.Exit? then s.(tables := s.tables[t := Table(0, Empty(), true)])
      else
        Fds(s.tables[t := table.(slots := SlotsAfter(table.slots, s.n, req))],
            s.n + if req.Open? then 1 else if req.MakePipe? then 2 else 0)
  }

  /** The answer to a request that moves no bytes. */
  function Reply(s: Fds, req: Request): Answer {
    if req.Start? then Ready(|s.tables|)
    else if Refused(s, req) then Bad
    else
      var slots := s.tables[req.t].slots;
      match req
      case Fork(_) => Ready(|s.tables|)
      case Open(_) => Ready(LowestFree(slots, 0))
      case MakePipe(_) => Ready(if SlotsAfter(slots, s.n, req) == slots then -1 else LowestFree(slots, 0))
      case Dup(_, fd, min) => Ready(if Held(slots, fd) == NONE then -1 else LowestFree(slots, min))
      case Dup2(_, fd, to) => Ready(if Held(slots, fd) == NONE || to < 0 || to >= |slots| then -1 else to)
      case _ => Ready(0)
  }

  // ----- the whole system ------------------------------------------------------------------------------------------

  /** All tables, the kinds of all files ever opened, and for every pipe the files of its ends and the bytes written to
      and read from it. */
  datatype Sys = Sys(fds: Fds, kinds: seq<Kind>, rd: seq<nat>, wr: seq<nat>, streams: seq<Stream>)

  /** What descriptor `fd` of table `t` leads to. */
  function Target(s: Sys, t: nat, fd: int): Kind {
    if t >= |s.fds.tables| then Plain
    else
      var f := Held(s.fds.tables[t].slots, fd);
      if 0 <= f < |s.kinds| then s.kinds[f] else Plain
  }

  /** The pipe a read comes from. */
  predicate ReadsFrom(s: Sys, t: nat, fd: int, p: nat) {
    Target(s, t, fd) == ReadEnd(p) && p < |s.streams| && p < |s.wr|
  }

  predicate WritesTo(s: Sys, t: nat, fd: int, p: nat) {
    Target(s, t, fd) == WriteEnd(p) && p < |s.streams| && p < |s.rd|
  }

  /** A read gives up its turn while there is nothing to read and some slot holds the write end; otherwise it gives the
      next bytes. */
  function ReadReply(s: Sys, t: nat, fd: int, n: nat): Answer {
    if t >= |s.fds.tables| || Held(s.fds.tables[t].slots, fd) == NONE then Bad
    else if Target(s, t, fd).ReadEnd? && ReadsFrom(s, t, fd, Target(s, t, fd).p) then
      var p := Target(s, t, fd).p;
      if Left(s.streams[p]) == [] && Count(s.fds.tables, s.wr[p]) > 0 then Wait(0)
      else Bytes(First(Left(s.streams[p]), n))
    else Other
  }

  /** How many bytes of a write request are in after it. */
  function SentBy(s: Sys, req: Request): (m: nat)
    requires req.Write? && req.n <= |req.src|
    ensures req.n <= m <= |req.src|
  {
    if Target(s, req.t, req.fd).WriteEnd? && WritesTo(s, req.t, req.fd, Target(s, req.t, req.fd).p) then
      var p := Target(s, req.t, req.fd).p;
      Sent(|req.src|, req.n, req.resumed, |Left(s.streams[p])|, Count(s.fds.tables, s.rd[p]))
    else req.n
  }

  /** A write is done when all is in; before that it fails if no slot holds the read end, and else gives up its turn. */
  function WriteReply(s: Sys, req: Request): Answer
    requires req.Write? && req.n <= |req.src|
  {
    if req.t >= |s.fds.tables| || Held(s.fds.tables[req.t].slots, req.fd) == NONE then Bad
    else if Target(s, req.t, req.fd).WriteEnd? && WritesTo(s, req.t, req.fd, Target(s, req.t, req.fd).p) then
      if SentBy(s, req) == |req.src| then Wrote
      else if Count(s.fds.tables, s.rd[Target(s, req.t, req.fd).p]) == 0 then NoReader
      else Wait(SentBy(s, req))
    else Other
  }

  function StreamsAfter(s: Sys, req: Request): seq<Stream> {
    if Refused(s.fds, req) then s.streams
    else if req.MakePipe? then s.streams + [([], [])]
    else if req.Read? && Target(s, req.t, req.fd).ReadEnd? && ReadReply(s, req.t, req.fd, req.n).Bytes? then
      var p := Target(s, req.t, req.fd).p;
      s.streams[p := TakenOut(s.streams[p], ReadReply(s, req.t, req.fd, req.n).bytes)]
    else if req.Write? && req.n <= |req.src| && Target(s, req.t, req.fd).WriteEnd?
      && WritesTo(s, req.t, req.fd, Target(s, req.t, req.fd).p) then
      var p := Target(s, req.t, req.fd).p;
      s.streams[p := PutIn(s.streams[p], req.src[req.n..SentBy(s, req)])]
    else s.streams
  }

  /** The system after a request. */
  function After(s: Sys, req: Request): Sys {
    var fds, streams := FdsAfter(s.fds, req), StreamsAfter(s, req);
    if Refused(s.fds, req) then s
    else if req.Open? then Sys(fds, s.kinds + [Plain], s.rd, s.wr, streams)
    else if req.MakePipe? then
      Sys(fds, s.kinds + [ReadEnd(|s.streams|), WriteEnd(|s.streams|)], s.rd + [s.fds.n], s.wr + [s.fds.n + 1], streams)
    else Sys(fds, s.kinds, s.rd, s.wr, streams)
  }

  /** The answer to a request. */
  function AnswerTo(s: Sys, req: Request): Answer {
    if Refused(s.fds, req) then Bad
    else if req.Read? then ReadReply(s, req.t, req.fd, req.n)
    else if req.Write? then if req.n <= |req.src| then WriteReply(s, req) else Bad
    else Reply(s.fds, req)
  }

  // ----- what the system does ----------------------------------------------------------------------------------------

  /** A request changes no table but the one it is for. */
  lemma OthersAside(s: Fds, req: Request, u: nat)
    requires u < |s.tables| && (req.Start? || u != req.t)
    ensures u < |FdsAfter(s, req).tables| && FdsAfter(s, req).tables[u] == s.tables[u]
  { }

  /** A read of a byte or more comes back empty if and only if nothing is left and no slot holds the write end. */
  lemma EndOfFileIff(s: Sys, t: nat, fd: int, n: nat, p: nat)
    requires t < |s.fds.tables| && ReadsFrom(s, t, fd, p) && n > 0
    ensures ReadReply(s, t, fd, n) == Bytes([]) <==> Left(s.streams[p]) == [] && Count(s.fds.tables, s.wr[p]) == 0
  { }

  /** What came out of every pipe is the beginning of what went in, and the ring has room for the rest. */
  ghost predicate AllInOrder(streams: seq<Stream>) {
    forall p: nat :: p < |streams| ==> streams[p].1 <= streams[p].0 && |Left(streams[p])| <= SIZE
  }

  lemma StaysInOrder(s: Sys, req: Request)
    requires AllInOrder(s.streams)
    ensures AllInOrder(After(s, req).streams)
  {
    assert After(s, req).streams == StreamsAfter(s, req);
    if !Refused(s.fds, req) && req.Read? && Target(s, req.t, req.fd).ReadEnd?
      && ReadReply(s, req.t, req.fd, req.n).Bytes? {
      OrderOut(s.streams[Target(s, req.t, req.fd).p], req.n);
    } else if !Refused(s.fds, req) && req.Write? && req.n <= |req.src| && Target(s, req.t, req.fd).WriteEnd?
              && WritesTo(s, req.t, req.fd, Target(s, req.t, req.fd).p) {
      OrderIn(s.streams[Target(s, req.t, req.fd).p], req.src[req.n..SentBy(s, req)]);
    } else {
      assert StreamsAfter(s, req) == s.streams || StreamsAfter(s, req) == s.streams + [([], [])];
    }
  }

  lemma OrderOut(s: Stream, n: nat)
    requires s.1 <= s.0
    ensures var t := TakenOut(s, First(Left(s), n)); t.1 <= t.0 && Left(t) == Left(s)[|First(Left(s), n)|..]
  {
    var r := First(Left(s), n);
    assert s.0 == s.1 + Left(s);
    assert s.1 + r == s.0[..|s.1 + r|];
  }

  lemma OrderIn(s: Stream, r: seq<Byte>)
    requires s.1 <= s.0
    ensures var t := PutIn(s, r); t.1 <= t.0 && Left(t) == Left(s) + r
  { }

  // ----- the same, one request at a time ---------------------------------------------------------------------------

  /** What a read of `n` bytes answers when `have` is left in the pipe and `writers` slots hold its write end. */
  predicate ReadGives(a: Answer, have: seq<Byte>, n: nat, writers: nat) {
    a == if have == [] && writers > 0 then Wait(0) else Bytes(First(have, n))
  }

  /** What a write of `len` bytes answers that had `n` of them in and has `m` now. */
  predicate WriteGives(a: Answer, len: nat, n: nat, m: nat, resumed: bool, left: nat, readers: nat) {
    && n <= len && m == Sent(len, n, resumed, left, readers)
    && a == if m == len then Wrote else if readers == 0 then NoReader else Wait(m)
  }

  /** Only whether there is a reader matters. */
  lemma SentSame(len: nat, n: nat, resumed: bool, left: nat, a: nat, b: nat)
    requires n <= len && (a == 0 <==> b == 0)
    ensures Sent(len, n, resumed, left, a) == Sent(len, n, resumed, left, b)
  { }

  lemma TransferSame(s: Sys, req: Request)
    requires req.Read? || req.Write?
    ensures FdsAfter(s.fds, req) == s.fds
  {
    if !Refused(s.fds, req) {
      assert s.fds.tables[req.t := s.fds.tables[req.t]] == s.fds.tables;
    }
  }

  /** A request on tables only. */
  lemma FdsOnly(s: Sys, req: Request)
    requires !req.Start? && !req.MakePipe? && !req.Read? && !req.Write? && !Refused(s.fds, req)
    ensures After(s, req) == Sys(FdsAfter(s.fds, req), s.kinds + if req.Open? then [Plain]
                                 else [], s.rd, s.wr, s.streams)
    ensures AnswerTo(s, req) == Reply(s.fds, req)
  {
    assert s.kinds + [] == s.kinds;
  }

  lemma ReadIs(s: Sys, req: Request, a: Answer, streams: seq<Stream>)
    requires req.Read? && !Refused(s.fds, req) && |s.streams| == |s.wr|
    requires var k := Target(s, req.t, req.fd);
             if k.ReadEnd? then
               && k.p < |s.streams| && Held(s.fds.tables[req.t].slots, req.fd) != NONE
               && ReadGives(a, Left(s.streams[k.p]), req.n, Count(s.fds.tables, s.wr[k.p]))
               && streams == s.streams[k.p := TakenOut(s.streams[k.p], if a.Bytes? then a.bytes else [])]
             else
               && a == (if Held(s.fds.tables[req.t].slots, req.fd) != NONE then Other else Bad) && streams == s.streams
    ensures After(s, req) == s.(streams := streams) && AnswerTo(s, req) == a
  {
    TransferSame(s, req);
    var k := Target(s, req.t, req.fd);
    if k.ReadEnd? && !a.Bytes? {
      assert s.streams[k.p].1 + [] == s.streams[k.p].1;
      assert streams == s.streams;
    }
  }

  lemma WriteIs(s: Sys, req: Request, a: Answer, m: nat, streams: seq<Stream>)
    requires req.Write? && !Refused(s.fds, req) && |s.streams| == |s.rd| && req.n <= m <= |req.src|
    requires var k := Target(s, req.t, req.fd);
             if k.WriteEnd? then
               && k.p < |s.streams| && Held(s.fds.tables[req.t].slots, req.fd) != NONE
               && WriteGives(a, |req.src|, req.n, m, req.resumed, |Left(s.streams[k.p])|,
                             Count(s.fds.tables, s.rd[k.p]))
               && streams == s.streams[k.p := PutIn(s.streams[k.p], req.src[req.n..m])]
             else
               && a == (if Held(s.fds.tables[req.t].slots, req.fd) != NONE then Other else Bad) && streams == s.streams
    ensures After(s, req) == s.(streams := streams) && AnswerTo(s, req) == a
  {
    TransferSame(s, req);
  }
}
