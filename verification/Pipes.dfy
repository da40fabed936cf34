/** Anonymous pipes: a ring buffer between a read end and a write end. */
module Pipes {
  import opened RawBytes

  const SIZE: nat := 4096

  datatype Outcome = Done | Yield | Broken

  /** Position `i` places behind `head` in the ring. */
  function Place(head: nat, i: nat): nat { if head + i < SIZE then head + i else head + i - SIZE }

  /** The `count` bytes of the ring from `head` on. */
  ghost function Ring(bytes: seq<Byte>, head: nat, count: nat): (r: seq<Byte>)
    requires |bytes| == SIZE && head < SIZE && count <= SIZE
    ensures |r| == count && forall i: nat :: i < count ==> r[i] == bytes[Place(head, i)]
  { seq(count, i requires 0 <= i < count => bytes[Place(head, i)]) }

  lemma RingTake(bytes: seq<Byte>, head: nat, count: nat)
    requires |bytes| == SIZE && head < SIZE && 0 < count <= SIZE
    ensures Ring(bytes, head, count) == [bytes[head]] + Ring(bytes, Place(head, 1), count - 1)
    ensures Place(Place(head, 1), count - 1) == Place(head, count)
  { }

  lemma RingPut(bytes: seq<Byte>, head: nat, count: nat, b: Byte)
    requires |bytes| == SIZE && head < SIZE && count < SIZE
    ensures Place(head, count) < SIZE && Place(Place(head, count), 1) == Place(head, count + 1)
    ensures Ring(bytes[Place(head, count) := b], head, count + 1) == Ring(bytes, head, count) + [b]
  { }

  lemma Regroup(a: seq<Byte>, b: Byte, c: seq<Byte>)
    ensures (a + [b]) + c == a + ([b] + c)
  { }

  /** How many of `len` bytes are in after a turn of a writer that had `n` in: as many more as the ring has room for,
      none for one that starts its turn without readers. */
  function Sent(len: nat, n: nat, resumed: bool, left: nat, readers: int): (m: nat)
    requires n <= len
    ensures n <= m <= len
  {
    if (readers == 0 && !resumed) || left >= SIZE then n else if len - n < SIZE - left then len else n + (SIZE - left)
  }

  class Pipe {
    const buf: array<Byte>
    var head: nat
    var tail: nat
    var count: nat
    var readers: int
    var writers: int
    var freed: bool
    ghost var written: seq<Byte>   // every byte a writer put in
    ghost var got: seq<Byte>       // every byte a reader took out

    ghost predicate Valid()
      reads this, buf
    {
      && buf.Length == SIZE && head < SIZE && count <= SIZE && tail == Place(head, count)
      && written == got + Buffered()
    }

    /** The bytes in the ring, oldest first. */
    ghost function Buffered(): seq<Byte>
      reads this, buf
      requires buf.Length == SIZE && head < SIZE && count <= SIZE
    { Ring(buf[..], head, count) }

    constructor ()
      ensures Valid() && fresh(buf) && count == 0 && readers == writers == 1 && !freed && written == got == []
    {
      buf := new Byte[SIZE](_ => 0);
      head, tail, count, readers, writers, freed, written, got := 0, 0, 0, 1, 1, false, [], [];
    }

    /** Take the oldest byte. */
    method Take() returns (b: Byte)
      requires Valid() && count > 0
      modifies this`head, this`count, this`got
      ensures Valid() && written == old(written) && count == old(count) - 1
      ensures old(Buffered()) == [b] + Buffered() && got == old(got) + [b]
    {
      RingTake(buf[..], head, count);
      b := buf[head];
      assert (head + 1) % SIZE == Place(head, 1);
      head := (head + 1) % SIZE;
      count := count - 1;
      Regroup(got, b, Buffered());
      got := got + [b];
    }

    /** Put a byte behind the newest. */
    method Append(b: Byte)
      requires Valid() && count < SIZE
      modifies this`tail, this`count, this`written, buf
      ensures Valid() && got == old(got) && count == old(count) + 1
      ensures Buffered() == old(Buffered()) + [b] && written == old(written) + [b]
    {
      RingPut(buf[..], head, count, b);
      buf[tail] := b;
      assert buf[..] == old(buf[..])[old(tail) := b];
      tail := (tail + 1) % SIZE;
      count := count + 1;
      written := written + [b];
      assert written == got + old(Buffered()) + [b];
    }

    /** One turn of a reader: it yields while there is nothing to read and someone may still write. */
    method Read(n: nat) returns (r: seq<Byte>, out: Outcome)
      requires Valid()
      modifies this`head, this`count, this`got
      ensures Valid() && written == old(written) && got == old(got) + r && old(Buffered()) == r + Buffered()
      ensures out == if old(count) == 0 && writers != 0 then Yield else Done
      ensures |r| == if n < old(count) then n else old(count)
    {
      r := [];
      if count == 0 {
        out := if writers == 0 then Done else Yield;
        return;
      }
      while |r| < n && count > 0
        invariant Valid() && written == old(written) && got == old(got) + r && old(Buffered()) == r + Buffered()
        invariant |r| + count == old(count) && |r| <= n
        decreases count
      {
        var b := Take();
        Regroup(r, b, Buffered());
        assert old(got) + r + [b] == old(got) + (r + [b]);
        r := r + [b];
      }
      out := Done;
    }

    /** Fill the ring from `src`. */
    method Fill(src: seq<Byte>, n: nat) returns (m: nat)
      requires Valid() && n <= |src|
      modifies this`tail, this`count, this`written, buf
      ensures Valid() && got == old(got) && n <= m <= |src| && (m < |src| ==> count == SIZE)
      ensures Buffered() == old(Buffered()) + src[n..m] && written == old(written) + src[n..m]
      ensures m - n == count - old(count)
    {
      m := n;
      while m < |src| && count < SIZE
        invariant Valid() && got == old(got) && n <= m <= |src|
        invariant Buffered() == old(Buffered()) + src[n..m] && written == old(written) + src[n..m]
        invariant m - n == count - old(count)
        decreases |src| - m
      {
        Append(src[m]);
        assert src[n..m] + [src[m]] == src[n..m + 1];
        m := m + 1;
      }
    }

    /** One turn of a writer that has `n` bytes of `src` in; `resumed` if it yielded before, on a full ring.
        A resumed writer that finds room fills it before it asks for readers again. */
    method Write(src: seq<Byte>, n: nat, resumed: bool) returns (m: nat, out: Outcome)
      requires Valid() && n <= |src|
      modifies this`tail, this`count, this`written, buf
      ensures Valid() && got == old(got) && n <= m <= |src|
      ensures Buffered() == old(Buffered()) + src[n..m] && written == old(written) + src[n..m]
      ensures out == if m == |src| then Done else if readers == 0 then Broken else Yield
      ensures m == Sent(|src|, n, resumed, old(count), readers)
    {
      m := n;
      if m == |src| {
        out := Done;
        return;
      }
      if readers == 0 && (!resumed || count == SIZE) {
        out := Broken;
        return;
      }
      m := Fill(src, n);
      out := if m == |src| then Done else if readers == 0 then Broken else Yield;
    }

    /** The close hooks: the last end to go frees the pipe. */
    method CloseRead()
      requires Valid() && !freed
      modifies this`readers, this`freed
      ensures Valid() && readers == old(readers) - 1 && (freed <==> readers <= 0 && writers <= 0)
      ensures written == old(written) && got == old(got) && Buffered() == old(Buffered())
    {
      readers := readers - 1;
      if readers <= 0 && writers <= 0 {
        freed := true;
      }
    }

    method CloseWrite()
      requires Valid() && !freed
      modifies this`writers, this`freed
      ensures Valid() && writers == old(writers) - 1 && (freed <==> readers <= 0 && writers <= 0)
      ensures written == old(written) && got == old(got) && Buffered() == old(Buffered())
    {
      writers := writers - 1;
      if writers <= 0 && readers <= 0 {
        freed := true;
      }
    }
  }
}
