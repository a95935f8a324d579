// The byte ring buffer: head and tail are brought back into range only at the
// next use, and a queue of at most size bytes is what it holds.
module Ring {
  import opened Arith
  import opened ByteSeqs

  class RingBuffer {
    var head: nat
    var tail: nat
    var count: nat
    const size: nat
    const buffer: array<Byte>
    // The queued bytes, oldest first.
    ghost var Contents: seq<Byte>

    ghost predicate Valid()
      reads this, buffer
    {
      && buffer.Length == size
      && head <= size && tail <= size && count <= size
      && |Contents| == count
      && Slot(tail, 0, size) == Slot(head, count, size)
      && (forall k :: 0 <= k < count ==> Slot(head, k, size) < size && buffer[Slot(head, k, size)] == Contents[k])
    }

    constructor (n: nat)
      ensures Valid() && fresh(buffer) && size == n && Contents == [] && head == 0 && tail == 0
    {
      head, tail, count, size := 0, 0, 0, n;
      buffer := new Byte[n](_ => 0);
      Contents := [];
    }

    lemma CountIs()
      requires Valid()
      ensures count == |Contents|
    {
    }

    // -1 when full, else the unreduced tail.
    method Write(ch: Byte) returns (rc: int)
      requires Valid()
      modifies this, buffer
      ensures Valid()
      ensures if |old(Contents)| == size then rc == -1 && Contents == old(Contents)
              else Contents == old(Contents) + [ch] && rc == tail == old(tail) % size + 1
      ensures head == old(head)
    {
      if count == size {
        return -1;
      }
      forall k | 0 <= k < count ensures Slot(head, k, size) != Slot(head, count, size) {
        SlotsDiffer(head, k, count, size);
      }
      SlotNext(head, count, size);
      tail := tail % size;
      buffer[tail] := ch;
      tail := tail + 1;
      count := count + 1;
      Contents := Contents + [ch];
      rc := tail;
    }

    // -1 when empty, else the unreduced head.
    method ReadSingle() returns (rc: int, data: Byte)
      requires Valid()
      modifies this
      ensures Valid()
      ensures if old(Contents) == [] then rc == -1 && Contents == []
              else data == old(Contents)[0] && Contents == old(Contents)[1..] && rc == head
                   && head == old(head) % size + 1
      ensures tail == old(tail)
    {
      if count == 0 {
        return -1, 0;
      }
      ghost var next := head % size + 1;
      forall k | 0 <= k < count ensures Slot(next, k, size) == Slot(head, 1 + k, size) {
        SlotAdvance(head, 1, k, size);
      }
      SlotReduce(head, 0, size);
      head := head % size;
      data := buffer[head];
      head := head + 1;
      count := count - 1;
      Contents := Contents[1..];
      rc := head;
    }

    method Clear()
      requires Valid()
      modifies this, buffer
      ensures Valid() && Contents == [] && head == 0 && tail == 0
      ensures forall k :: 0 <= k < size ==> buffer[k] == 0
    {
      var i := 0;
      while i < size
        invariant 0 <= i <= size && buffer.Length == size
        invariant forall k :: 0 <= k < i ==> buffer[k] == 0
      {
        buffer[i] := 0;
        i := i + 1;
      }
      head, tail, count := 0, 0, 0;
      Contents := [];
    }

    // The bulk read reduces head only once, before it starts. It stays inside
    // the buffer, and takes what as many single reads would, exactly as long
    // as the bytes taken do not run past the end; otherwise its access number
    // |out| is out of bounds.
    method Read(len: nat) returns (rc: int, out: seq<Byte>, overrun: bool)
      requires Valid()
      modifies this
      ensures old(Contents) == [] ==> rc == -1 && out == [] && !overrun && Contents == []
      ensures old(Contents) != [] ==>
                var n := if len < |old(Contents)| then len else |old(Contents)|;
                && (overrun <==> old(head) % size + n > size)
                && (!overrun ==> Valid() && rc == head && out == old(Contents)[..n] && Contents == old(Contents)[n..])
                && (!overrun ==> head == old(head) % size + n)
                && (overrun ==> |out| == size - old(head) % size && out == old(Contents)[..|out|])
      ensures tail == old(tail)
    {
      hide Slot;
      out, overrun := [], false;
      if count == 0 {
        return -1, out, false;
      }
      ghost var c, h0 := count, head;
      SlotReduce(head, 0, size);
      head := head % size;
      ghost var start := head;
      var i := 0;
      while i < len
        invariant 0 <= i <= len && i <= c && i == |out| && head == start + i && count == c - i
        invariant start < size && start + i <= size
        invariant out == old(Contents)[..i] && Contents == old(Contents)
        invariant tail == old(tail)
        decreases len - i
      {
        if count == 0 {
          break;
        }
        if head == size {
          overrun := true;
          return 0, out, true;
        }
        assert buffer[head] == Contents[i] by { SlotAdvance(h0, i, 0, size); }
        out := out + [buffer[head]];
        head := head + 1;
        count := count - 1;
        i := i + 1;
      }
      forall k | 0 <= k <= count ensures Slot(head, k, size) == Slot(h0, i + k, size) {
        SlotAdvance(h0, i, k, size);
      }
      Contents := Contents[i..];
      rc := head;
    }
  }

  // A queue of size 2 that is filled, read from once, filled again and then
  // read in bulk: two bytes are queued, and the second is looked for behind the
  // end of the buffer.
  method BulkReadOverruns(a: Byte, b: Byte, c: Byte) returns (overrun: bool, out: seq<Byte>)
    ensures overrun && out == [b]
  {
    var ring := new RingBuffer(2);
    var rc := ring.Write(a);
    rc := ring.Write(b);
    var single, first := ring.ReadSingle();
    rc := ring.Write(c);
    assert ring.Contents == [b, c] && ring.head == 1;
    rc, out, overrun := ring.Read(2);
  }

  // ---------- slots modulo the size ----------

  // Where the k-th byte behind head is stored.
  function Slot(head: nat, k: nat, n: nat): nat {
    if n == 0 then 0 else (head + k) % n
  }

  lemma SlotIs(head: nat, k: nat, n: nat)
    requires 0 < n && head <= n && k <= n
    ensures var a := head + k;
            Slot(head, k, n) == if a < n then a else if a < 2 * n then a - n else 0
  {
    var a := head + k;
    if a < n {
      Divides(a, n, 0, a);
    } else if a < 2 * n {
      Divides(a, n, 1, a - n);
    } else {
      Divides(a, n, 2, 0);
    }
  }

  // Reducing head moves no slot.
  lemma SlotReduce(head: nat, k: nat, n: nat)
    requires 0 < n && head <= n && k <= n
    ensures Slot(head % n, k, n) == Slot(head, k, n) && head % n == Slot(head, 0, n)
  {
    SlotIs(head, 0, n);
    SlotIs(head, k, n);
    SlotIs(head % n, k, n);
  }

  lemma SlotsDiffer(head: nat, k: nat, m: nat, n: nat)
    requires head <= n && k < m < n
    ensures Slot(head, k, n) != Slot(head, m, n)
  {
    SlotIs(head, k, n);
    SlotIs(head, m, n);
  }

  // One step behind the slot of k is the slot of k + 1.
  lemma SlotNext(head: nat, k: nat, n: nat)
    requires head <= n && k < n
    ensures Slot(Slot(head, k, n) + 1, 0, n) == Slot(head, k + 1, n)
  {
    SlotIs(head, k, n);
    SlotIs(head, k + 1, n);
    SlotIs(Slot(head, k, n) + 1, 0, n);
  }

  // Moving head i places on from its reduced value.
  lemma SlotAdvance(head: nat, i: nat, k: nat, n: nat)
    requires 0 < n && head <= n && head % n + i <= n && i + k <= n
    ensures Slot(head % n + i, k, n) == Slot(head, i + k, n)
    ensures head % n + i < n ==> Slot(head, i, n) == head % n + i
  {
    SlotIs(head, 0, n);
    SlotIs(head, i, n);
    SlotIs(head, i + k, n);
    SlotIs(head % n + i, k, n);
  }
}
