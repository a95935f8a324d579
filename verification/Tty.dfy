// Reading a line from a terminal: bytes drained from the ring one by one,
// edited into the caller's buffer.
module Tty {
  import opened ByteSeqs
  import opened Ring

  const NEWLINE: Byte := 10
  const BACKSPACE: Byte := 8

  // ---------- the line editor ----------

  datatype Edited = Finished(line: seq<Byte>, rest: seq<Byte>) | Open(line: seq<Byte>)

  // The line grown so far, edited by a stream of bytes until a newline ends
  // it or it holds count bytes.
  function Edit(line: seq<Byte>, stream: seq<Byte>, count: nat): (e: Edited)
    requires |line| <= count
    ensures |e.line| <= count
    ensures e.Open? ==> |e.line| < count
    decreases |stream|
  {
    if |line| == count then Finished(line, stream)
    else if stream == [] then Open(line)
    else if stream[0] == NEWLINE then Finished(line, stream[1..])
    else if stream[0] == BACKSPACE then Edit(if line == [] then [] else line[..|line| - 1], stream[1..], count)
    else Edit(line + [stream[0]], stream[1..], count)
  }

  predicate Plain(s: seq<Byte>) { NEWLINE !in s && BACKSPACE !in s }

  // Without backspaces the line is what came before the newline, cut at count.
  lemma {:induction false} EditPlain(line: seq<Byte>, text: seq<Byte>, rest: seq<Byte>, count: nat)
    requires |line| <= count && Plain(text)
    ensures var room := count - |line|;
            Edit(line, text + [NEWLINE] + rest, count) ==
            if |text| >= room then Finished(line + text[..room], text[room..] + [NEWLINE] + rest)
            else Finished(line + text, rest)
    decreases |text|
  {
    var stream := text + [NEWLINE] + rest;
    if |line| == count {
      assert line + text[..0] == line && text[0..] == text;
    } else if text == [] {
      assert stream[0] == NEWLINE && stream[1..] == rest && line + text == line;
    } else {
      assert stream[1..] == text[1..] + [NEWLINE] + rest;
      EditPlain(line + [text[0]], text[1..], rest, count);
      var room := count - |line|;
      if |text| >= room {
        assert line + [text[0]] + text[1..][..room - 1] == line + text[..room];
        assert text[1..][room - 1..] == text[room..];
      } else {
        assert line + [text[0]] + text[1..] == line + text;
      }
    }
  }

  // Editing goes on from where a stream left an open line.
  lemma {:induction false} EditSplit(line: seq<Byte>, a: seq<Byte>, b: seq<Byte>, count: nat)
    requires |line| <= count
    ensures var e := Edit(line, a, count);
            Edit(line, a + b, count) == if e.Finished? then Finished(e.line, e.rest + b) else Edit(e.line, b, count)
    decreases |a|
  {
    if |line| == count {
    } else if a == [] {
      assert a + b == b;
    } else {
      assert (a + b)[1..] == a[1..] + b;
      if a[0] == BACKSPACE {
        EditSplit(if line == [] then [] else line[..|line| - 1], a[1..], b, count);
      } else if a[0] != NEWLINE {
        EditSplit(line + [a[0]], a[1..], b, count);
      }
    }
  }

  // A backspace takes back the byte before it, wherever the pair stands,
  // unless that byte already filled the line; at the start of a line it is
  // ignored.
  lemma BackspaceErases(line: seq<Byte>, a: seq<Byte>, c: Byte, b: seq<Byte>, count: nat)
    requires |line| <= count && c != NEWLINE && c != BACKSPACE
    requires Edit(line, a, count).Open? && |Edit(line, a, count).line| + 1 < count
    ensures Edit(line, a + [c, BACKSPACE] + b, count) == Edit(line, a + b, count)
  {
    var l := Edit(line, a, count).line;
    EditSplit(line, a, b, count);
    assert a + [c, BACKSPACE] + b == a + ([c, BACKSPACE] + b);
    EditSplit(line, a, [c, BACKSPACE] + b, count);
    assert ([c, BACKSPACE] + b)[1..] == [BACKSPACE] + b && ([BACKSPACE] + b)[1..] == b;
    assert (l + [c])[..|l|] == l;
  }

  lemma BackspaceAtStart(stream: seq<Byte>, count: nat)
    requires count > 0
    ensures Edit([], [BACKSPACE] + stream, count) == Edit([], stream, count)
  {
    assert ([BACKSPACE] + stream)[1..] == stream;
  }

  // ---------- tty_read ----------

  // What of the arriving bytes a queue of this size takes while nobody reads.
  function Queued(queue: seq<Byte>, arriving: seq<Byte>, size: nat): seq<Byte>
    decreases |arriving|
  {
    if arriving == [] then queue
    else Queued(if |queue| == size then queue else queue + [arriving[0]], arriving[1..], size)
  }

  // It takes the first ones, as many as there is room for.
  lemma {:induction false} QueuedIs(queue: seq<Byte>, arriving: seq<Byte>, size: nat)
    requires |queue| <= size
    ensures var all := queue + arriving;
            Queued(queue, arriving, size) == if |all| <= size then all else all[..size]
    decreases |arriving|
  {
    if arriving != [] {
      if |queue| < size {
        QueuedIs(queue + [arriving[0]], arriving[1..], size);
        assert queue + [arriving[0]] + arriving[1..] == queue + arriving;
      } else {
        QueuedIs(queue, arriving[1..], size);
        assert (queue + arriving)[..size] == queue == (queue + arriving[1..])[..size];
      }
    } else {
      assert queue + arriving == queue;
    }
  }

  // The keyboard interrupt fills the queue; bytes that find it full are lost.
  method Deliver(ring: RingBuffer, arriving: seq<Byte>)
    requires ring.Valid()
    modifies ring, ring.buffer
    ensures ring.Valid() && ring.Contents == Queued(old(ring.Contents), arriving, ring.size)
    decreases |arriving|
  {
    if arriving != [] {
      var rc := ring.Write(arriving[0]);
      Deliver(ring, arriving[1..]);
    }
  }

  // The bytes a reader gets that takes one, if there is one, after each entry
  // of arrivals came in.
  function Drained(queue: seq<Byte>, arrivals: seq<seq<Byte>>, size: nat): seq<Byte>
    decreases |arrivals|
  {
    if arrivals == [] then []
    else
      var q := Queued(queue, arrivals[0], size);
      if q == [] then Drained(q, arrivals[1..], size) else [q[0]] + Drained(q[1..], arrivals[1..], size)
  }

  // The queue after as many rounds as there are entries of arrivals.
  function QueueAfter(queue: seq<Byte>, arrivals: seq<seq<Byte>>, size: nat): seq<Byte>
    decreases |arrivals|
  {
    if arrivals == [] then queue
    else
      var q := Queued(queue, arrivals[0], size);
      QueueAfter(if q == [] then q else q[1..], arrivals[1..], size)
  }

  function Flat(arrivals: seq<seq<Byte>>): seq<Byte> {
    if arrivals == [] then [] else arrivals[0] + Flat(arrivals[1..])
  }

  // As long as all that arrives fits, no byte is lost, doubled or moved: what
  // the reader got and what is still queued are what was queued and what came.
  lemma {:induction false} NothingLost(queue: seq<Byte>, arrivals: seq<seq<Byte>>, size: nat)
    requires |queue| + |Flat(arrivals)| <= size
    ensures Drained(queue, arrivals, size) + QueueAfter(queue, arrivals, size) == queue + Flat(arrivals)
    decreases |arrivals|
  {
    if arrivals == [] {
      assert Drained(queue, arrivals, size) == [] && queue + [] == queue;
    } else {
      hide Queued;
      QueuedIs(queue, arrivals[0], size);
      var q, rest := queue + arrivals[0], Flat(arrivals[1..]);
      assert queue + Flat(arrivals) == q + rest;
      var left := if q == [] then q else q[1..];
      NothingLost(left, arrivals[1..], size);
      if q != [] {
        var d, a := Drained(left, arrivals[1..], size), QueueAfter(left, arrivals[1..], size);
        assert [q[0]] + d + a == [q[0]] + (d + a);
        assert [q[0]] + (q[1..] + rest) == q + rest;
      }
    }
  }

  lemma {:induction false} QueueStep(queue: seq<Byte>, arrivals: seq<seq<Byte>>, t: nat, size: nat)
    requires t < |arrivals|
    ensures var q := Queued(QueueAfter(queue, arrivals[..t], size), arrivals[t], size);
            QueueAfter(queue, arrivals[..t + 1], size) == if q == [] then q else q[1..]
    decreases t
  {
    hide Queued;
    if t > 0 {
      var q := Queued(queue, arrivals[0], size);
      assert arrivals[..t][1..] == arrivals[1..][..t - 1] && arrivals[..t + 1][1..] == arrivals[1..][..t];
      QueueStep(if q == [] then q else q[1..], arrivals[1..], t - 1, size);
    } else {
      assert arrivals[..0] == [] && arrivals[..1][1..] == [];
    }
  }

  lemma EditOne(line: seq<Byte>, ch: Byte, rest: seq<Byte>, count: nat)
    requires |line| < count
    ensures Edit(line, [ch] + rest, count) ==
            if ch == NEWLINE then Finished(line, rest)
            else if ch == BACKSPACE then Edit(if line == [] then [] else line[..|line| - 1], rest, count)
            else Edit(line + [ch], rest, count)
  {
    assert ([ch] + rest)[1..] == rest;
  }

  // The edit of one byte in the caller's buffer. The write position stays
  // between its start and count.
  method PutByte(buf: array<Byte>, pos: nat, count: nat, ch: Byte) returns (pos': nat)
    requires pos < count <= buf.Length && ch != NEWLINE
    modifies buf
    ensures pos' <= count && buf[count..] == old(buf[count..])
    ensures buf[..pos'] ==
            if ch != BACKSPACE then old(buf[..pos]) + [ch] else if pos == 0 then [] else old(buf[..pos - 1])
    ensures ch == BACKSPACE && pos > 0 ==> buf[pos'] == 0
    ensures forall k :: pos <= k < buf.Length && k >= pos' ==> buf[k] == old(buf[k])
  {
    pos' := pos;
    if ch == BACKSPACE {
      if pos > 0 {
        pos' := pos - 1;
        buf[pos'] := 0;
      }
    } else {
      buf[pos] := ch;
      pos' := pos + 1;
    }
  }

  // One entry of arrivals comes in before each round of the loop; when they
  // run out with the line still open, done is false. Entered with fewer than
  // count bytes queued, the call yields exactly what the line editor makes of
  // the drained bytes; otherwise it yields nothing and takes nothing. After
  // rounds rounds it leaves the rest of the queue alone if the line is full:
  // with what still arrives that is the rest the editor did not use. After a
  // newline it throws the queue away.
  method TtyRead(ring: RingBuffer, buf: array<Byte>, count: nat, arrivals: seq<seq<Byte>>)
      returns (done: bool, n: nat, ghost rounds: nat)
    requires ring.Valid() && buf != ring.buffer && count <= buf.Length
    modifies ring, ring.buffer, buf
    ensures ring.Valid()
    ensures |old(ring.Contents)| >= count ==>
              done && n == 0 && ring.Contents == old(ring.Contents) && buf[..] == old(buf[..])
    ensures |old(ring.Contents)| < count ==>
              var e := Edit([], Drained(old(ring.Contents), arrivals, ring.size), count);
              n == |e.line| && buf[..n] == e.line && (done <==> e.Finished?)
    ensures |old(ring.Contents)| < count && done && n < count ==> ring.Contents == []
    ensures |old(ring.Contents)| < count && (done ==> n == count) ==>
              && rounds <= |arrivals| && (!done ==> rounds == |arrivals|)
              && ring.Contents == QueueAfter(old(ring.Contents), arrivals[..rounds], ring.size)
              && (done ==> Edit([], Drained(old(ring.Contents), arrivals, ring.size), count).rest
                           == Drained(ring.Contents, arrivals[rounds..], ring.size))
    ensures buf[count..] == old(buf[count..])
    ensures forall k :: n <= k < count ==> buf[k] == 0 || buf[k] == old(buf[k])
  {
    hide Edit, Drained, Queued, QueueAfter, RingBuffer.Valid;
    rounds := 0;
    var pos := 0;
    ring.CountIs();
    if ring.count >= count {
      return true, 0, 0;
    }
    var t := 0;
    ghost var all := Drained(ring.Contents, arrivals, ring.size);
    assert arrivals[0..] == arrivals && arrivals[..0] == [] && buf[..0] == [];
    QueueStart(ring.Contents, ring.size);
    while pos < count && t < |arrivals|
      invariant 0 <= pos <= count && 0 <= t <= |arrivals|
      invariant ring.Valid()
      invariant Edit([], all, count) == Edit(buf[..pos], Drained(ring.Contents, arrivals[t..], ring.size), count)
      invariant ring.Contents == QueueAfter(old(ring.Contents), arrivals[..t], ring.size)
      invariant buf[count..] == old(buf[count..])
      invariant forall k :: pos <= k < count ==> buf[k] == 0 || buf[k] == old(buf[k])
      decreases |arrivals| - t
    {
      QueueStep(old(ring.Contents), arrivals, t, ring.size);
      DrainedStep(ring.Contents, arrivals, t, ring.size);
      ghost var rest := arrivals[t + 1..];
      Deliver(ring, arrivals[t]);
      t := t + 1;
      var rc, ch := ring.ReadSingle();
      if rc < 0 {
        continue;
      }
      EditOne(buf[..pos], ch, Drained(ring.Contents, rest, ring.size), count);
      if ch == NEWLINE {
        ring.Clear();
        return true, pos, t;
      }
      assert pos > 0 ==> buf[..pos][..pos - 1] == buf[..pos - 1];
      pos := PutByte(buf, pos, count, ch);
    }
    EditEnd(buf[..pos], Drained(ring.Contents, arrivals[t..], ring.size), count);
    assert t == |arrivals| ==> Drained(ring.Contents, arrivals[t..], ring.size) == [] by {
      assert t == |arrivals| ==> arrivals[t..] == [];
      DrainedNone(ring.Contents, ring.size);
    }
    return pos == count, pos, t;
  }

  lemma QueueStart(queue: seq<Byte>, size: nat)
    ensures QueueAfter(queue, [], size) == queue
  {
  }

  lemma DrainedStep(queue: seq<Byte>, arrivals: seq<seq<Byte>>, t: nat, size: nat)
    requires t < |arrivals|
    ensures var q := Queued(queue, arrivals[t], size);
            Drained(queue, arrivals[t..], size) ==
            if q == [] then Drained(q, arrivals[t + 1..], size) else [q[0]] + Drained(q[1..], arrivals[t + 1..], size)
  {
    assert arrivals[t..][1..] == arrivals[t + 1..];
  }

  lemma DrainedNone(queue: seq<Byte>, size: nat)
    ensures Drained(queue, [], size) == []
  {
  }

  lemma EditEnd(line: seq<Byte>, rest: seq<Byte>, count: nat)
    requires |line| <= count
    ensures |line| == count ==> Edit(line, rest, count) == Finished(line, rest)
    ensures |line| < count ==> Edit(line, [], count) == Open(line)
  {
  }
}
