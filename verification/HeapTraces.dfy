// Every interleaving of threads that use the heap, from the start to any point
// of it.
module HeapTraces {
  import opened ByteSeqs
  import opened Wrappers
  import opened HeapModel
  import opened HeapSafety
  import opened HeapContents
  import opened HeapSections
  import opened HeapThreads
  import HeapGeometry

  // ---------- every run ----------

  ghost predicate Start(s: State) {
    && !s.flag && Valid(s.heap) && s.serial == s.heap && s.log == [] && s.bumps == 0 && s.alone
    && forall t :: 0 <= t < |s.threads| ==> s.threads[t].Outside?
  }

  ghost predicate Trace(ss: seq<State>, steps: seq<(nat, Action)>) {
    && |ss| == |steps| + 1
    && (forall i :: 0 <= i < |steps| ==>
          Enabled(ss[i], steps[i].0, steps[i].1) && ss[i + 1] == Next(ss[i], steps[i].0, steps[i].1))
  }

  lemma StartInv(s: State)
    requires Start(s)
    ensures Inv(s)
  {
    hide Valid;
  }

  lemma StepLog(s: State, t: nat, a: Action, init: Heap)
    requires Inv(s) && Enabled(s, t, a) && s.serial == Serial(init, s.log)
    ensures Next(s, t, a).serial == Serial(init, Next(s, t, a).log)
  {
    hide Valid, Perform, Serial, WritingOk, Lock, GrantFits, KeepsTrack, MayStore, Made;
    var s' := Next(s, t, a);
    if |s'.log| > |s.log| {
      SerialStep(init, s.log, s'.log[|s.log|]);
    }
  }

  lemma {:induction false} InvOverTrace(ss: seq<State>, steps: seq<(nat, Action)>, i: nat)
    requires Trace(ss, steps) && Start(ss[0]) && i <= |steps|
    ensures Inv(ss[i]) && ss[i].serial == Serial(ss[0].heap, ss[i].log)
  {
    hide Inv, Start, Next, Enabled;
    if i == 0 {
      StartInv(ss[0]);
      assert ss[0].log == [] && ss[0].serial == ss[0].heap by { StartLog(ss[0]); }
    } else {
      InvOverTrace(ss, steps, i - 1);
      assert Enabled(ss[i - 1], steps[i - 1].0, steps[i - 1].1);
      NextKeeps(ss[i - 1], steps[i - 1].0, steps[i - 1].1);
      StepLog(ss[i - 1], steps[i - 1].0, steps[i - 1].1, ss[0].heap);
    }
  }

  lemma StartLog(s: State)
    requires Start(s)
    ensures s.log == [] && s.serial == s.heap
  {
  }

  // In every interleaving at most one thread is inside at any time, and
  // whenever the lock is free the heap is well formed and is, but for the
  // counter of warnings, exactly what the sections, the stores and the frees of
  // null give when they happen one at a time, in the order in which they took
  // effect.
  lemma Serializable(ss: seq<State>, steps: seq<(nat, Action)>, i: nat)
    requires Trace(ss, steps) && Start(ss[0]) && i <= |steps|
    ensures OneInside(ss[i])
    ensures Valid(Serial(ss[0].heap, ss[i].log))
    ensures !ss[i].flag ==>
              && (forall t :: 0 <= t < |ss[i].threads| ==> !In(ss[i].threads[t]))
              && Valid(ss[i].heap)
              && SameButWarnings(ss[i].heap, Serial(ss[0].heap, ss[i].log))
  {
    hide Valid, Perform, Serial, WritingOk;
    InvOverTrace(ss, steps, i);
    WarningsDoNotMatter(ss[i].serial, ss[i].heap.warnings);
  }

  // Before anything is written back, the one thread inside sees that serial
  // heap, but for the counter of warnings.
  lemma HolderSeesSerialHeap(ss: seq<State>, steps: seq<(nat, Action)>, i: nat, t: nat)
    requires Trace(ss, steps) && Start(ss[0]) && i <= |steps|
    requires t < |ss[i].threads| && ss[i].threads[t].Holding?
    ensures ss[i].flag && Valid(ss[i].heap) && SameButWarnings(ss[i].heap, Serial(ss[0].heap, ss[i].log))
  {
    hide Valid, Perform, Serial, WritingOk;
    InvOverTrace(ss, steps, i);
    HolderSees(ss[i], t);
    WarningsDoNotMatter(ss[i].serial, ss[i].heap.warnings);
    assert In(ss[i].threads[t]);
  }

  // ---------- what callers see of their blocks ----------

  // The bytes the shared memory has for a block of the serial heap.
  function Seen(s: State, a: nat): seq<Byte>
    requires Live(s.serial.runs, a)
  {
    Contents(s.serial.(mem := s.heap.mem), a)
  }

  // No note lies in requested bytes.
  lemma NoteElsewhere(h: Heap, a: nat, c: nat)
    requires Valid(h) && Live(h.runs, a) && Live(h.runs, c)
    ensures var x, b := TagAddress(BlockAt(h.runs, a)), BlockAt(h.runs, c);
            !(b.Payload() <= x < b.Payload() + b.req)
  {
    hide GoodRuns, NoneEmpty, IndexOf, AllTagged, TotalSize, TotalBodies, FindRun, FindBlock;
    LiveBlockFits(h, a);
    LiveBlockFits(h, c);
    HeapGeometry.PayloadInBody(BlockAt(h.runs, a));
    HeapGeometry.PayloadInBody(BlockAt(h.runs, c));
    if a != c {
      assert GoodRuns(h.runs) by { ValidRuns(h); }
      LiveBlocksApart(h.runs, a, c);
    }
  }

  // At every moment, also while a section is half written back, the requested
  // bytes of every block are those of the serial heap.
  lemma SeenIsSerial(s: State, a: nat)
    requires Inv(s) && Live(s.serial.runs, a)
    ensures Seen(s, a) == Contents(s.serial, a)
  {
    hide Valid, Lock, TagAddress, Live, BlockAt, Blend;
    LiveBlockFits(s.serial, a);
    ValidMemory(s.serial);
    if t :| 0 <= t < |s.threads| && s.threads[t].Writing? {
      var w := s.threads[t];
      assert WritingOk(s, w);
      if w.made.Some? { NoteElsewhere(s.serial, w.made.value, a); }
    }
  }

  // The step enters a section, or stores a byte, aimed at the block at a.
  ghost predicate Aims(s: State, t: nat, act: Action, a: nat) {
    t < |s.threads| &&
    match act
    case Load(_, _) =>
      s.threads[t].Holding? && !s.threads[t].section.MallocSection? && s.threads[t].section.header == a
    case Store(p, _, _) => ReadHeader(s.serial, p) == a
    case Copy(p, _, _) => ReadHeader(s.serial, p) == a
    case _ => false
  }

  lemma StepFrame(s: State, t: nat, act: Action, a: nat)
    requires Inv(s) && Enabled(s, t, act) && Live(s.serial.runs, a) && !Aims(s, t, act, a)
    ensures Untouched(s.serial, Next(s, t, act).serial, a)
  {
    hide Valid, Perform, Live, BlockAt, Untouched, WritingOk, OneInside, HeaderOf, MayStore, Made, OnlyInside;
    var s' := Next(s, t, act);
    SameUntouched(s.serial, a);
    match act {
      case Load(grant, word) =>
        HolderSees(s, t);
        LoadFits(s, t, grant, word);
        PerformFrame(s.threads[t].section, s.serial, grant, word, a);
      case Store(p, offset, value) => StoreFrame(s, p, offset, value, a);
      case Copy(p, offset, from) => StoreFrame(s, p, offset, s.heap.mem[from], a);
      case Bump => WarnFrame(s.serial, a);
      case _ =>
    }
  }

  // What the lock holder may load, it may load from the serial heap.
  lemma LoadFits(s: State, t: nat, grant: nat, word: nat)
    requires t < |s.threads| && Enabled(s, t, Load(grant, word)) && SameButWarnings(s.heap, s.serial)
    ensures GrantFits(s.threads[t].section, s.serial, grant) && KeepsTrack(s.threads[t].section, s.serial, word)
  {
    hide Live, Release;
  }

  lemma WarnFrame(h: Heap, a: nat)
    requires Live(h.runs, a)
    ensures Untouched(h, Warn(h), a)
  {
  }

  lemma SameUntouched(h: Heap, a: nat)
    requires Live(h.runs, a)
    ensures Untouched(h, h, a)
  {
  }

  lemma StoreFrame(s: State, p: nat, offset: nat, value: Byte, a: nat)
    requires Valid(s.serial) && MayStore(s.serial, p, offset) && Live(s.serial.runs, a) && ReadHeader(s.serial, p) != a
    ensures Untouched(s.serial, StoreAt(s, p + offset, value).serial, a)
  {
    hide Valid, Live, BlockAt, Untouched, HeaderOf, MayStore, OnlyInside;
    StoreInside(s.serial, p, offset, value);
    OwnedLive(s.serial, p, offset);
    InsideKeeps(s.serial, s.serial.mem[p + offset := value], HeaderOf(s.serial.mem, p));
  }

  lemma UntouchedTwice(h0: Heap, h1: Heap, h2: Heap, a: nat)
    requires Live(h0.runs, a) && Untouched(h0, h1, a) && Untouched(h1, h2, a)
    ensures Untouched(h0, h2, a)
  {
  }

  lemma LiveAfter(h0: Heap, h1: Heap, a: nat)
    requires Live(h0.runs, a) && Untouched(h0, h1, a)
    ensures Live(h1.runs, a) && BlockAt(h1.runs, a) == BlockAt(h0.runs, a) && Contents(h1, a) == Contents(h0, a)
  {
  }

  // Whatever the other threads do in whatever interleaving, a block that no
  // section is entered for and nothing is stored into keeps its place, and its
  // requested bytes never change in the shared memory.
  lemma {:induction false} UntouchedOverTrace(ss: seq<State>, steps: seq<(nat, Action)>, i: nat, j: nat, a: nat)
    requires Trace(ss, steps) && Start(ss[0]) && i <= j <= |steps| && Live(ss[i].serial.runs, a)
    requires forall k :: i <= k < j ==> !Aims(ss[k], steps[k].0, steps[k].1, a)
    ensures Untouched(ss[i].serial, ss[j].serial, a)
    ensures Live(ss[j].serial.runs, a) && Seen(ss[j], a) == Seen(ss[i], a)
    decreases j
  {
    hide Inv, Start, Next, Enabled, Live, BlockAt, Untouched, Aims, Seen, Contents;
    InvOverTrace(ss, steps, i);
    SameUntouched(ss[i].serial, a);
    if i < j {
      UntouchedOverTrace(ss, steps, i, j - 1, a);
      InvOverTrace(ss, steps, j - 1);
      assert Enabled(ss[j - 1], steps[j - 1].0, steps[j - 1].1);
      StepFrame(ss[j - 1], steps[j - 1].0, steps[j - 1].1, a);
      UntouchedTwice(ss[i].serial, ss[j - 1].serial, ss[j].serial, a);
      InvOverTrace(ss, steps, j);
    }
    LiveAfter(ss[i].serial, ss[j].serial, a);
    SeenIsSerial(ss[i], a);
    SeenIsSerial(ss[j], a);
  }

  // ---------- reading the note before taking the lock ----------

  // A section is entered for the block at a.
  ghost predicate Enters(s: State, t: nat, act: Action, a: nat) { act.Load? && Aims(s, t, act, a) }

  // malloc has written the note of the block at a, as it has when it returns.
  ghost predicate Settled(s: State, a: nat) {
    forall t :: 0 <= t < |s.threads| && s.threads[t].Writing? ==>
      !(s.threads[t].made == Some(a) && Note in s.threads[t].pending)
  }

  lemma NotesDiffer(h: Heap, a: nat, c: nat)
    requires Valid(h) && Live(h.runs, a) && Live(h.runs, c) && a != c
    ensures TagAddress(BlockAt(h.runs, a)) != TagAddress(BlockAt(h.runs, c))
  {
    hide GoodRuns, NoneEmpty, IndexOf, AllTagged, TotalSize, TotalBodies, FindRun, FindBlock;
    LiveBlockFits(h, a);
    LiveBlockFits(h, c);
    HeapGeometry.PayloadInBody(BlockAt(h.runs, a));
    HeapGeometry.PayloadInBody(BlockAt(h.runs, c));
    ValidRuns(h);
    LiveBlocksApart(h.runs, a, c);
  }

  // In every state the note of a settled block leads to its header, whichever
  // memory it is read in.
  lemma NoteLeadsBack(s: State, a: nat)
    requires Inv(s) && Live(s.serial.runs, a)
    ensures var p := BlockAt(s.serial.runs, a).Payload();
            && p < ADDRESS_SPACE && ReadHeader(s.serial, p) == a
            && (Settled(s, a) ==> ReadHeader(s.heap, p) == a)
  {
    hide Valid, Lock, TagAddress, Live, BlockAt, Blend, Tag, HeaderOf;
    var b := BlockAt(s.serial.runs, a);
    LiveBlockFits(s.serial, a);
    ValidMemory(s.serial);
    HeapGeometry.UnalignInvertsAlign(s.serial.mem, b);
    if Settled(s, a) {
      if t :| 0 <= t < |s.threads| && s.threads[t].Writing? {
        var w := s.threads[t];
        assert WritingOk(s, w);
        if w.made.Some? && w.made.value != a { NotesDiffer(s.serial, a, w.made.value); }
      }
      assert Tagged(s.heap.mem, b);
      HeapGeometry.UnalignInvertsAlign(s.heap.mem, b);
    }
  }

  lemma StepBlock(s: State, t: nat, act: Action, a: nat)
    requires Inv(s) && Enabled(s, t, act) && Live(s.serial.runs, a) && !Enters(s, t, act, a)
    ensures var s' := Next(s, t, act);
            Live(s'.serial.runs, a) && BlockAt(s'.serial.runs, a) == BlockAt(s.serial.runs, a)
  {
    hide Valid, Perform, Live, BlockAt, Untouched, WritingOk, OneInside, HeaderOf, MayStore, Made, OnlyInside, Inv,
      Contents;
    if act.Load? {
      StepFrame(s, t, act, a);
      LiveAfter(s.serial, Next(s, t, act).serial, a);
    }
  }

  lemma {:induction false} BlockOverTrace(ss: seq<State>, steps: seq<(nat, Action)>, i: nat, j: nat, a: nat)
    requires Trace(ss, steps) && Start(ss[0]) && i <= j <= |steps| && Live(ss[i].serial.runs, a)
    requires forall k :: i <= k < j ==> !Enters(ss[k], steps[k].0, steps[k].1, a)
    ensures Live(ss[j].serial.runs, a) && BlockAt(ss[j].serial.runs, a) == BlockAt(ss[i].serial.runs, a)
    decreases j
  {
    hide Inv, Start, Next, Enabled, Live, BlockAt, Enters;
    if i < j {
      BlockOverTrace(ss, steps, i, j - 1, a);
      InvOverTrace(ss, steps, j - 1);
      assert Enabled(ss[j - 1], steps[j - 1].0, steps[j - 1].1);
      StepBlock(ss[j - 1], steps[j - 1].0, steps[j - 1].1, a);
    }
  }

  // The calls for a settled block wait for a section entered for its header,
  // and the thread that has the lock performs its section on the serial heap.
  lemma CallsEnter(s: State, t: nat, a: nat, size: nat)
    requires Inv(s) && t < |s.threads| && Live(s.serial.runs, a) && Settled(s, a)
    ensures var p := BlockAt(s.serial.runs, a).Payload();
            && Next(s, t, CallFree(p)).threads[t] == Spinning(FreeSection(a))
            && Next(s, t, CallResize(p, size)).threads[t] == Spinning(ResizeSection(a, size))
            && Next(s, t, CallMalloc(size)).threads[t] == Spinning(MallocSection(size))
  {
    hide Inv, Live, BlockAt, Settled, ReadHeader;
    NoteLeadsBack(s, a);
  }

  lemma LoadPerforms(s: State, t: nat, grant: nat, word: nat)
    requires Inv(s) && Enabled(s, t, Load(grant, word))
    ensures Next(s, t, Load(grant, word)).serial == Perform(s.threads[t].section, s.serial, grant, word)
    ensures forall u :: 0 <= u < |s.threads| && u != t ==>
              Next(s, t, Load(grant, word)).threads[u] == s.threads[u]
  {
    hide Inv, Perform, GrantFits, KeepsTrack, Made;
  }

  // free and realloc read the note before they take the lock. As long as no
  // other section is entered for the block in between, that is the header found
  // with the lock held, whatever else happens and whatever is stored meanwhile.
  lemma EarlyHeader(ss: seq<State>, steps: seq<(nat, Action)>, i: nat, j: nat, a: nat)
    requires Trace(ss, steps) && Start(ss[0]) && i <= j <= |steps|
    requires Live(ss[i].serial.runs, a) && Settled(ss[i], a)
    requires forall k :: i <= k < j ==> !Enters(ss[k], steps[k].0, steps[k].1, a)
    ensures var p := BlockAt(ss[i].serial.runs, a).Payload();
            ReadHeader(ss[i].heap, p) == ReadHeader(ss[j].serial, p) == a
  {
    hide Inv, Start, Live, BlockAt, Enters, Settled, ReadHeader, Next, Enabled;
    InvOverTrace(ss, steps, i);
    InvOverTrace(ss, steps, j);
    BlockOverTrace(ss, steps, i, j, a);
    NoteLeadsBack(ss[i], a);
    NoteLeadsBack(ss[j], a);
  }

  // ---------- the copy of a growing realloc ----------

  // Byte o of the block at a, as the shared memory has it.
  function SeenByte(s: State, a: nat, o: nat): Byte
    requires Live(s.serial.runs, a) && BlockAt(s.serial.runs, a).Payload() + o < |s.heap.mem|
  {
    s.heap.mem[BlockAt(s.serial.runs, a).Payload() + o]
  }

  lemma SeenByteIs(s: State, a: nat, o: nat)
    requires Inv(s) && Live(s.serial.runs, a) && o < BlockAt(s.serial.runs, a).req
    ensures var p := BlockAt(s.serial.runs, a).Payload();
            && p + o < |s.heap.mem| == ADDRESS_SPACE == |s.serial.mem|
            && o < |Contents(s.serial, a)|
            && SeenByte(s, a, o) == s.serial.mem[p + o] == Contents(s.serial, a)[o]
  {
    hide Valid, Lock, TagAddress, Live, BlockAt, Blend;
    LiveBlockFits(s.serial, a);
    ValidMemory(s.serial);
    SeenIsSerial(s, a);
    if t :| 0 <= t < |s.threads| && s.threads[t].Writing? { assert WritingOk(s, s.threads[t]); }
    assert Seen(s, a)[o] == SeenByte(s, a, o);
  }

  // One byte of the copy arrives, and the others stay.
  lemma CopyStep(s: State, t: nat, q: nat, o: nat, from: nat, c: nat, k: nat)
    requires Inv(s) && Enabled(s, t, Copy(q, o, from)) && Live(s.serial.runs, c) && ReadHeader(s.serial, q) == c
    requires k < BlockAt(s.serial.runs, c).req && from < |s.heap.mem|
    ensures var s' := StoreAt(s, q + o, s.heap.mem[from]);
            && s' == Next(s, t, Copy(q, o, from))
            && Inv(s') && Live(s'.serial.runs, c) && BlockAt(s'.serial.runs, c) == BlockAt(s.serial.runs, c)
            && BlockAt(s.serial.runs, c).Payload() + k < |s.heap.mem| == |s'.heap.mem|
            && SeenByte(s', c, k) == if k == o then s.heap.mem[from] else SeenByte(s, c, k)
  {
    hide Valid, Inv, HeaderOf, MayStore, Live, BlockAt;
    StoreKeeps(s, q, o, s.heap.mem[from]);
    OwnedLive(s.serial, q, o);
    SeenByteIs(s, c, k);
    SeenByteIs(s, c, o);
  }

  // The step copies one of the first n bytes of the block at p to the same
  // place of the block at q.
  predicate CopiesOne(act: Action, p: nat, q: nat, n: nat) {
    act.Copy? && act.p == q && act.offset < n && act.from == p + act.offset
  }

  ghost predicate CopiedBy(steps: seq<(nat, Action)>, i: nat, j: nat, p: nat, q: nat, o: nat) {
    exists k :: i <= k < j <= |steps| && steps[k].1 == Copy(q, o, p + o)
  }

  // While the bytes of one block are copied into another, in steps among which
  // anything may happen but to these two blocks, each byte copied so far is in
  // the new block, for all to see.
  lemma {:induction false} CopyOverTrace(ss: seq<State>, steps: seq<(nat, Action)>, i: nat, j: nat,
                                         a: nat, c: nat, n: nat, o: nat)
    requires Trace(ss, steps) && Start(ss[0]) && i <= j <= |steps| && a != c
    requires Live(ss[i].serial.runs, a) && Live(ss[i].serial.runs, c)
    requires o < n <= BlockAt(ss[i].serial.runs, a).req && n <= BlockAt(ss[i].serial.runs, c).req
    requires var p, q := BlockAt(ss[i].serial.runs, a).Payload(), BlockAt(ss[i].serial.runs, c).Payload();
             forall k :: i <= k < j ==>
               && !Aims(ss[k], steps[k].0, steps[k].1, a)
               && (Aims(ss[k], steps[k].0, steps[k].1, c) ==> CopiesOne(steps[k].1, p, q, n))
    ensures var p, q := BlockAt(ss[i].serial.runs, a).Payload(), BlockAt(ss[i].serial.runs, c).Payload();
            && Live(ss[j].serial.runs, c) && BlockAt(ss[j].serial.runs, c) == BlockAt(ss[i].serial.runs, c)
            && p + o < |ss[i].heap.mem| && q + o < |ss[j].heap.mem|
            && (CopiedBy(steps, i, j, p, q, o) ==> SeenByte(ss[j], c, o) == SeenByte(ss[i], a, o))
    decreases j
  {
    hide Inv, Start, Next, Enabled, Live, BlockAt, Aims, Contents, Seen, Untouched, CopiedBy, CopiesOne, Block.Payload;
    InvOverTrace(ss, steps, i);
    SeenByteIs(ss[i], a, o);
    SeenByteIs(ss[i], c, o);
    NothingCopied(steps, i, BlockAt(ss[i].serial.runs, a).Payload(), BlockAt(ss[i].serial.runs, c).Payload(), o);
    if i < j {
      CopyOverTrace(ss, steps, i, j - 1, a, c, n, o);
      CopyLast(ss, steps, i, j - 1, a, c, n, o);
      CopiedByStep(steps, i, j - 1, BlockAt(ss[i].serial.runs, a).Payload(), BlockAt(ss[i].serial.runs, c).Payload(),
                   o);
    }
  }

  lemma NothingCopied(steps: seq<(nat, Action)>, i: nat, p: nat, q: nat, o: nat)
    ensures !CopiedBy(steps, i, i, p, q, o)
  {
  }

  lemma CopiedByStep(steps: seq<(nat, Action)>, i: nat, j: nat, p: nat, q: nat, o: nat)
    requires i <= j < |steps|
    ensures CopiedBy(steps, i, j + 1, p, q, o) <==> CopiedBy(steps, i, j, p, q, o) || steps[j].1 == Copy(q, o, p + o)
  {
    if steps[j].1 == Copy(q, o, p + o) { assert i <= j < j + 1 <= |steps|; }
    if CopiedBy(steps, i, j, p, q, o) {
      var k :| i <= k < j <= |steps| && steps[k].1 == Copy(q, o, p + o);
      assert i <= k < j + 1 <= |steps|;
    }
  }

  // The last step of such a copy.
  lemma CopyLast(ss: seq<State>, steps: seq<(nat, Action)>, i: nat, j: nat, a: nat, c: nat, n: nat, o: nat)
    requires Trace(ss, steps) && Start(ss[0]) && i <= j < |steps| && a != c
    requires Live(ss[i].serial.runs, a) && Live(ss[j].serial.runs, c)
    requires o < n <= BlockAt(ss[i].serial.runs, a).req && n <= BlockAt(ss[j].serial.runs, c).req
    requires var p, q := BlockAt(ss[i].serial.runs, a).Payload(), BlockAt(ss[j].serial.runs, c).Payload();
             && (forall k :: i <= k <= j ==> !Aims(ss[k], steps[k].0, steps[k].1, a))
             && (Aims(ss[j], steps[j].0, steps[j].1, c) ==> CopiesOne(steps[j].1, p, q, n))
    ensures var p, q := BlockAt(ss[i].serial.runs, a).Payload(), BlockAt(ss[j].serial.runs, c).Payload();
            && Live(ss[j + 1].serial.runs, c) && BlockAt(ss[j + 1].serial.runs, c) == BlockAt(ss[j].serial.runs, c)
            && p + o < |ss[i].heap.mem| && q + o < |ss[j].heap.mem| == |ss[j + 1].heap.mem|
            && SeenByte(ss[j + 1], c, o) ==
               if steps[j].1 == Copy(q, o, p + o) then SeenByte(ss[i], a, o) else SeenByte(ss[j], c, o)
  {
    hide Inv, Start, Enabled, Live, BlockAt, Contents, Seen, Untouched, Aims, Next, ReadHeader;
    InvOverTrace(ss, steps, i);
    InvOverTrace(ss, steps, j);
    InvOverTrace(ss, steps, j + 1);
    var t, act := steps[j].0, steps[j].1;
    assert Enabled(ss[j], t, act);
    EnabledThread(ss[j], t, act);
    assert ss[j + 1] == Next(ss[j], t, act);
    SeenByteIs(ss[i], a, o);
    SeenByteIs(ss[j], c, o);
    NoteLeadsBack(ss[j], c);
    if Aims(ss[j], t, act, c) {
      AimedCopy(ss[j], t, act, c);
      CopyFrom(ss[j], t, act);
      CopyStep(ss[j], t, act.p, act.offset, act.from, c, o);
      if act.offset == o {
        UntouchedOverTrace(ss, steps, i, j, a);
        LiveAfter(ss[i].serial, ss[j].serial, a);
        SeenByteIs(ss[j], a, o);
      }
    } else {
      CopyAims(ss[j], t, act, c);
      StepFrame(ss[j], t, act, c);
      LiveAfter(ss[j].serial, ss[j + 1].serial, c);
      SeenByteIs(ss[j + 1], c, o);
    }
  }

  lemma EnabledThread(s: State, t: nat, act: Action)
    requires Enabled(s, t, act)
    ensures t < |s.threads|
  {
  }

  lemma AimedCopy(s: State, t: nat, act: Action, c: nat)
    requires act.Copy? && Aims(s, t, act, c)
    ensures ReadHeader(s.serial, act.p) == c
  {
  }

  lemma CopyFrom(s: State, t: nat, act: Action)
    requires act.Copy? && Enabled(s, t, act)
    ensures act.from < |s.heap.mem|
  {
  }

  lemma CopyAims(s: State, t: nat, act: Action, c: nat)
    requires !Aims(s, t, act, c) && t < |s.threads|
    ensures act.Copy? ==> ReadHeader(s.serial, act.p) != c
  {
  }

  // ---------- realloc, step by step ----------

  // The thread of the step enters this section.
  ghost predicate EntersSection(s: State, step: (nat, Action), section: Section) {
    step.0 < |s.threads| && step.1.Load? && s.threads[step.0] == Holding(section)
  }

  // A section that finds the block too small changes nothing.
  lemma ResizeLeaves(s: State, t: nat, grant: nat, word: nat, a: nat, size: nat)
    requires Inv(s) && Enabled(s, t, Load(grant, word)) && s.threads[t] == Holding(ResizeSection(a, size))
    requires Live(s.serial.runs, a) && BlockAt(s.serial.runs, a).req < size
    ensures var s' := Next(s, t, Load(grant, word)); s'.serial == s.serial && s'.heap == s.heap
  {
    hide Inv, Live, BlockAt, GrantFits, KeepsTrack, Made;
  }

  // A malloc section makes a block of its own.
  lemma MallocMakes(s: State, t: nat, grant: nat, word: nat, size: nat, a: nat)
    requires Inv(s) && Enabled(s, t, Load(grant, word)) && s.threads[t] == Holding(MallocSection(size))
    requires Live(s.serial.runs, a) && Made(MallocSection(size), s.serial, grant).Some?
    ensures var s' := Next(s, t, Load(grant, word)); var c := Made(MallocSection(size), s.serial, grant).value;
            && c != a && Live(s'.serial.runs, c)
            && BlockAt(s'.serial.runs, c).req == size
            && BlockAt(s'.serial.runs, c).Payload() == Malloc(s.serial, size, grant).ptr
  {
    hide Valid, Malloc, Live, BlockAt, TagAddress, Tag, HeaderOf, WritingOk;
    HolderSees(s, t);
    LoadFits(s, t, grant, word);
    PerformMemory(MallocSection(size), s.serial, grant, word);
    NewBlockIsNew(s.serial, size, grant, a);
  }

  // What is asked of the steps of one realloc that has to grow its block: at i
  // it looks at the block at a, at k it makes the block at c, then it copies,
  // and at m it enters the free. In between anything may happen but calls and
  // stores aimed at the two blocks.
  ghost predicate Grows(ss: seq<State>, steps: seq<(nat, Action)>, i: nat, k: nat, m: nat, a: nat, size: nat, c: nat)
    requires Trace(ss, steps) && i < k < m < |steps|
  {
    && Live(ss[i].serial.runs, a) && BlockAt(ss[i].serial.runs, a).req < size
    && EntersSection(ss[i], steps[i], ResizeSection(a, size))
    && EntersSection(ss[k], steps[k], MallocSection(size))
    && Made(MallocSection(size), ss[k].serial, steps[k].1.grant) == Some(c)
    && EntersSection(ss[m], steps[m], FreeSection(a))
    && (forall u :: i < u < m ==> !Aims(ss[u], steps[u].0, steps[u].1, a))
    && var n := BlockAt(ss[i].serial.runs, a).req;
       var p, q := BlockAt(ss[i].serial.runs, a).Payload(), Malloc(ss[k].serial, size, steps[k].1.grant).ptr;
       && (forall u :: k < u < m ==> Aims(ss[u], steps[u].0, steps[u].1, c) ==> CopiesOne(steps[u].1, p, q, n))
       && AllCopied(steps, k + 1, m, p, q, n)
  }

  // Each of the first n bytes is copied at some step.
  ghost predicate AllCopied(steps: seq<(nat, Action)>, i: nat, j: nat, p: nat, q: nat, n: nat) {
    forall o :: 0 <= o < n ==> CopiedBy(steps, i, j, p, q, o)
  }

  // Up to the free both blocks are there.
  lemma GrownBlock(ss: seq<State>, steps: seq<(nat, Action)>, i: nat, k: nat, m: nat, a: nat, size: nat, c: nat)
    requires Trace(ss, steps) && Start(ss[0]) && i < k < m < |steps| && Grows(ss, steps, i, k, m, a, size, c)
    ensures ss[i + 1].heap == ss[i].heap && ss[i + 1].serial == ss[i].serial
    ensures forall u :: i < u < m ==> !Aims(ss[u], steps[u].0, steps[u].1, a)
    ensures a != c && Live(ss[k + 1].serial.runs, c) && Live(ss[m].serial.runs, a) && Live(ss[m].serial.runs, c)
    ensures BlockAt(ss[m].serial.runs, c) == BlockAt(ss[k + 1].serial.runs, c)
    ensures BlockAt(ss[m].serial.runs, c).req == size
    ensures BlockAt(ss[m].serial.runs, c).Payload() == Malloc(ss[k].serial, size, steps[k].1.grant).ptr
  {
    hide Inv, Start, Next, Enabled, Live, BlockAt, Aims, Contents, Seen, Untouched, CopiesOne, CopiedBy, Made, Malloc,
      ReadHeader, AllCopied;
    InvOverTrace(ss, steps, i);
    InvOverTrace(ss, steps, k);
    assert Enabled(ss[i], steps[i].0, steps[i].1) && Enabled(ss[k], steps[k].0, steps[k].1);
    assert ss[i + 1] == Next(ss[i], steps[i].0, steps[i].1) && ss[k + 1] == Next(ss[k], steps[k].0, steps[k].1);
    ResizeLeaves(ss[i], steps[i].0, steps[i].1.grant, steps[i].1.word, a, size);
    UntouchedOverTrace(ss, steps, i + 1, k, a);
    UntouchedOverTrace(ss, steps, i + 1, m, a);
    MallocMakes(ss[k], steps[k].0, steps[k].1.grant, steps[k].1.word, size, a);
    forall u | k + 1 <= u < m ensures !Enters(ss[u], steps[u].0, steps[u].1, c) { NoLoadCopies(steps[u].1); }
    BlockOverTrace(ss, steps, k + 1, m, c);
  }

  lemma NoLoadCopies(act: Action)
    ensures forall p, q, n :: CopiesOne(act, p, q, n) ==> !act.Load?
  {
  }

  // After the copy every byte of the old block is in the new one.
  lemma GrownBytes(ss: seq<State>, steps: seq<(nat, Action)>, i: nat, k: nat, m: nat, a: nat, size: nat, c: nat, o: nat)
    requires Trace(ss, steps) && Start(ss[0]) && i < k < m < |steps| && Grows(ss, steps, i, k, m, a, size, c)
    requires o < BlockAt(ss[i].serial.runs, a).req
    ensures SameByte(ss[i], a, ss[m], c, o)
  {
    hide Inv, Start, Next, Enabled, Live, BlockAt, Aims, Contents, Seen, Untouched, CopiesOne, CopiedBy, Made, Malloc,
      ReadHeader;
    GrownBlock(ss, steps, i, k, m, a, size, c);
    UntouchedOverTrace(ss, steps, i + 1, k + 1, a);
    LiveAfter(ss[i + 1].serial, ss[k + 1].serial, a);
    CopyOverTrace(ss, steps, k + 1, m, a, c, BlockAt(ss[i].serial.runs, a).req, o);
    InvOverTrace(ss, steps, i);
    InvOverTrace(ss, steps, i + 1);
    InvOverTrace(ss, steps, k + 1);
    SeenByteIs(ss[i], a, o);
    SeenByteIs(ss[i + 1], a, o);
    SeenByteIs(ss[k + 1], a, o);
  }

  lemma MallocAims(s: State, step: (nat, Action), size: nat, a: nat)
    requires EntersSection(s, step, MallocSection(size))
    ensures !Aims(s, step.0, step.1, a)
  {
  }

  lemma FreeAims(s: State, step: (nat, Action), a: nat, c: nat)
    requires EntersSection(s, step, FreeSection(a)) && a != c
    ensures !Aims(s, step.0, step.1, c)
  {
  }

  // Byte o of the block at c in s' is that of the block at a in s.
  predicate SameByte(s: State, a: nat, s': State, c: nat, o: nat) {
    && Live(s.serial.runs, a) && Live(s'.serial.runs, c)
    && BlockAt(s.serial.runs, a).Payload() + o < |s.heap.mem|
    && BlockAt(s'.serial.runs, c).Payload() + o < |s'.heap.mem|
    && SeenByte(s', c, o) == SeenByte(s, a, o)
  }

  // After the free the new block is left.
  lemma StillGrown(ss: seq<State>, steps: seq<(nat, Action)>, i: nat, k: nat, m: nat, j: nat,
                   a: nat, size: nat, c: nat)
    requires Trace(ss, steps) && Start(ss[0]) && i < k < m < j <= |steps| && Grows(ss, steps, i, k, m, a, size, c)
    requires forall u :: m < u < j ==> !Aims(ss[u], steps[u].0, steps[u].1, c)
    ensures !Live(ss[m + 1].serial.runs, a) && Live(ss[m].serial.runs, c) && Untouched(ss[m].serial, ss[j].serial, c)
    ensures BlockAt(ss[m].serial.runs, c).req == size
    ensures BlockAt(ss[m].serial.runs, c).Payload() == Malloc(ss[k].serial, size, steps[k].1.grant).ptr
  {
    hide Inv, Start, Next, Enabled, Live, BlockAt, Aims, Contents, Seen, Untouched, Made, Malloc;
    GrownBlock(ss, steps, i, k, m, a, size, c);
    InvOverTrace(ss, steps, m);
    assert Enabled(ss[m], steps[m].0, steps[m].1) && ss[m + 1] == Next(ss[m], steps[m].0, steps[m].1);
    FreeEnds(ss[m], steps[m].0, steps[m].1.grant, steps[m].1.word, a);
    FreeAims(ss[m], steps[m], a, c);
    UntouchedOverTrace(ss, steps, m, j, c);
  }

  lemma SameByteLater(s: State, a: nat, s1: State, s2: State, c: nat, o: nat)
    requires Inv(s1) && Inv(s2) && SameByte(s, a, s1, c, o) && Untouched(s1.serial, s2.serial, c)
    requires o < BlockAt(s1.serial.runs, c).req
    ensures SameByte(s, a, s2, c, o)
  {
    hide Inv, Live, BlockAt, Contents, Untouched;
    LiveAfter(s1.serial, s2.serial, c);
    SeenByteIs(s1, c, o);
    SeenByteIs(s2, c, o);
  }

  // A realloc that grows its block among other threads' steps ends with the old
  // block gone and a new one of the new size that holds all its bytes, for as
  // long as nobody aims at that.
  lemma ReallocOverTrace(ss: seq<State>, steps: seq<(nat, Action)>, i: nat, k: nat, m: nat, j: nat,
                         a: nat, size: nat, c: nat)
    requires Trace(ss, steps) && Start(ss[0]) && i < k < m < j <= |steps| && Grows(ss, steps, i, k, m, a, size, c)
    requires forall u :: m < u < j ==> !Aims(ss[u], steps[u].0, steps[u].1, c)
    ensures !Live(ss[m + 1].serial.runs, a) && Live(ss[j].serial.runs, c)
    ensures BlockAt(ss[j].serial.runs, c).req == size
    ensures BlockAt(ss[j].serial.runs, c).Payload() == Malloc(ss[k].serial, size, steps[k].1.grant).ptr
    ensures forall o: nat :: o < BlockAt(ss[i].serial.runs, a).req ==> SameByte(ss[i], a, ss[j], c, o)
  {
    hide Inv, Start, Next, Enabled, Live, BlockAt, Aims, Made, Malloc, SameByte, Untouched, Contents;
    StillGrown(ss, steps, i, k, m, j, a, size, c);
    LiveAfter(ss[m].serial, ss[j].serial, c);
    InvOverTrace(ss, steps, m);
    InvOverTrace(ss, steps, j);
    forall o: nat | o < BlockAt(ss[i].serial.runs, a).req ensures SameByte(ss[i], a, ss[j], c, o) {
      GrownBytes(ss, steps, i, k, m, a, size, c, o);
      SameByteLater(ss[i], a, ss[m], ss[j], c, o);
    }
  }

  lemma FreeEnds(s: State, t: nat, grant: nat, word: nat, a: nat)
    requires Inv(s) && Enabled(s, t, Load(grant, word)) && s.threads[t] == Holding(FreeSection(a))
    requires Live(s.serial.runs, a)
    ensures !Live(Next(s, t, Load(grant, word)).serial.runs, a)
  {
    hide Valid, Live, GrantFits, KeepsTrack, Made, Perform, WritingOk;
    FreeSectionEnds(s.serial, a, word);
    GrantDoesNotMatter(s.serial, a, grant, word);
  }

  lemma GrantDoesNotMatter(h: Heap, a: nat, grant: nat, word: nat)
    ensures Perform(FreeSection(a), h, grant, word) == Perform(FreeSection(a), h, 0, word)
  {
  }

  // ---------- the counter of warnings ----------

  predicate Counting(p: Phase) { (p.Writing? || p.FreeingNull?) && p.warning.Fetched? }

  // A section has counted a warning that is not yet in the shared counter.
  ghost predicate Owes(s: State) {
    exists t :: 0 <= t < |s.threads| && s.threads[t].Writing? && !s.threads[t].warning.NoWarning?
  }

  // first is the counter at the start. It lags behind the increments if one of
  // them was lost, and never runs ahead of them.
  ghost predicate CountInv(s: State, first: nat) {
    && s.heap.warnings <= first + s.bumps
    && (s.heap.warnings == first + s.bumps <==> s.alone)
    && s.serial.warnings == first + s.bumps + (if Owes(s) then 1 else 0)
    && (forall t :: 0 <= t < |s.threads| && Counting(s.threads[t]) ==>
          var q := s.threads[t].warning;
          q.bumps <= s.bumps && q.seen <= first + q.bumps && (q.bumps == s.bumps ==> q.seen == s.heap.warnings))
  }

  lemma CountLoad(s: State, t: nat, grant: nat, word: nat, first: nat)
    requires Inv(s) && CountInv(s, first) && Enabled(s, t, Load(grant, word))
    ensures CountInv(Loaded(s, t, grant, word), first)
  {
    hide Valid, Perform, Made, GrantFits, KeepsTrack, Callable, WritingOk;
    var s' := Loaded(s, t, grant, word);
    HolderSees(s, t);
    PerformApart(s.threads[t].section, s.serial, grant, word, s.heap.warnings);
    assert In(s.threads[t]) && !Owes(s);
    assert forall u :: 0 <= u < |s.threads| && u != t ==> s'.threads[u] == s.threads[u];
    assert s'.threads[t].Writing?;
  }

  lemma CountBump(s: State, t: nat, first: nat)
    requires Inv(s) && CountInv(s, first) && Enabled(s, t, Bump)
    ensures CountInv(BumpBy(s, t), first)
  {
    hide Valid, WritingOk, Calls;
    var s' := BumpBy(s, t);
    assert Counting(s.threads[t]);
    assert forall u :: 0 <= u < |s.threads| && u != t ==> s'.threads[u] == s.threads[u];
    if s.threads[t].Writing? {
      assert forall u :: 0 <= u < |s.threads| && u != t ==> !In(s.threads[u]);
      assert Owes(s) && !Owes(s');
    } else {
      assert Owes(s') <==> Owes(s) by { SameOwes(s, s', t); }
    }
  }

  lemma SameOwes(s: State, s': State, t: nat)
    requires t < |s.threads| == |s'.threads|
    requires forall u :: 0 <= u < |s.threads| && u != t ==> s'.threads[u] == s.threads[u]
    requires s.threads[t].Writing? && !s.threads[t].warning.NoWarning?
        <==> s'.threads[t].Writing? && !s'.threads[t].warning.NoWarning?
    ensures Owes(s') <==> Owes(s)
  {
    if Owes(s) {
      var u :| 0 <= u < |s.threads| && s.threads[u].Writing? && !s.threads[u].warning.NoWarning?;
      assert s'.threads[u].Writing? && !s'.threads[u].warning.NoWarning?;
    }
    if Owes(s') {
      var u :| 0 <= u < |s'.threads| && s'.threads[u].Writing? && !s'.threads[u].warning.NoWarning?;
      assert s.threads[u].Writing? && !s.threads[u].warning.NoWarning?;
    }
  }

  lemma CountStep(s: State, t: nat, a: Action, first: nat)
    requires Inv(s) && CountInv(s, first) && Enabled(s, t, a)
    ensures CountInv(Next(s, t, a), first)
  {
    hide Valid, Perform, Made, GrantFits, KeepsTrack, MayStore, Inv, Live, BlockAt, Mark, HeaderOf, Owes, Loaded,
      BumpBy;
    var s' := Next(s, t, a);
    match a {
      case Load(grant, word) => CountLoad(s, t, grant, word, first);
      case Bump => CountBump(s, t, first);
      case Store(p, offset, value) => assert s'.threads == s.threads; SameOwes(s, s', t);
      case Copy(p, offset, from) => assert s'.threads == s.threads; SameOwes(s, s', t);
      case _ => SameOwes(s, s', t);
    }
  }

  lemma {:induction false} CountOverTrace(ss: seq<State>, steps: seq<(nat, Action)>, i: nat)
    requires Trace(ss, steps) && Start(ss[0]) && i <= |steps|
    ensures CountInv(ss[i], ss[0].heap.warnings)
  {
    hide Inv, Next, Enabled, CountInv;
    if i == 0 {
      CountStart(ss[0]);
    } else {
      CountOverTrace(ss, steps, i - 1);
      InvOverTrace(ss, steps, i - 1);
      assert Enabled(ss[i - 1], steps[i - 1].0, steps[i - 1].1);
      CountStep(ss[i - 1], steps[i - 1].0, steps[i - 1].1, ss[0].heap.warnings);
    }
  }

  lemma CountStart(s: State)
    requires Start(s)
    ensures CountInv(s, s.heap.warnings)
  {
    hide Valid;
  }

  // Step f fetches what step j writes back with one more.
  ghost predicate Pair(steps: seq<(nat, Action)>, f: nat, j: nat) {
    && f < j < |steps| && steps[f].1 == Fetch && steps[j] == (steps[f].0, Bump)
    && forall m :: f < m < j && steps[m].0 == steps[f].0 ==> steps[m].1 != Fetch && steps[m].1 != Bump
  }

  // Among the first n steps an increment was completed between the two accesses
  // of another.
  ghost predicate Overlapped(steps: seq<(nat, Action)>, n: nat) {
    exists f, k, j :: 0 <= f < k < j < n && Pair(steps, f, j) && steps[k].1 == Bump
  }

  // Where a thread that is counting has read the counter.
  lemma {:induction false} FetchOf(ss: seq<State>, steps: seq<(nat, Action)>, i: nat, t: nat) returns (f: nat)
    requires Trace(ss, steps) && Start(ss[0]) && i <= |steps|
    requires t < |ss[i].threads| && Counting(ss[i].threads[t])
    ensures f < i && steps[f] == (t, Fetch) && ss[i].threads[t].warning.bumps == ss[f].bumps
    ensures forall m :: f < m < i && steps[m].0 == t ==> steps[m].1 != Fetch && steps[m].1 != Bump
  {
    hide Valid, Next, Enabled, Counting;
    assert i > 0 by {
      if i == 0 { StartCounts(ss[0], t); }
    }
    assert Enabled(ss[i - 1], steps[i - 1].0, steps[i - 1].1);
    CountingStep(ss[i - 1], steps[i - 1].0, steps[i - 1].1, t);
    if steps[i - 1] == (t, Fetch) {
      f := i - 1;
    } else {
      f := FetchOf(ss, steps, i - 1, t);
    }
  }

  lemma StartCounts(s: State, t: nat)
    requires Start(s) && t < |s.threads|
    ensures !Counting(s.threads[t])
  {
    hide Valid;
  }

  // A thread that is counting has just begun, or goes on as before.
  lemma CountingStep(s: State, u: nat, a: Action, t: nat)
    requires Enabled(s, u, a) && t < |Next(s, u, a).threads| && Counting(Next(s, u, a).threads[t])
    ensures t < |s.threads|
    ensures if u == t && a == Fetch then Next(s, u, a).threads[t].warning.bumps == s.bumps
            else Counting(s.threads[t]) && s.threads[t].warning == Next(s, u, a).threads[t].warning
                 && (u == t ==> a != Bump)
  {
    hide Perform, Made, GrantFits, KeepsTrack, MayStore, Live, BlockAt, Mark, HeaderOf;
  }

  lemma {:induction false} BumpsBetween(ss: seq<State>, steps: seq<(nat, Action)>, f: nat, i: nat)
    requires Trace(ss, steps) && f <= i <= |steps|
    ensures ss[f].bumps <= ss[i].bumps
    ensures ss[f].bumps == ss[i].bumps <==> forall k :: f <= k < i ==> steps[k].1 != Bump
    decreases i
  {
    hide Perform, Made, GrantFits, KeepsTrack, MayStore, Live, BlockAt, Mark, HeaderOf;
    if f < i {
      BumpsBetween(ss, steps, f, i - 1);
      assert Enabled(ss[i - 1], steps[i - 1].0, steps[i - 1].1);
    }
  }

  lemma {:induction false} AloneOverTrace(ss: seq<State>, steps: seq<(nat, Action)>, i: nat)
    requires Trace(ss, steps) && Start(ss[0]) && i <= |steps|
    ensures ss[i].alone <==> !Overlapped(steps, i)
  {
    hide Valid, Next, Enabled, Counting, Pair, Overlapped;
    if i == 0 {
      StartAlone(ss[0], steps);
    } else {
      AloneOverTrace(ss, steps, i - 1);
      var t, a := steps[i - 1].0, steps[i - 1].1;
      assert Enabled(ss[i - 1], t, a);
      EnabledThread(ss[i - 1], t, a);
      AloneStep(ss[i - 1], t, a);
      if a == Bump {
        var f := FetchOf(ss, steps, i - 1, t);
        BumpsBetween(ss, steps, f, i - 1);
        PairIs(steps, f, i - 1);
        OverlapStep(steps, i - 1, f);
      } else {
        OverlapSame(steps, i - 1);
      }
    }
  }

  lemma StartAlone(s: State, steps: seq<(nat, Action)>)
    requires Start(s)
    ensures s.alone && !Overlapped(steps, 0)
  {
    hide Valid;
  }

  lemma AloneStep(s: State, t: nat, a: Action)
    requires Enabled(s, t, a) && t < |s.threads|
    ensures a != Bump ==> Next(s, t, a).alone == s.alone
    ensures a == Bump ==>
              Counting(s.threads[t]) && Next(s, t, a).alone == (s.alone && s.threads[t].warning.bumps == s.bumps)
  {
    hide Perform, Made, GrantFits, KeepsTrack, MayStore, Live, BlockAt, Mark, HeaderOf;
  }

  lemma PairIs(steps: seq<(nat, Action)>, f: nat, j: nat)
    requires f < j < |steps| && steps[f].1 == Fetch && steps[j] == (steps[f].0, Bump)
    requires forall m :: f < m < j && steps[m].0 == steps[f].0 ==> steps[m].1 != Fetch && steps[m].1 != Bump
    ensures Pair(steps, f, j) && forall g: nat :: Pair(steps, g, j) ==> g == f
  {
  }

  lemma OverlapSame(steps: seq<(nat, Action)>, j: nat)
    requires j < |steps| && steps[j].1 != Bump
    ensures Overlapped(steps, j + 1) <==> Overlapped(steps, j)
  {
    if Overlapped(steps, j) {
      var f, k, l :| 0 <= f < k < l < j && Pair(steps, f, l) && steps[k].1 == Bump;
      assert l < j + 1;
    }
  }

  lemma OverlapStep(steps: seq<(nat, Action)>, j: nat, f: nat)
    requires j < |steps| && Pair(steps, f, j) && forall g: nat :: Pair(steps, g, j) ==> g == f
    ensures Overlapped(steps, j + 1) <==> Overlapped(steps, j) || exists k :: f < k < j && steps[k].1 == Bump
  {
    hide Pair;
    if Overlapped(steps, j) {
      var g, k, l :| 0 <= g < k < l < j && Pair(steps, g, l) && steps[k].1 == Bump;
      assert l < j + 1;
    }
    if k :| f < k < j && steps[k].1 == Bump {
      assert 0 <= f < k < j < j + 1;
    }
  }

  // The shared counter of warnings never runs ahead of the serial one. While no
  // section has one to write it is exactly that, unless two increments
  // overlapped: then, and only then, a warning was lost.
  lemma WarningsAreSerial(ss: seq<State>, steps: seq<(nat, Action)>, i: nat)
    requires Trace(ss, steps) && Start(ss[0]) && i <= |steps|
    ensures ss[i].heap.warnings <= Serial(ss[0].heap, ss[i].log).warnings
    ensures !Owes(ss[i]) ==>
              (ss[i].heap.warnings == Serial(ss[0].heap, ss[i].log).warnings <==> !Overlapped(steps, i))
  {
    hide Inv, Serial, Overlapped, Owes, Next, Enabled;
    InvOverTrace(ss, steps, i);
    CountOverTrace(ss, steps, i);
    AloneOverTrace(ss, steps, i);
  }

  // Two frees of null of which one is lost.
  lemma LostWarning(s: State)
    requires Start(s) && |s.threads| == 2
    ensures var s1 := Next(s, 0, Fetch); var s2 := Next(s1, 1, Fetch);
            var s3 := Next(s2, 0, Bump); var s4 := Next(s3, 1, Bump);
            && Enabled(s, 0, Fetch) && Enabled(s1, 1, Fetch) && Enabled(s2, 0, Bump) && Enabled(s3, 1, Bump)
            && s4.heap.warnings == s.heap.warnings + 1 && s4.serial.warnings == s.heap.warnings + 2
  {
    hide Valid;
  }
}
