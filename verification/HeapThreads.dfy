// The heap under its spinlock: any number of threads, each critical section
// taking many small steps, callers storing into their blocks and freeing null
// without the lock all the while, and every interleaving of these.
module HeapThreads {
  import opened ByteSeqs
  import opened Wrappers
  import opened HeapModel
  import opened HeapSafety
  import opened HeapContents
  import opened HeapSections
  import HeapGeometry

  // ---------- states and steps ----------

  // The shared words a section writes, besides the note and the counter of
  // warnings.
  datatype Field = Runs | Bet | Note | Acquired | Inuse | Errors | Overruns

  const ALL_FIELDS: set<Field> := {Runs, Bet, Note, Acquired, Inuse, Errors, Overruns}

  // What a thread still has to do to the counter of warnings: nothing, one
  // increment, or the second half of it. bumps is the number of increments
  // completed when it read the counter.
  datatype Warning = NoWarning | Due | Fetched(seen: nat, bumps: nat)

  // A thread is outside, spins on the flag, holds the lock, or is writing its
  // results back field by field: before is what it loaded, target what it
  // computed. FreeingNull is a free of null, which increments the counter of
  // warnings without the lock.
  datatype Phase =
    | Outside
    | FreeingNull(warning: Warning)
    | Spinning(section: Section)
    | Holding(section: Section)
    | Writing(section: Section, before: Heap, target: Heap, made: Option<nat>, pending: set<Field>, warning: Warning)

  // What has happened, in the order in which it took effect.
  datatype Done = Entered(section: Section, grant: nat, word: nat) | Stored(address: nat, value: Byte) | Warned

  // serial is the heap the events of log make when they happen one at a time.
  // bumps counts the completed increments of the counter of warnings, and alone
  // tells whether none of them fell between the two accesses of another.
  datatype State = State(flag: bool, heap: Heap, threads: seq<Phase>, log: seq<Done>, serial: Heap,
                         bumps: nat, alone: bool)

  datatype Action =
    | CallMalloc(req: nat)
    | CallFree(p: nat)
    | CallResize(p: nat, size: nat)
    | TestAndSet
    | Load(grant: nat, word: nat)
    | Write(field: Field)
    | Fetch
    | Bump
    | Unlock
    | Store(p: nat, offset: nat, value: Byte)
    | Copy(p: nat, offset: nat, from: nat)

  predicate In(p: Phase) { p.Holding? || p.Writing? }

  function WriteField(h: Heap, w: Phase, f: Field): Heap
    requires w.Writing?
  {
    match f
    case Runs => h.(runs := w.target.runs)
    case Bet => h.(bet := w.target.bet)
    case Note =>
      if w.made.Some? && Live(w.target.runs, w.made.value) then
        h.(mem := Mark(h.mem, BlockAt(w.target.runs, w.made.value)))
      else h
    case Acquired => h.(acquired := w.target.acquired)
    case Inuse => h.(inuse := w.target.inuse)
    case Errors => h.(errors := w.target.errors)
    case Overruns => h.(overruns := w.target.overruns)
  }

  function WriteByte(h: Heap, address: nat, value: Byte): Heap {
    if address < |h.mem| then h.(mem := h.mem[address := value]) else h
  }

  // Callers store only into the requested bytes of blocks that malloc has made
  // and no free has been entered for; nothing is asked about which thread does
  // it. A section that goes astray ends the run.
  ghost predicate Enabled(s: State, t: nat, a: Action) {
    t < |s.threads| &&
    var p := s.threads[t];
    match a
    case CallMalloc(req) => p.Outside? && Fits32(req)
    case CallFree(q) => p.Outside? && 0 < q < ADDRESS_SPACE
    case CallResize(q, _) => p.Outside? && 0 < q < ADDRESS_SPACE
    case TestAndSet => p.Spinning?
    case Load(grant, word) => p.Holding? && GrantFits(p.section, s.heap, grant) && KeepsTrack(p.section, s.heap, word)
    case Write(f) => p.Writing? && f in p.pending
    case Fetch => p.Outside? || (p.Writing? && p.warning.Due?)
    case Bump => (p.FreeingNull? || p.Writing?) && p.warning.Fetched?
    case Unlock => p.Writing? && p.pending == {} && p.warning.NoWarning?
    case Store(q, offset, _) => p.Outside? && MayStore(s.serial, q, offset)
    case Copy(q, offset, from) => p.Outside? && MayStore(s.serial, q, offset) && from < |s.heap.mem|
  }

  function Called(s: State, t: nat, section: Section): State
    requires t < |s.threads|
  {
    s.(threads := s.threads[t := Spinning(section)])
  }

  function StoreAt(s: State, address: nat, value: Byte): State {
    s.(heap := WriteByte(s.heap, address, value), serial := WriteByte(s.serial, address, value),
       log := s.log + [Stored(address, value)])
  }

  function ReadHeader(h: Heap, p: nat): nat {
    if |h.mem| == ADDRESS_SPACE && p < ADDRESS_SPACE then HeaderOf(h.mem, p) else 0
  }

  function Next(s: State, t: nat, a: Action): State
    requires t < |s.threads|
  {
    var p := s.threads[t];
    match a
    case CallMalloc(req) => Called(s, t, MallocSection(req))
    case CallFree(q) => Called(s, t, FreeSection(ReadHeader(s.heap, q)))
    case CallResize(q, size) => Called(s, t, ResizeSection(ReadHeader(s.heap, q), size))
    case TestAndSet =>
      // The old value of the flag decides whether the thread gets in.
      if p.Spinning? && !s.flag then s.(flag := true, threads := s.threads[t := Holding(p.section)])
      else s.(flag := true)
    case Load(grant, word) => if p.Holding? then Loaded(s, t, grant, word) else s
    case Write(f) => if p.Writing? then Wrote(s, t, f) else s
    case Fetch => FetchBy(s, t)
    case Bump => BumpBy(s, t)
    case Unlock => s.(flag := false, threads := s.threads[t := Outside])
    case Store(q, offset, value) => StoreAt(s, q + offset, value)
    case Copy(q, offset, from) => if from < |s.heap.mem| then StoreAt(s, q + offset, s.heap.mem[from]) else s
  }

  function Loaded(s: State, t: nat, grant: nat, word: nat): State
    requires t < |s.threads| && s.threads[t].Holding?
  {
    var section := s.threads[t].section;
    var target := Perform(section, s.heap, grant, word);
    var warning := if target.warnings == s.heap.warnings then NoWarning else Due;
    s.(threads := s.threads[t := Writing(section, s.heap, target, Made(section, s.heap, grant), ALL_FIELDS, warning)],
       serial := Perform(section, s.serial, grant, word), log := s.log + [Entered(section, grant, word)])
  }

  function Wrote(s: State, t: nat, f: Field): State
    requires t < |s.threads| && s.threads[t].Writing?
  {
    var p := s.threads[t];
    s.(heap := WriteField(s.heap, p, f), threads := s.threads[t := p.(pending := p.pending - {f})])
  }

  // The first access of an increment, by a section or by a free of null.
  function FetchBy(s: State, t: nat): State
    requires t < |s.threads|
  {
    var p := s.threads[t];
    var fetched := Fetched(s.heap.warnings, s.bumps);
    s.(threads := s.threads[t := if p.Writing? then p.(warning := fetched) else FreeingNull(fetched)])
  }

  // The second access: what was read and one more is written.
  function BumpBy(s: State, t: nat): State
    requires t < |s.threads|
  {
    var p := s.threads[t];
    if (p.Writing? || p.FreeingNull?) && p.warning.Fetched? then
      var s1 := s.(heap := s.heap.(warnings := p.warning.seen + 1), bumps := s.bumps + 1,
                   alone := s.alone && p.warning.bumps == s.bumps);
      if p.Writing? then s1.(threads := s.threads[t := p.(warning := NoWarning)])
      else s1.(threads := s.threads[t := Outside], serial := Warn(s.serial), log := s.log + [Warned])
    else s
  }

  // ---------- the serial meaning ----------

  function Warn(h: Heap): Heap { h.(warnings := h.warnings + 1) }

  function Happen(h: Heap, d: Done): Heap {
    match d
    case Entered(section, grant, word) => Perform(section, h, grant, word)
    case Stored(address, value) => WriteByte(h, address, value)
    case Warned => Warn(h)
  }

  function Serial(h: Heap, log: seq<Done>): Heap {
    if log == [] then h else Happen(Serial(h, log[..|log| - 1]), log[|log| - 1])
  }

  lemma SerialStep(h: Heap, log: seq<Done>, d: Done)
    ensures Serial(h, log + [d]) == Happen(Serial(h, log), d)
  {
    assert (log + [d])[..|log|] == log;
  }

  // ---------- the invariant ----------

  // before with the fields not pending replaced by those of target; memory and
  // warnings are another matter.
  function Blend(before: Heap, target: Heap, pending: set<Field>, shared: Heap): Heap {
    Heap(if Runs in pending then before.runs else target.runs,
         if Bet in pending then before.bet else target.bet,
         shared.mem,
         if Acquired in pending then before.acquired else target.acquired,
         if Inuse in pending then before.inuse else target.inuse,
         shared.warnings,
         if Errors in pending then before.errors else target.errors,
         if Overruns in pending then before.overruns else target.overruns)
  }

  ghost predicate PendingNote(w: Phase, x: nat)
    requires w.Writing? && (w.made.Some? ==> Live(w.target.runs, w.made.value))
  {
    w.made.Some? && Note in w.pending && x == TagAddress(BlockAt(w.target.runs, w.made.value))
  }

  // The two memories differ at most in the note that is still to be written.
  ghost predicate MemoriesAgree(mem: seq<Byte>, serial: seq<Byte>, w: Phase)
    requires w.Writing?
  {
    && |mem| == |serial| == ADDRESS_SPACE
    && (w.made.Some? ==> Live(w.target.runs, w.made.value))
    && (forall x :: 0 <= x < ADDRESS_SPACE && !PendingNote(w, x) ==> mem[x] == serial[x])
  }

  // h and g differ at most in the counter of warnings.
  predicate SameButWarnings(h: Heap, g: Heap) { h == g.(warnings := h.warnings) }

  ghost predicate WritingOk(s: State, w: Phase)
    requires w.Writing?
  {
    && s.serial == w.target.(mem := s.serial.mem, warnings := s.serial.warnings)
    && s.heap == Blend(w.before, w.target, w.pending, s.heap)
    && MemoriesAgree(s.heap.mem, s.serial.mem, w)
  }

  ghost predicate OneInside(s: State) {
    forall t, u :: 0 <= t < |s.threads| && 0 <= u < |s.threads| && In(s.threads[t]) && In(s.threads[u]) ==> t == u
  }

  ghost predicate Calls(s: State) {
    forall t :: 0 <= t < |s.threads| && (s.threads[t].Spinning? || In(s.threads[t])) ==> Callable(s.threads[t].section)
  }

  ghost predicate Lock(s: State) {
    && OneInside(s) && Calls(s)
    && (s.flag <==> exists t :: 0 <= t < |s.threads| && In(s.threads[t]))
  }

  ghost predicate Inv(s: State) {
    && Lock(s) && Valid(s.serial)
    && ((forall t :: 0 <= t < |s.threads| ==> !s.threads[t].Writing?) ==> SameButWarnings(s.heap, s.serial))
    && (forall t :: 0 <= t < |s.threads| && s.threads[t].Writing? ==> WritingOk(s, s.threads[t]))
  }

  lemma CallKeeps(s: State, t: nat, section: Section)
    requires Inv(s) && t < |s.threads| && s.threads[t].Outside? && Callable(section)
    ensures Inv(Called(s, t, section))
  {
    hide Valid, Callable, Blend, MemoriesAgree;
    var s' := Called(s, t, section);
    assert forall u :: 0 <= u < |s.threads| ==> (In(s'.threads[u]) <==> In(s.threads[u]));
    assert forall u :: 0 <= u < |s.threads| && s.threads[u].Writing? ==> s'.threads[u] == s.threads[u];
    assert forall u :: 0 <= u < |s.threads| && s'.threads[u].Writing? ==> WritingOk(s, s.threads[u]);
  }

  lemma TestAndSetKeeps(s: State, t: nat)
    requires Inv(s) && Enabled(s, t, TestAndSet)
    ensures Inv(Next(s, t, TestAndSet))
  {
    hide Valid, GrantFits, Callable, Blend, MemoriesAgree;
    var s' := Next(s, t, TestAndSet);
    if !s.flag {
      assert In(s'.threads[t]);
      assert forall u :: 0 <= u < |s.threads| ==> !In(s.threads[u]);
    }
    assert forall u :: 0 <= u < |s.threads| && s'.threads[u].Writing? ==> WritingOk(s, s.threads[u]);
  }

  // The thread that has the lock and has not loaded yet sees the serial heap,
  // but for the counter of warnings.
  lemma HolderSees(s: State, t: nat)
    requires Inv(s) && t < |s.threads| && s.threads[t].Holding?
    ensures SameButWarnings(s.heap, s.serial)
  {
    hide Valid, WritingOk, Calls;
    assert forall u :: 0 <= u < |s.threads| && s.threads[u].Writing? ==> In(s.threads[u]);
    assert In(s.threads[t]);
  }

  lemma WarningsDoNotMatter(h: Heap, w: nat)
    ensures Valid(h.(warnings := w)) <==> Valid(h)
  {
    hide GoodRuns, NoneEmpty, IndexOf, AllTagged, TotalSize, TotalBodies;
  }

  lemma LoadKeeps(s: State, t: nat, grant: nat, word: nat)
    requires Inv(s) && Enabled(s, t, Load(grant, word))
    ensures Inv(Next(s, t, Load(grant, word)))
  {
    hide Valid, Perform, Made, GrantFits, KeepsTrack, Callable, Live, BlockAt, TagAddress;
    var s' := Loaded(s, t, grant, word);
    var p := s.threads[t];
    assert In(p) && In(s'.threads[t]);
    HolderSees(s, t);
    GrantApart(p.section, s.serial, grant, s.heap.warnings);
    PerformKeeps(p.section, s.serial, grant, word);
    PerformApart(p.section, s.serial, grant, word, s.heap.warnings);
    PerformMemory(p.section, s.serial, grant, word);
    ValidMemory(s.serial);
    assert forall u :: 0 <= u < |s.threads| && u != t ==> !In(s'.threads[u]);
    assert WritingOk(s', s'.threads[t]);
  }

  lemma GrantApart(section: Section, h: Heap, grant: nat, w: nat)
    ensures GrantFits(section, h.(warnings := w), grant) <==> GrantFits(section, h, grant)
  {
  }

  lemma BlendStep(before: Heap, w: Phase, f: Field, shared: Heap, shared': Heap)
    requires w.Writing? && shared'.warnings == shared.warnings
    requires f != Note ==> shared'.mem == shared.mem
    requires f == Note ==> shared'.mem == WriteField(Blend(before, w.target, w.pending, shared), w, f).mem
    ensures WriteField(Blend(before, w.target, w.pending, shared), w, f) ==
            Blend(before, w.target, w.pending - {f}, shared')
  {
    hide Live, BlockAt, Mark;
  }

  lemma NoteArrives(s: State, w: Phase)
    requires w.Writing? && WritingOk(s, w) && Valid(s.serial)
    ensures MemoriesAgree(WriteField(s.heap, w, Note).mem, s.serial.mem, w.(pending := w.pending - {Note}))
  {
    hide GoodRuns, NoneEmpty, IndexOf, TotalSize, TotalBodies, Blend, FindRun, FindBlock, TagAddress, Tag;
    if w.made.Some? {
      var b := BlockAt(s.serial.runs, w.made.value);
      var i := FindRun(s.serial.runs, w.made.value);
      assert Tagged(s.serial.mem, s.serial.runs[i].blocks[FindBlock(s.serial.runs[i].blocks, w.made.value)]);
    }
  }

  lemma WriteKeeps(s: State, t: nat, f: Field)
    requires Inv(s) && Enabled(s, t, Write(f))
    ensures Inv(Next(s, t, Write(f)))
  {
    hide Valid, Callable, Live, BlockAt, TagAddress, Blend, Mark;
    var s' := Wrote(s, t, f);
    var p := s.threads[t];
    assert In(p) && In(s'.threads[t]);
    if f == Note { NoteArrives(s, p); }
    BlendStep(p.before, p, f, s.heap, s'.heap);
    assert forall u :: 0 <= u < |s.threads| && u != t ==> !In(s'.threads[u]);
    assert WritingOk(s', s'.threads[t]);
  }

  lemma UnlockKeeps(s: State, t: nat)
    requires Inv(s) && Enabled(s, t, Unlock)
    ensures Inv(Next(s, t, Unlock))
  {
    hide Valid, Callable, Live, BlockAt, TagAddress;
    var s' := Next(s, t, Unlock);
    var p := s.threads[t];
    assert In(p) && WritingOk(s, p);
    assert s.heap.mem == s.serial.mem;
    assert SameButWarnings(s.heap, s.serial);
    assert forall u :: 0 <= u < |s.threads| && u != t ==> !In(s'.threads[u]);
  }

  // Neither access of an increment touches anything but the counter.
  lemma FetchKeeps(s: State, t: nat)
    requires Inv(s) && Enabled(s, t, Fetch)
    ensures Inv(FetchBy(s, t))
  {
    hide Valid, Callable, Blend, MemoriesAgree;
    var s' := FetchBy(s, t);
    assert forall u :: 0 <= u < |s.threads| ==> (In(s'.threads[u]) <==> In(s.threads[u]));
    forall u | 0 <= u < |s.threads| && s'.threads[u].Writing? ensures WritingOk(s', s'.threads[u]) {
      assert WritingOk(s, s.threads[u]);
      WarningElsewhere(s.heap.mem, s.serial.mem, s.threads[u], s'.threads[u].warning);
    }
    assert forall u :: 0 <= u < |s.threads| && s.threads[u].Writing? ==> s'.threads[u].Writing?;
  }

  lemma WarningElsewhere(mem: seq<Byte>, serial: seq<Byte>, w: Phase, warning: Warning)
    requires w.Writing? && MemoriesAgree(mem, serial, w)
    ensures MemoriesAgree(mem, serial, w.(warning := warning))
  {
    assert forall x: nat :: PendingNote(w.(warning := warning), x) <==> PendingNote(w, x);
  }

  lemma BlendShares(before: Heap, target: Heap, pending: set<Field>, shared: Heap, w: nat)
    ensures Blend(before, target, pending, shared.(warnings := w)) ==
            Blend(before, target, pending, shared).(warnings := w)
  {
  }

  lemma BumpKeeps(s: State, t: nat)
    requires Inv(s) && Enabled(s, t, Bump)
    ensures Inv(BumpBy(s, t))
  {
    hide Valid, Callable, MemoriesAgree, Blend;
    var s' := BumpBy(s, t);
    assert forall u :: 0 <= u < |s.threads| ==> (In(s'.threads[u]) <==> In(s.threads[u]));
    forall u | 0 <= u < |s.threads| && s'.threads[u].Writing? ensures WritingOk(s', s'.threads[u]) {
      assert WritingOk(s, s.threads[u]);
      WarningElsewhere(s.heap.mem, s.serial.mem, s.threads[u], s'.threads[u].warning);
      BlendShares(s.threads[u].before, s.threads[u].target, s.threads[u].pending, s.heap, s'.heap.warnings);
    }
    assert forall u :: 0 <= u < |s.threads| && s.threads[u].Writing? ==> s'.threads[u].Writing?;
    WarningsDoNotMatter(s.serial, s.serial.warnings + 1);
  }

  lemma StoreKeeps(s: State, p: nat, offset: nat, value: Byte)
    requires Inv(s) && MayStore(s.serial, p, offset)
    ensures Inv(StoreAt(s, p + offset, value))
  {
    hide Valid, Callable, Live, BlockAt, TagAddress, HeaderOf, OnlyInside, MayStore;
    StoreInside(s.serial, p, offset, value);
    OwnedLive(s.serial, p, offset);
    InsideKeeps(s.serial, s.serial.mem[p + offset := value], HeaderOf(s.serial.mem, p));
    var s' := StoreAt(s, p + offset, value);
    forall u | 0 <= u < |s.threads| && s.threads[u].Writing? ensures WritingOk(s', s.threads[u]) {
      assert WritingOk(s, s.threads[u]);
    }
  }

  lemma OwnedLive(h: Heap, p: nat, offset: nat)
    requires MayStore(h, p, offset)
    ensures |h.mem| == ADDRESS_SPACE && p < ADDRESS_SPACE && Live(h.runs, HeaderOf(h.mem, p))
    ensures p == BlockAt(h.runs, HeaderOf(h.mem, p)).Payload() && offset < BlockAt(h.runs, HeaderOf(h.mem, p)).req
  {
  }

  lemma NextKeeps(s: State, t: nat, a: Action)
    requires Inv(s) && Enabled(s, t, a)
    ensures Inv(Next(s, t, a))
  {
    hide Inv, Called, StoreAt, MayStore, ReadHeader, GrantFits, KeepsTrack, FetchBy, BumpBy;
    match a
    case CallMalloc(req) => CallKeeps(s, t, MallocSection(req));
    case CallFree(p) => CallKeeps(s, t, FreeSection(ReadHeader(s.heap, p)));
    case CallResize(p, size) => CallKeeps(s, t, ResizeSection(ReadHeader(s.heap, p), size));
    case TestAndSet => TestAndSetKeeps(s, t);
    case Load(grant, word) => LoadKeeps(s, t, grant, word);
    case Write(f) => WriteKeeps(s, t, f);
    case Fetch => FetchKeeps(s, t);
    case Bump => BumpKeeps(s, t);
    case Unlock => UnlockKeeps(s, t);
    case Store(p, offset, value) => StoreKeeps(s, p, offset, value);
    case Copy(p, offset, from) => StoreKeeps(s, p, offset, s.heap.mem[from]);
  }
}
