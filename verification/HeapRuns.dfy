// Whole runs of heap calls, and the limits of the 32-bit sums.
module HeapRuns {
  import opened ByteSeqs
  import opened HeapModel
  import opened HeapSafety
  import opened HeapContents
  import opened HeapEffects
  import HeapGeometry

  // ---------- runs ----------

  // A call, with what the provider would grant during it and what word it
  // would find for a magic if its pointer leads to no block. Store is the
  // caller writing one of its requested bytes.
  datatype Op =
    | OpMalloc(req: nat, grant: nat)
    | OpFree(p: nat, magic: nat)
    | OpRealloc(p: nat, size: nat, grant: nat, magic: nat)
    | OpStore(p: nat, offset: nat, value: Byte)

  // What callers may do. A call that faults or goes astray ends the run.
  ghost predicate Allowed(h: Heap, op: Op) {
    |h.mem| == ADDRESS_SPACE &&
    match op
    case OpMalloc(req, grant) => Fits32(req) && Granted(h.runs, grant, PagesFor(BodySize(req)))
    case OpFree(p, magic) => p < ADDRESS_SPACE && FreePtr(h, p, magic).Freed?
    case OpRealloc(p, size, grant, magic) =>
      && p < ADDRESS_SPACE && Fits32(size) && Granted(h.runs, grant, PagesFor(BodySize(size)))
      && (p == 0 || Owned(h, p) || !Live(h.runs, HeaderOf(h.mem, p)))
      && Realloc(h, p, size, grant, magic).Returned?
    case OpStore(p, offset, _) => MayStore(h, p, offset)
  }

  function Step(h: Heap, op: Op): Heap
    requires |h.mem| == ADDRESS_SPACE
  {
    match op
    case OpMalloc(req, grant) => Malloc(h, req, grant).heap
    case OpFree(p, magic) => if p < ADDRESS_SPACE then FreePtr(h, p, magic).heap else h
    case OpRealloc(p, size, grant, magic) =>
      if p < ADDRESS_SPACE then Realloc(h, p, size, grant, magic).heap else h
    case OpStore(p, offset, value) =>
      if p + offset < ADDRESS_SPACE then h.(mem := h.mem[p + offset := value]) else h
  }

  // The call is aimed at the block whose header is at a.
  predicate Targets(h: Heap, op: Op, a: nat)
    requires |h.mem| == ADDRESS_SPACE
  {
    match op
    case OpMalloc(_, _) => false
    case OpFree(p, _) => 0 < p < ADDRESS_SPACE && HeaderOf(h.mem, p) == a
    case OpRealloc(p, _, _, _) => 0 < p < ADDRESS_SPACE && HeaderOf(h.mem, p) == a
    case OpStore(p, _, _) => 0 < p < ADDRESS_SPACE && HeaderOf(h.mem, p) == a
  }

  // Which calls go on, told from the heap before them: free and realloc unless
  // a pointer to no block finds the magic, and realloc unless it would fault.
  lemma CallsGoOn(h: Heap, op: Op)
    requires Valid(h)
    ensures Allowed(h, op) <==>
            match op
            case OpMalloc(req, grant) => Fits32(req) && Granted(h.runs, grant, PagesFor(BodySize(req)))
            case OpFree(p, magic) => p < ADDRESS_SPACE && (p == 0 || magic != MAGIC || Live(h.runs, HeaderOf(h.mem, p)))
            case OpRealloc(p, size, grant, magic) =>
              && p < ADDRESS_SPACE && Fits32(size) && Granted(h.runs, grant, PagesFor(BodySize(size)))
              && if p == 0 then true
                 else if !Live(h.runs, HeaderOf(h.mem, p)) then magic != MAGIC
                 else
                   var n := BlockAt(h.runs, HeaderOf(h.mem, p)).req;
                   Owned(h, p) && !(0 < n < size && grant == 0
                                    && NoRoom(h.runs, 0, |h.runs|, BodySize(size) + MINOR_HEADER))
            case OpStore(p, offset, _) => MayStore(h, p, offset)
  {
    hide Malloc, Realloc, GoodRuns, NoneEmpty, IndexOf, AllTagged, TotalSize, TotalBodies, NoRoom, FindRun, FindBlock,
      PagesFor, Live, BlockAt, HeaderOf, Granted, FreePtr;
    match op
    case OpMalloc(_, _) =>
    case OpFree(p, magic) => if p < ADDRESS_SPACE { FreeStrays(h, p, magic); }
    case OpRealloc(p, size, grant, magic) =>
      if ReallocRequest(h, p, size, grant) {
        if p == 0 || !Live(h.runs, HeaderOf(h.mem, p)) {
          ReallocStrays(h, p, size, grant, magic);
          ReallocNoFault(h, p, size, grant, magic);
        } else if Owned(h, p) {
          ReallocFaults(h, p, size, grant, magic);
          if size > 0 { ReallocOfBlock(h, p, size, grant, magic); } else { ReallocToNothing(h, p, grant, magic); }
        }
      }
    case OpStore(_, _, _) =>
  }

  lemma ReallocNoFault(h: Heap, p: nat, size: nat, grant: nat, magic: nat)
    requires |h.mem| == ADDRESS_SPACE && p < ADDRESS_SPACE && (p == 0 || !Live(h.runs, HeaderOf(h.mem, p)))
    ensures !Realloc(h, p, size, grant, magic).Fault?
  {
    hide Live, HeaderOf, Malloc, Release;
  }

  lemma StepKeeps(h: Heap, op: Op)
    requires Valid(h) && Allowed(h, op)
    ensures Valid(Step(h, op))
  {
    hide Malloc, Realloc, GoodRuns, NoneEmpty, IndexOf, AllTagged, TotalSize, TotalBodies, NoRoom, FindRun, FindBlock;
    match op
    case OpMalloc(req, grant) => MallocKeeps(h, req, grant);
    case OpFree(p, magic) => FreeKeeps(h, p, magic);
    case OpRealloc(p, size, grant, magic) => ReallocKeeps(h, p, size, grant, magic);
    case OpStore(p, offset, value) =>
      StoreInside(h, p, offset, value);
      InsideKeeps(h, h.mem[p + offset := value], HeaderOf(h.mem, p));
  }

  lemma StepFrame(h: Heap, op: Op, a: nat)
    requires Valid(h) && Allowed(h, op) && Live(h.runs, a) && !Targets(h, op, a)
    ensures |Step(h, op).mem| == ADDRESS_SPACE && Untouched(h, Step(h, op), a)
  {
    hide Malloc, Realloc, GoodRuns, NoneEmpty, IndexOf, AllTagged, TotalSize, TotalBodies, NoRoom, FindRun, FindBlock;
    StepKeeps(h, op);
    match op
    case OpMalloc(req, grant) => MallocFrame(h, req, grant, a);
    case OpFree(p, magic) => FreeFrame(h, p, magic, a);
    case OpRealloc(p, size, grant, magic) => ReallocFrame(h, p, size, grant, magic, a);
    case OpStore(p, offset, value) =>
      StoreInside(h, p, offset, value);
      InsideKeeps(h, h.mem[p + offset := value], HeaderOf(h.mem, p));
  }

  // hs is the history of a run of the calls ops.
  ghost predicate History(hs: seq<Heap>, ops: seq<Op>) {
    && |hs| == |ops| + 1
    && (forall t :: 0 <= t < |ops| ==> Allowed(hs[t], ops[t]) && hs[t + 1] == Step(hs[t], ops[t]))
  }

  function Empty(mem: seq<Byte>): Heap { Heap([], 0, mem, 0, 0, 0, 0, 0) }

  lemma EmptyIsValid(mem: seq<Byte>)
    requires |mem| == ADDRESS_SPACE
    ensures Valid(Empty(mem))
  {
  }

  // The first malloc of all takes the front of the granted run, and its pointer
  // is one that free and realloc know.
  lemma FirstMalloc(mem: seq<Byte>, req: nat, grant: nat)
    requires |mem| == ADDRESS_SPACE && Fits32(req)
    requires grant != 0 && grant + PagesFor(BodySize(req)) * PAGE_SIZE <= ADDRESS_SPACE
    ensures Request(Empty(mem), req, grant)
    ensures var m := Malloc(Empty(mem), req, grant);
            Valid(m.heap) && Owned(m.heap, m.ptr) && m.ptr == Align(grant + MAJOR_HEADER + MINOR_HEADER)
  {
    hide Malloc, Valid, PagesFor;
    var h := Empty(mem);
    EmptyIsValid(mem);
    assert Granted(h.runs, grant, PagesFor(BodySize(req)));
    MallocKeeps(h, req, grant);
    MallocSpot(h, req, grant);
    MallocPointer(h, req, grant);
    NewBlockLive(h, req, grant);
    ValidMemory(Malloc(h, req, grant).heap);
  }

  // A heap with one block of ten bytes, asked for more than its run can hold
  // while no pages are left: the bytes are copied to address 0.
  lemma GrowingFaults(mem: seq<Byte>, magic: nat)
    requires |mem| == ADDRESS_SPACE
    ensures var m := Malloc(Empty(mem), 10, 0x10_0000);
            && Valid(m.heap) && Owned(m.heap, m.ptr) && ReallocRequest(m.heap, m.ptr, 100_000, 0)
            && Realloc(m.heap, m.ptr, 100_000, 0, magic).Fault?
  {
    hide Malloc, Realloc, Valid, HasRoom;
    assert PagesFor(BodySize(10)) == 16;
    var h, grant := Empty(mem), 0x10_0000;
    FirstMalloc(mem, 10, grant);
    MallocSpot(h, 10, grant);
    MallocPointer(h, 10, grant);
    var m := Malloc(h, 10, grant);
    assert m.heap.runs == [Run(grant, 16, [Block(grant + MAJOR_HEADER, 42, 10)])];
    assert !HasRoom(m.heap.runs[0], BodySize(100_000) + MINOR_HEADER) by { NoLargeRoom(m.heap.runs[0]); }
    ReallocFaults(m.heap, m.ptr, 100_000, 0, magic);
  }

  lemma NoLargeRoom(r: Run)
    requires r.pages == 16 && |r.blocks| == 1 && r.blocks[0].addr <= r.base + 100 && r.base <= r.blocks[0].addr
    ensures !HasRoom(r, BodySize(100_000) + MINOR_HEADER)
  {
  }

  // From the empty heap on, every state of every run is well formed.
  lemma {:induction false} EveryStateValid(hs: seq<Heap>, ops: seq<Op>, t: nat)
    requires History(hs, ops) && t <= |ops|
    requires exists mem: seq<Byte> :: |mem| == ADDRESS_SPACE && hs[0] == Empty(mem)
    ensures Valid(hs[t])
  {
    if t == 0 {
      EmptyIsValid(hs[0].mem);
    } else {
      EveryStateValid(hs, ops, t - 1);
      assert Allowed(hs[t - 1], ops[t - 1]);
      StepKeeps(hs[t - 1], ops[t - 1]);
    }
  }

  // A live block that no call is aimed at keeps its place and every one of
  // its bytes over the whole run, whatever the other calls do.
  lemma {:induction false} UntouchedOverRuns(hs: seq<Heap>, ops: seq<Op>, a: nat)
    requires History(hs, ops) && Valid(hs[0]) && Live(hs[0].runs, a)
    requires forall t :: 0 <= t < |ops| ==> |hs[t].mem| == ADDRESS_SPACE && !Targets(hs[t], ops[t], a)
    ensures Valid(hs[|ops|]) && Untouched(hs[0], hs[|ops|], a)
    decreases |ops|
  {
    if ops != [] {
      var n := |ops| - 1;
      assert History(hs[..n + 1], ops[..n]) by {
        forall t | 0 <= t < n ensures Allowed(hs[t], ops[t]) && hs[t + 1] == Step(hs[t], ops[t]) {}
      }
      UntouchedOverRuns(hs[..n + 1], ops[..n], a);
      assert Allowed(hs[n], ops[n]) && hs[n + 1] == Step(hs[n], ops[n]);
      StepKeeps(hs[n], ops[n]);
      StepFrame(hs[n], ops[n], a);
    }
  }

  // ---------- page runs over a whole run ----------

  ghost function OpTakes(h: Heap, op: Op): seq<(nat, nat)>
    requires Allowed(h, op)
  {
    match op
    case OpMalloc(req, grant) => Taken(h, req, grant)
    case OpRealloc(p, size, grant, _) => ReallocTakes(h, p, size, grant)
    case _ => []
  }

  ghost function OpGives(h: Heap, op: Op): seq<(nat, nat)>
    requires Allowed(h, op)
  {
    match op
    case OpFree(p, _) => FreeGives(h, p)
    case OpRealloc(p, size, grant, _) => ReallocGives(h, p, size, grant)
    case _ => []
  }

  // What the first t calls took from the provider, and gave back to it.
  ghost function TakenBy(hs: seq<Heap>, ops: seq<Op>, t: nat): seq<(nat, nat)>
    requires History(hs, ops) && t <= |ops|
  {
    if t == 0 then [] else
      assert Allowed(hs[t - 1], ops[t - 1]);
      TakenBy(hs, ops, t - 1) + OpTakes(hs[t - 1], ops[t - 1])
  }

  ghost function GivenBy(hs: seq<Heap>, ops: seq<Op>, t: nat): seq<(nat, nat)>
    requires History(hs, ops) && t <= |ops|
  {
    if t == 0 then [] else
      assert Allowed(hs[t - 1], ops[t - 1]);
      GivenBy(hs, ops, t - 1) + OpGives(hs[t - 1], ops[t - 1])
  }

  lemma StepBooks(h: Heap, op: Op)
    requires Valid(h) && Allowed(h, op)
    ensures Held(Step(h, op)) + multiset(OpGives(h, op)) == Held(h) + multiset(OpTakes(h, op))
  {
    hide Malloc, Realloc, Valid, FreeAt, Held, GivenBack, Taken, ReallocGives, ReallocTakes;
    match op
    case OpMalloc(req, grant) => MallocBooks(h, req, grant);
    case OpFree(p, magic) => if p != 0 { FreeAtBooks(h, HeaderOf(h.mem, p), magic); } else { WarnHeld(h); }
    case OpRealloc(p, size, grant, magic) => ReallocBooks(h, p, size, grant, magic);
    case OpStore(_, _, _) => SameRunsHeld(h, Step(h, op));
  }

  // Over every run from the empty heap, the page runs taken are those held and
  // those given back, each once and with the pages it was requested with; when
  // no block is live, all have been given back.
  lemma {:induction false} PagesConserved(hs: seq<Heap>, ops: seq<Op>, t: nat)
    requires History(hs, ops) && t <= |ops|
    requires exists mem: seq<Byte> :: |mem| == ADDRESS_SPACE && hs[0] == Empty(mem)
    ensures multiset(TakenBy(hs, ops, t)) == Held(hs[t]) + multiset(GivenBy(hs, ops, t))
    ensures (forall a :: !Live(hs[t].runs, a)) ==> multiset(TakenBy(hs, ops, t)) == multiset(GivenBy(hs, ops, t))
  {
    hide Valid, Step, Allowed, OpTakes, OpGives, Live, Held;
    EveryStateValid(hs, ops, t);
    if forall a :: !Live(hs[t].runs, a) { NothingHeld(hs[t]); }
    if t == 0 {
      NothingHeldYet(hs[0].mem);
    } else {
      PagesConserved(hs, ops, t - 1);
      EveryStateValid(hs, ops, t - 1);
      BooksOneMore(hs, ops, t);
    }
  }

  lemma BooksOneMore(hs: seq<Heap>, ops: seq<Op>, t: nat)
    requires History(hs, ops) && 0 < t <= |ops| && Valid(hs[t - 1])
    requires multiset(TakenBy(hs, ops, t - 1)) == Held(hs[t - 1]) + multiset(GivenBy(hs, ops, t - 1))
    ensures multiset(TakenBy(hs, ops, t)) == Held(hs[t]) + multiset(GivenBy(hs, ops, t))
  {
    hide Valid, Step, Allowed, OpTakes, OpGives, Held;
    var h, op := hs[t - 1], ops[t - 1];
    ValidMemory(h);
    assert Allowed(h, op) && hs[t - 1 + 1] == Step(h, op);
    StepBooks(h, op);
    Balance(multiset(TakenBy(hs, ops, t - 1)), multiset(OpTakes(h, op)), Held(h), Held(hs[t]),
            multiset(GivenBy(hs, ops, t - 1)), multiset(OpGives(h, op)));
  }

  lemma Balance<T>(taken: multiset<T>, takes: multiset<T>, before: multiset<T>, after: multiset<T>,
                   given: multiset<T>, gives: multiset<T>)
    requires taken == before + given && after + gives == before + takes
    ensures taken + takes == after + (given + gives)
  {
    assert after + (given + gives) == (after + gives) + given;
    assert (before + takes) + given == (before + given) + takes;
  }

  lemma NothingHeldYet(mem: seq<Byte>)
    ensures Held(Empty(mem)) == multiset{}
  {
    assert Places([]) == [];
  }

  lemma NothingHeld(h: Heap)
    requires Valid(h) && forall a :: !Live(h.runs, a)
    ensures Held(h) == multiset{}
  {
    hide AllTagged, TotalSize, TotalBodies, IndexOf, FindRun, FindBlock;
    if h.runs != [] {
      assert h.runs[0].blocks != [];
      HeapGeometry.FindRunUnique(h.runs, 0, 0);
    }
  }

  // ---------- the 32-bit sums ----------

  function BodySize32(req: nat): nat { Wrap(Wrap(req) + ALIGNMENT + ALIGN_INFO) }

  // The byte size of the run malloc would request, with every sum wrapped.
  function RunSize32(size: nat): nat {
    var st := Wrap(Wrap(size + MAJOR_HEADER) + MINOR_HEADER);
    var n := if st % PAGE_SIZE == 0 then st / PAGE_SIZE else st / PAGE_SIZE + 1;
    Wrap((if n < MIN_PAGES then MIN_PAGES else n) * PAGE_SIZE)
  }

  lemma WrapIs(x: nat)
    requires x < 2 * ADDRESS_SPACE
    ensures Wrap(x) == if x < ADDRESS_SPACE then x else x - ADDRESS_SPACE
  {
  }

  // A run is large enough unless one of its sums wraps.
  lemma RunSizeIs(size: nat)
    requires size < ADDRESS_SPACE
    ensures var st := size + MAJOR_HEADER + MINOR_HEADER;
            && (size + MAJOR_HEADER + MINOR_HEADER <= RunSize32(size) <==> st <= ADDRESS_SPACE - PAGE_SIZE)
            && (st <= ADDRESS_SPACE - PAGE_SIZE ==> RunSize32(size) == PagesFor(size) * PAGE_SIZE)
  {
    hide Wrap;
    WrapIs(size + MAJOR_HEADER);
    WrapIs(Wrap(size + MAJOR_HEADER) + MINOR_HEADER);
    var st := Wrap(Wrap(size + MAJOR_HEADER) + MINOR_HEADER);
    var n := if st % PAGE_SIZE == 0 then st / PAGE_SIZE else st / PAGE_SIZE + 1;
    assert st <= n * PAGE_SIZE < st + PAGE_SIZE;
    WrapIs((if n < MIN_PAGES then MIN_PAGES else n) * PAGE_SIZE);
  }

  // With the machine's wrapping sums a fresh run holds the padded request
  // exactly for the requests that Fits32 admits.
  lemma WrapLimit(req: nat)
    requires req < ADDRESS_SPACE
    ensures var size := BodySize32(req);
            (req + ALIGNMENT + ALIGN_INFO <= size && size + MAJOR_HEADER + MINOR_HEADER <= RunSize32(size))
            <==> Fits32(req)
    ensures Fits32(req) ==>
              BodySize32(req) == BodySize(req) && RunSize32(BodySize(req)) == PagesFor(BodySize(req)) * PAGE_SIZE
  {
    hide Wrap, PagesFor, RunSize32;
    WrapIs(req);
    WrapIs(req + ALIGNMENT + ALIGN_INFO);
    var size := BodySize32(req);
    WrapIs(size + MAJOR_HEADER);
    WrapIs(Wrap(size + MAJOR_HEADER) + MINOR_HEADER);
    RunSizeIs(size);
  }

  // A request of 0xfffffff0 bytes is padded to 16.
  lemma WrapExample()
    ensures BodySize32(0xffff_fff0) == 16 && !Fits32(0xffff_fff0)
  {
  }
}
