// What every heap operation keeps, which gap malloc picks, when it asks for
// more memory, and that free undoes malloc.
module HeapSafety {
  import opened ByteSeqs
  import opened HeapModel
  import opened HeapGeometry

  // ---------- the search is first fit ----------

  ghost predicate HasRoom(r: Run, need: nat) {
    exists k :: 0 <= k <= |r.blocks| && Gap(r, k) >= need
  }

  ghost predicate FirstRoom(r: Run, g: nat, need: nat) {
    && g <= |r.blocks|
    && Gap(r, g) >= need
    && (forall k :: 0 <= k < g ==> Gap(r, k) < need)
  }

  ghost predicate NoRoom(runs: seq<Run>, lo: nat, hi: nat, need: nat) {
    forall j :: lo <= j < hi && j < |runs| ==> !HasRoom(runs[j], need)
  }

  lemma RoomOfOne(r: Run, need: nat)
    requires GoodRun(r)
    ensures var g := RoomIn(r, need);
            if g <= |r.blocks| then FirstRoom(r, g, need) else !HasRoom(r, need)
  {
    forall k | 0 <= k <= |r.blocks| ensures Gap(r, k) <= FreeSpace(r) { NoGapExceedsFree(r, k); }
  }

  ghost predicate IsFirstFit(runs: seq<Run>, i: nat, started: bool, need: nat, o: Outcome) {
    match o
    case Found(j, g, _) =>
      && j < |runs|
      && FirstRoom(runs[j], g, need)
      && ((i <= j && NoRoom(runs, i, j, need)) ||
          (started && NoRoom(runs, i, |runs|, need) && NoRoom(runs, 0, j, need)))
    case Exhausted(_, _, _) =>
      NoRoom(runs, if started then 0 else i, |runs|, need)
  }

  // The skipping, hint-started, once-restarted walk finds the first fitting
  // gap in visiting order, and gives up only when nothing anywhere fits.
  lemma {:induction false} WalkIsFirstFit(runs: seq<Run>, i: nat, started: bool, bet: nat, best: int, need: nat)
    requires GoodRuns(runs) && i < |runs|
    ensures IsFirstFit(runs, i, started, need, Walk(runs, i, started, bet, best, need))
    decreases started, |runs| - i
  {
    hide GoodRun, Apart, HasRoom, FirstRoom, RoomIn, FreeSpace;
    RoomOfOne(runs[i], need);
    var free := FreeSpace(runs[i]);
    var bet' := if best < free then runs[i].base else bet;
    var best' := if best < free then free else best;
    if RoomIn(runs[i], need) <= |runs[i].blocks| {
    } else if i + 1 < |runs| {
      WalkIsFirstFit(runs, i + 1, started, bet', best', need);
    } else if started {
      WalkIsFirstFit(runs, 0, false, bet', best', need);
    }
  }

  // The hint never leaves the list.
  lemma {:induction false} WalkKeepsHint(runs: seq<Run>, i: nat, started: bool, bet: nat, best: int, need: nat)
    requires GoodRuns(runs) && i < |runs|
    requires bet == 0 || IndexOf(runs, bet) < |runs|
    ensures var o := Walk(runs, i, started, bet, best, need);
            o.hint == 0 || IndexOf(runs, o.hint) < |runs|
    decreases started, |runs| - i
  {
    hide GoodRuns, RoomIn, FreeSpace;
    IndexOfUnique(runs, i);
    var free := FreeSpace(runs[i]);
    var bet' := if best < free then runs[i].base else bet;
    var best' := if best < free then free else best;
    if RoomIn(runs[i], need) <= |runs[i].blocks| {
    } else if i + 1 < |runs| {
      WalkKeepsHint(runs, i + 1, started, bet', best', need);
    } else if started {
      WalkKeepsHint(runs, 0, false, bet', best', need);
    }
  }

  lemma SearchIsFirstFit(h: Heap, need: nat)
    requires Valid(h)
    ensures match Search(h, need)
            case Found(j, g, hint) =>
              && FirstRoom(h.runs[j], g, need)
              && (hint == 0 || IndexOf(h.runs, hint) < |h.runs|)
              && (StartsAtBet(h, need) || NoRoom(h.runs, 0, j, need))
            case Exhausted(hint, _, _) =>
              && NoRoom(h.runs, 0, |h.runs|, need)
              && (hint == 0 || IndexOf(h.runs, hint) < |h.runs|)
  {
    if h.runs != [] {
      var started := StartsAtBet(h, need);
      var i := if started then IndexOf(h.runs, h.bet) else 0;
      WalkIsFirstFit(h.runs, i, started, h.bet, BestSize(h), need);
      WalkKeepsHint(h.runs, i, started, h.bet, BestSize(h), need);
    }
  }

  // ---------- a fresh run always has room ----------

  lemma FreshRunHasRoom(grant: nat, size: nat)
    ensures Gap(Run(grant, PagesFor(size), []), 0) >= size + MINOR_HEADER
    ensures PagesFor(size) >= MIN_PAGES
  {
  }

  // ---------- placing a block ----------

  // A heap in the middle of malloc: like Valid, but a run may be empty.
  ghost predicate Sound(h: Heap) {
    && GoodRuns(h.runs)
    && (h.bet == 0 || IndexOf(h.runs, h.bet) < |h.runs|)
    && |h.mem| == ADDRESS_SPACE
    && AllTagged(h.mem, h.runs)
    && h.acquired == TotalSize(h.runs)
    && h.inuse == TotalBodies(h.runs)
  }

  lemma UpdateKeepsApart(runs: seq<Run>, i: nat, r: Run)
    requires GoodRuns(runs) && i < |runs| && GoodRun(r)
    requires r.base == runs[i].base && r.pages == runs[i].pages
    ensures GoodRuns(runs[i := r])
    ensures forall b :: IndexOf(runs[i := r], b) == IndexOf(runs, b)
  {
    var runs' := runs[i := r];
    forall j, k | 0 <= j < k < |runs'| ensures Apart(runs'[j], runs'[k]) {
      assert Apart(runs[j], runs[k]);
    }
    forall b ensures IndexOf(runs', b) == IndexOf(runs, b) {
      IndexOfSame(runs, runs', b);
    }
  }

  // Two blocks of a good heap occupy separate bytes, headers included.
  lemma BlocksApart(runs: seq<Run>, i: nat, k: nat, j: nat, m: nat)
    requires GoodRuns(runs)
    requires i < |runs| && k < |runs[i].blocks| && j < |runs| && m < |runs[j].blocks|
    requires (i, k) != (j, m)
    ensures runs[i].blocks[k].End() <= runs[j].blocks[m].addr || runs[j].blocks[m].End() <= runs[i].blocks[k].addr
  {
    if i != j {
      assert i < j ==> Apart(runs[i], runs[j]);
      assert j < i ==> Apart(runs[j], runs[i]);
    }
  }

  // What Place needs: room in the gap, and no empty run but the one it fills.
  ghost predicate CanPlace(h: Heap, i: nat, k: nat, size: nat, req: nat) {
    && Sound(h) && i < |h.runs| && k <= |h.runs[i].blocks|
    && size == BodySize(req) && Gap(h.runs[i], k) >= size + MINOR_HEADER
    && (forall j :: 0 <= j < |h.runs| && j != i ==> h.runs[j].blocks != [])
  }

  lemma PlacedRunsGood(h: Heap, i: nat, k: nat, size: nat, req: nat)
    requires CanPlace(h, i, k, size, req)
    ensures var b := NewBlock(h, i, k, size, req); var runs := h.runs[i := InsertBlock(h.runs[i], k, b)];
            && GoodRuns(runs) && NoneEmpty(runs)
            && (forall a :: IndexOf(runs, a) == IndexOf(h.runs, a))
            && TotalSize(runs) == TotalSize(h.runs)
            && TotalBodies(runs) == TotalBodies(h.runs) + size
            && b.End() <= ADDRESS_SPACE && runs[i].blocks[k] == b
  {
    hide Usage, Used, BodyBytes, TotalSize, TotalBodies, IndexOf, GoodRuns;
    var b := NewBlock(h, i, k, size, req);
    var run := InsertBlock(h.runs[i], k, b);
    GoodRunAt(h.runs, i);
    InsertGood(h.runs[i], k, b);
    UpdateKeepsApart(h.runs, i, run);
    UsedInsert(h.runs[i], k, b);
    TotalsUpdate(h.runs, i, run);
    assert run.blocks[k] == b;
  }

  // The note of a new block disturbs no note of a block elsewhere.
  lemma MarkKeepsTag(mem: seq<Byte>, b: Block, c: Block)
    requires Tagged(mem, c) && b.End() <= |mem|
    requires b.End() <= c.addr || c.End() <= b.addr
    requires b.req + ALIGNMENT + ALIGN_INFO <= b.size && c.req + ALIGNMENT + ALIGN_INFO <= c.size
    ensures Tagged(Mark(mem, b), c)
  {
  }

  lemma MarkTags(mem: seq<Byte>, b: Block)
    requires b.End() <= |mem| && b.req + ALIGNMENT + ALIGN_INFO <= b.size
    ensures TagAddress(b) < |mem| && Mark(mem, b) == mem[TagAddress(b) := Tag(b)] && Tagged(Mark(mem, b), b)
  {
  }

  lemma GoodReq(runs: seq<Run>, i: nat, k: nat)
    requires GoodRuns(runs) && i < |runs| && k < |runs[i].blocks|
    ensures runs[i].blocks[k].req + ALIGNMENT + ALIGN_INFO <= runs[i].blocks[k].size
  {
  }

  lemma PlacedTags(h: Heap, i: nat, k: nat, size: nat, req: nat)
    requires CanPlace(h, i, k, size, req)
    ensures var r := Place(h, i, k, size, req); AllTagged(r.heap.mem, r.heap.runs)
    ensures var r := Place(h, i, k, size, req); var b := NewBlock(h, i, k, size, req);
            TagAddress(b) < |h.mem| && r.heap.mem == h.mem[TagAddress(b) := Tag(b)]
  {
    hide GoodRuns, NoneEmpty, IndexOf, Mark, Tagged;
    var r := Place(h, i, k, size, req);
    var b := NewBlock(h, i, k, size, req);
    var runs := r.heap.runs;
    PlacedRunsGood(h, i, k, size, req);
    MarkTags(h.mem, b);
    forall j, m | 0 <= j < |runs| && 0 <= m < |runs[j].blocks|
      ensures Tagged(r.heap.mem, runs[j].blocks[m])
    {
      if (j, m) != (i, k) {
        BlocksApart(runs, i, k, j, m);
        GoodReq(runs, j, m);
        assert runs[j].blocks[m] == h.runs[j].blocks[if j == i && m > k then m - 1 else m];
        MarkKeepsTag(h.mem, b, runs[j].blocks[m]);
      }
    }
  }

  lemma PlaceKeeps(h: Heap, i: nat, k: nat, size: nat, req: nat)
    requires CanPlace(h, i, k, size, req)
    ensures var r := Place(h, i, k, size, req); Valid(r.heap) && 0 < r.ptr < ADDRESS_SPACE
  {
    PlacedRunsGood(h, i, k, size, req);
    PlacedTags(h, i, k, size, req);
    PayloadInBody(NewBlock(h, i, k, size, req));
  }

  lemma GrowKeeps(h: Heap, grant: nat, pages: nat)
    requires Valid(h) && grant != 0 && pages >= 1 && Granted(h.runs, grant, pages)
    ensures Sound(Grow(h, grant, pages))
    ensures IndexOf(Grow(h, grant, pages).runs, grant) == |h.runs|
  {
    hide TotalSize, TotalBodies, IndexOf, Tagged;
    var g := Grow(h, grant, pages);
    var r := Run(grant, pages, []);
    forall j, k | 0 <= j < k < |g.runs| ensures Apart(g.runs[j], g.runs[k]) {
      if k < |h.runs| { assert Apart(h.runs[j], h.runs[k]); }
    }
    TotalsConcat(h.runs, [r]);
    TotalsOne(r);
    IndexOfUnique(g.runs, |h.runs|);
    if h.bet != 0 {
      IndexOfBefore(g.runs, IndexOf(h.runs, h.bet));
    }
  }

  // ---------- malloc ----------

  lemma ValidRuns(h: Heap)
    requires Valid(h)
    ensures GoodRuns(h.runs)
  {
  }

  lemma ValidMemory(h: Heap)
    requires Valid(h)
    ensures |h.mem| == ADDRESS_SPACE
  {
  }

  ghost predicate Request(h: Heap, req: nat, grant: nat) {
    Valid(h) && Fits32(req) && Granted(h.runs, grant, PagesFor(BodySize(req)))
  }

  lemma CanPlaceFresh(h: Heap, bet: nat, req: nat, grant: nat)
    requires Request(h, req, grant) && grant != 0
    requires bet == 0 || bet == grant || IndexOf(h.runs, bet) < |h.runs|
    ensures CanPlace(Grow(h.(bet := bet), grant, PagesFor(BodySize(req))), |h.runs|, 0, BodySize(req), req)
  {
    var pages := PagesFor(BodySize(req));
    FreshRunHasRoom(grant, BodySize(req));
    GrowKeeps(h, grant, pages);
    var g := Grow(h, grant, pages);
    if bet != 0 && bet != grant {
      IndexOfBefore(g.runs, IndexOf(h.runs, bet));
    }
  }

  // malloc keeps the heap well formed, and it returns null exactly when no
  // gap of any major fits and the provider refuses; then only the hint and
  // the warning counter change.
  lemma MallocKeeps(h: Heap, req: nat, grant: nat)
    requires Request(h, req, grant)
    ensures var m := Malloc(h, req, grant);
            && Valid(m.heap)
            && m.ptr < ADDRESS_SPACE
            && (m.ptr == 0 <==> grant == 0 && NoRoom(h.runs, 0, |h.runs|, BodySize(req) + MINOR_HEADER))
            && (m.ptr == 0 ==> m.heap == h.(bet := m.heap.bet, warnings := h.warnings + 1))
  {
    hide GoodRuns, AllTagged;
    var need := BodySize(req) + MINOR_HEADER;
    SearchIsFirstFit(h, need);
    var o := Search(h, need);
    if o.Found? {
      assert HasRoom(h.runs[o.run], need);
      PlaceKeeps(h.(bet := o.hint), o.run, o.gap, BodySize(req), req);
    } else if grant != 0 {
      var bet := FreshHint(o, req, grant);
      CanPlaceFresh(h, bet, req, grant);
      PlaceKeeps(Grow(h.(bet := bet), grant, PagesFor(BodySize(req))), |h.runs|, 0, BodySize(req), req);
    }
  }

  // Where a successful malloc puts its block.
  datatype Spot = Spot(run: nat, gap: nat, requested: bool)

  function SpotOf(h: Heap, req: nat): Spot {
    var o := Search(h, BodySize(req) + MINOR_HEADER);
    if o.Found? then Spot(o.run, o.gap, false) else Spot(|h.runs|, 0, true)
  }

  // The block sits at the start of the first gap of its major that fits.
  ghost predicate InGap(runs: seq<Run>, runs': seq<Run>, s: Spot, req: nat) {
    && s.run < |runs|
    && FirstRoom(runs[s.run], s.gap, BodySize(req) + MINOR_HEADER)
    && runs' == runs[s.run := InsertBlock(runs[s.run], s.gap,
                                          Block(GapStart(runs[s.run], s.gap), BodySize(req), req))]
  }

  // The block is alone in a run of its own.
  ghost predicate InNewRun(runs: seq<Run>, runs': seq<Run>, s: Spot, req: nat, grant: nat) {
    && grant != 0 && s.run == |runs| && s.gap == 0
    && runs' == runs + [Run(grant, PagesFor(BodySize(req)), [Block(grant + MAJOR_HEADER, BodySize(req), req)])]
  }

  // A run is requested only when no front, middle or tail gap of any major fits.
  lemma MallocSpot(h: Heap, req: nat, grant: nat)
    requires Request(h, req, grant) && Malloc(h, req, grant).ptr != 0
    ensures var s := SpotOf(h, req); var runs' := Malloc(h, req, grant).heap.runs;
            && (s.requested <==> NoRoom(h.runs, 0, |h.runs|, BodySize(req) + MINOR_HEADER))
            && (if s.requested then InNewRun(h.runs, runs', s, req, grant) else InGap(h.runs, runs', s, req))
  {
    hide GoodRuns, NoneEmpty, AllTagged, IndexOf;
    var need := BodySize(req) + MINOR_HEADER;
    SearchIsFirstFit(h, need);
    var s := SpotOf(h, req);
    var runs' := Malloc(h, req, grant).heap.runs;
    if s.requested {
      var b := Block(grant + MAJOR_HEADER, BodySize(req), req);
      assert InsertBlock(Run(grant, PagesFor(BodySize(req)), []), 0, b).blocks == [b];
    } else {
      assert HasRoom(h.runs[s.run], need);
    }
  }

  // The pointer malloc returns leads free and realloc back to the new block.
  lemma MallocPointer(h: Heap, req: nat, grant: nat)
    requires Request(h, req, grant) && Malloc(h, req, grant).ptr != 0
    ensures var s := SpotOf(h, req); var m := Malloc(h, req, grant);
            && s.run < |m.heap.runs| && s.gap < |m.heap.runs[s.run].blocks|
            && var b := m.heap.runs[s.run].blocks[s.gap];
               && b.size == BodySize(req) && b.req == req
               && m.ptr == b.Payload() < ADDRESS_SPACE
               && HeaderOf(m.heap.mem, m.ptr) == b.addr
               && FindRun(m.heap.runs, b.addr) == s.run && FindBlock(m.heap.runs[s.run].blocks, b.addr) == s.gap
               && m.heap.mem == h.mem[TagAddress(b) := Tag(b)]
  {
    hide GoodRuns, NoneEmpty, IndexOf, NoRoom, FirstRoom;
    MallocKeeps(h, req, grant);
    MallocSpot(h, req, grant);
    var s := SpotOf(h, req);
    var m := Malloc(h, req, grant);
    var b := m.heap.runs[s.run].blocks[s.gap];
    assert Tagged(m.heap.mem, b);
    UnalignInvertsAlign(m.heap.mem, b);
    FindRunUnique(m.heap.runs, s.run, s.gap);
  }

  // ---------- free ----------

  lemma DropRun(runs: seq<Run>, i: nat)
    requires GoodRuns(runs) && i < |runs|
    ensures GoodRuns(runs[..i] + runs[i + 1..])
  {
    hide GoodRun, Apart;
    var rest := runs[..i] + runs[i + 1..];
    forall j, k | 0 <= j < k < |rest| ensures Apart(rest[j], rest[k]) {
      var j', k' := if j < i then j else j + 1, if k < i then k else k + 1;
      assert Apart(runs[j'], runs[k']);
    }
  }

  lemma DropKeepsIndex(runs: seq<Run>, i: nat, b: nat)
    requires i < |runs| && b != runs[i].base && IndexOf(runs, b) < |runs|
    ensures IndexOf(runs[..i] + runs[i + 1..], b) < |runs| - 1
  {
    var j := IndexOf(runs, b);
    IndexOfBefore(runs[..i] + runs[i + 1..], if j < i then j else j - 1);
  }

  lemma DroppedRuns(mem: seq<Byte>, runs: seq<Run>, i: nat)
    requires GoodRuns(runs) && NoneEmpty(runs) && AllTagged(mem, runs) && i < |runs|
    ensures var rest := runs[..i] + runs[i + 1..];
            GoodRuns(rest) && NoneEmpty(rest) && AllTagged(mem, rest)
  {
    hide GoodRuns, Tagged;
    var rest := runs[..i] + runs[i + 1..];
    DropRun(runs, i);
    forall j | 0 <= j < |rest|
      ensures rest[j].blocks != []
      ensures forall m :: 0 <= m < |rest[j].blocks| ==> Tagged(mem, rest[j].blocks[m])
    {
      assert rest[j] == runs[if j < i then j else j + 1];
    }
  }

  lemma ReleaseLast(h: Heap, i: nat, k: nat)
    requires Valid(h) && i < |h.runs| && k < |h.runs[i].blocks|
    requires RemoveBlock(h.runs[i], k).blocks == []
    ensures Valid(Release(h, i, k))
  {
    hide GoodRuns, NoneEmpty, AllTagged, TotalSize, TotalBodies, IndexOf, Used;
    UsedRemove(h.runs[i], k);
    assert BodyBytes([]) == 0;
    DroppedRuns(h.mem, h.runs, i);
    TotalsDrop(h.runs, i);
    if h.bet != 0 && h.bet != h.runs[i].base { DropKeepsIndex(h.runs, i, h.bet); }
  }

  lemma RemovedTotals(runs: seq<Run>, i: nat, k: nat)
    requires i < |runs| && k < |runs[i].blocks|
    ensures var runs' := runs[i := RemoveBlock(runs[i], k)];
            TotalSize(runs') == TotalSize(runs) && TotalBodies(runs') == TotalBodies(runs) - runs[i].blocks[k].size
  {
    hide Usage, Used, BodyBytes, TotalSize, TotalBodies;
    UsedRemove(runs[i], k);
    TotalsUpdate(runs, i, RemoveBlock(runs[i], k));
  }

  lemma RemovedRunsGood(runs: seq<Run>, i: nat, k: nat)
    requires GoodRuns(runs) && NoneEmpty(runs) && i < |runs| && k < |runs[i].blocks|
    requires RemoveBlock(runs[i], k).blocks != []
    ensures var runs' := runs[i := RemoveBlock(runs[i], k)];
            && GoodRuns(runs') && NoneEmpty(runs')
            && (forall a :: IndexOf(runs', a) == IndexOf(runs, a))
            && IndexOf(runs', runs[i].base) == i
            && TotalSize(runs') == TotalSize(runs)
            && TotalBodies(runs') == TotalBodies(runs) - runs[i].blocks[k].size
  {
    var r := RemoveBlock(runs[i], k);
    assert r.base == runs[i].base && r.pages == runs[i].pages && r.Size() == runs[i].Size();
    hide Usage, Used, BodyBytes, TotalSize, TotalBodies, IndexOf, GoodRun, GoodRuns, Apart, RemoveBlock, Run.Size;
    GoodRunAt(runs, i);
    RemoveGood(runs[i], k);
    RemovedTotals(runs, i, k);
    UpdateKeepsApart(runs, i, r);
    IndexOfUnique(runs, i);
  }

  lemma RemovedTags(mem: seq<Byte>, runs: seq<Run>, i: nat, k: nat)
    requires AllTagged(mem, runs) && i < |runs| && k < |runs[i].blocks|
    ensures AllTagged(mem, runs[i := RemoveBlock(runs[i], k)])
  {
    var runs' := runs[i := RemoveBlock(runs[i], k)];
    forall j, m | 0 <= j < |runs'| && 0 <= m < |runs'[j].blocks| ensures Tagged(mem, runs'[j].blocks[m]) {
      assert runs'[j].blocks[m] == runs[j].blocks[if j == i && m >= k then m + 1 else m];
    }
  }

  lemma ReleaseOne(h: Heap, i: nat, k: nat)
    requires Valid(h) && i < |h.runs| && k < |h.runs[i].blocks|
    requires RemoveBlock(h.runs[i], k).blocks != []
    ensures Valid(Release(h, i, k))
  {
    hide GoodRuns, NoneEmpty, AllTagged, TotalSize, TotalBodies, IndexOf, Used;
    RemovedRunsGood(h.runs, i, k);
    RemovedTags(h.mem, h.runs, i, k);
  }

  lemma ReleaseKeeps(h: Heap, i: nat, k: nat)
    requires Valid(h) && i < |h.runs| && k < |h.runs[i].blocks|
    ensures Valid(Release(h, i, k))
  {
    if RemoveBlock(h.runs[i], k).blocks == [] {
      ReleaseLast(h, i, k);
    } else {
      ReleaseOne(h, i, k);
    }
  }

  lemma FreeKeeps(h: Heap, p: nat, magic: nat)
    requires Valid(h) && p < ADDRESS_SPACE
    ensures Valid(FreePtr(h, p, magic).heap)
  {
    if p != 0 && Live(h.runs, HeaderOf(h.mem, p)) {
      var a := HeaderOf(h.mem, p);
      var i := FindRun(h.runs, a);
      ReleaseKeeps(h, i, FindBlock(h.runs[i].blocks, a));
    }
  }

  // free goes astray exactly at a header that shows the magic without being a
  // live block's, and then has changed nothing yet.
  lemma FreeStrays(h: Heap, p: nat, magic: nat)
    requires |h.mem| == ADDRESS_SPACE && p < ADDRESS_SPACE
    ensures FreePtr(h, p, magic).Astray? <==> p != 0 && magic == MAGIC && !Live(h.runs, HeaderOf(h.mem, p))
    ensures FreePtr(h, p, magic).Astray? ==> FreePtr(h, p, magic).heap == h
  {
    hide Live, HeaderOf, Release;
  }

  // So does realloc, whatever the new size, of a pointer not its own.
  lemma ReallocStrays(h: Heap, p: nat, size: nat, grant: nat, magic: nat)
    requires |h.mem| == ADDRESS_SPACE && p < ADDRESS_SPACE
    requires p == 0 || !Live(h.runs, HeaderOf(h.mem, p))
    ensures Realloc(h, p, size, grant, magic).Strayed? <==> p != 0 && magic == MAGIC
    ensures Realloc(h, p, size, grant, magic).Strayed? ==> Realloc(h, p, size, grant, magic).heap == h
  {
    hide Live, HeaderOf, Release, Malloc;
  }

  // free undoes malloc: the same majors, minors, gaps and totals, whichever
  // gap was used and also when a run had to be requested. The hint may differ,
  // and so may the one note byte, which lies in free memory again.
  lemma FreeUndoesMalloc(h: Heap, req: nat, grant: nat, magic: nat)
    requires Request(h, req, grant) && Malloc(h, req, grant).ptr != 0
    ensures var m := Malloc(h, req, grant);
            && m.ptr < ADDRESS_SPACE
            && FreePtr(m.heap, m.ptr, magic).Freed?
            && var f := FreePtr(m.heap, m.ptr, magic).heap;
               f == h.(bet := f.bet, mem := m.heap.mem)
  {
    var m := Malloc(h, req, grant);
    MallocKeeps(h, req, grant);
    MallocSpot(h, req, grant);
    MallocPointer(h, req, grant);
    var s := SpotOf(h, req);
    assert FreePtr(m.heap, m.ptr, magic) == Freed(Release(m.heap, s.run, s.gap));
    ReleaseUndoes(h, m.heap, s, req, grant);
  }

  lemma ReleaseUndoes(h: Heap, h': Heap, s: Spot, req: nat, grant: nat)
    requires Valid(h) && Valid(h')
    requires if s.requested then InNewRun(h.runs, h'.runs, s, req, grant) else InGap(h.runs, h'.runs, s, req)
    ensures var f := Release(h', s.run, s.gap);
            f.runs == h.runs && f.acquired == h.acquired && f.inuse == h.inuse
  {
    hide FreeSpace, FreeOf, TotalSize, TotalBodies, IndexOf, GoodRuns, AllTagged;
    if s.requested {
      assert h'.runs[..|h.runs|] + h'.runs[|h.runs| + 1..] == h.runs;
      assert RemoveBlock(h'.runs[s.run], 0).blocks == [];
    } else {
      RemoveInsert(h.runs[s.run], s.gap, h'.runs[s.run].blocks[s.gap]);
      assert h'.runs[s.run := h.runs[s.run]] == h.runs;
    }
    ReleaseKeeps(h', s.run, s.gap);
  }
}
