// What the heap's calls do in full: which blocks are live afterwards, what is
// returned, where the hint goes and what is counted.
module HeapEffects {
  import opened ByteSeqs
  import opened HeapModel
  import opened HeapGeometry
  import opened HeapSafety
  import opened HeapContents

  // ---------- how much is requested ----------

  // The fewest pages, but no fewer than 16, that hold the two headers and the
  // padded request.
  lemma PagesExact(size: nat)
    ensures var n := PagesFor(size);
            && n >= 16 && n * 4096 >= size + 48
            && (n == 16 || (n - 1) * 4096 < size + 48)
  {
  }

  // ---------- the blocks after a call ----------

  lemma LiveWhere(runs: seq<Run>, a: nat)
    requires Live(runs, a)
    ensures exists i, k :: 0 <= i < |runs| && 0 <= k < |runs[i].blocks| && runs[i].blocks[k].addr == a
  {
    var r := runs[FindRun(runs, a)];
    assert r.blocks[FindBlock(r.blocks, a)].addr == a;
  }

  // malloc makes one block live, and no other.
  lemma MallocAddsOne(h: Heap, req: nat, grant: nat, c: nat)
    requires Request(h, req, grant)
    ensures var m := Malloc(h, req, grant);
            Live(m.heap.runs, c) <==>
            || Live(h.runs, c)
            || (0 < m.ptr < ADDRESS_SPACE && |m.heap.mem| == ADDRESS_SPACE && HeaderOf(m.heap.mem, m.ptr) == c)
  {
    hide Malloc, GoodRuns, NoneEmpty, IndexOf, AllTagged, TotalSize, TotalBodies, NoRoom, FindRun, FindBlock, Live,
      BlockAt, HeaderOf, FirstRoom;
    var m := Malloc(h, req, grant);
    MallocKeeps(h, req, grant);
    ValidMemory(m.heap);
    if m.ptr != 0 {
      NewBlockLive(h, req, grant);
      MallocSpot(h, req, grant);
      MallocPointer(h, req, grant);
      if Live(m.heap.runs, c) { MallocAddsNoOther(h, req, grant, c); }
    }
    if Live(h.runs, c) { MallocKeepsBlock(h, req, grant, c); }
  }

  lemma MallocAddsNoOther(h: Heap, req: nat, grant: nat, c: nat)
    requires Request(h, req, grant) && Malloc(h, req, grant).ptr != 0 && Live(Malloc(h, req, grant).heap.runs, c)
    ensures var m := Malloc(h, req, grant);
            Live(h.runs, c) || (m.ptr < ADDRESS_SPACE && HeaderOf(m.heap.mem, m.ptr) == c)
  {
    hide Malloc, NoneEmpty, IndexOf, AllTagged, TotalSize, TotalBodies, NoRoom, FindRun, FindBlock, Live,
      BlockAt, HeaderOf, FirstRoom, GoodRun, Apart;
    var m := Malloc(h, req, grant);
    MallocSpot(h, req, grant);
    MallocPointer(h, req, grant);
    var s := SpotOf(h, req);
    LiveWhere(m.heap.runs, c);
    var i, k :| 0 <= i < |m.heap.runs| && 0 <= k < |m.heap.runs[i].blocks| && m.heap.runs[i].blocks[k].addr == c;
    if (i, k) != (s.run, s.gap) {
      var k' := if i == s.run && k > s.gap then k - 1 else k;
      if s.requested { assert i != s.run; }
      assert h.runs[i].blocks[k'] == m.heap.runs[i].blocks[k];
      FindRunUnique(h.runs, i, k');
    }
  }

  // free of a live block ends its life and no other; it writes no memory and
  // counts nothing.
  lemma FreeExactly(h: Heap, p: nat, magic: nat, c: nat)
    requires Valid(h) && 0 < p < ADDRESS_SPACE && Live(h.runs, HeaderOf(h.mem, p))
    ensures FreePtr(h, p, magic).Freed?
    ensures var f := FreePtr(h, p, magic).heap;
            && (Live(f.runs, c) <==> Live(h.runs, c) && c != HeaderOf(h.mem, p))
            && f.mem == h.mem && f.warnings == h.warnings && f.errors == h.errors && f.overruns == h.overruns
  {
    hide GoodRuns, AllTagged, NoneEmpty, IndexOf, TotalSize, TotalBodies, FindRun, FindBlock, HeaderOf, FreeOf, Usage;
    var a, f := HeaderOf(h.mem, p), FreePtr(h, p, magic).heap;
    var i := FindRun(h.runs, a);
    var k := FindBlock(h.runs[i].blocks, a);
    if Live(h.runs, c) { FreeFrame(h, p, magic, c); }
    if Live(f.runs, c) && c != a {
      LiveWhere(f.runs, c);
      var j, m :| 0 <= j < |f.runs| && 0 <= m < |f.runs[j].blocks| && f.runs[j].blocks[m].addr == c;
      ValidRuns(h);
      if RemoveBlock(h.runs[i], k).blocks == [] {
        FindRunUnique(h.runs, if j < i then j else j + 1, m);
      } else {
        FindRunUnique(h.runs, j, if j == i && m >= k then m + 1 else m);
      }
    }
    if Live(f.runs, a) { FreeFrame(h, p, magic, a); }
  }

  // ---------- calls for no block ----------

  // free of null counts a warning, and free of a rejected pointer an error,
  // and a possible overrun if the lowest byte is still the magic's.
  lemma FreeOfNoBlock(h: Heap, p: nat, magic: nat)
    requires |h.mem| == ADDRESS_SPACE && p < ADDRESS_SPACE
    requires p != 0 ==> magic != MAGIC && !Live(h.runs, HeaderOf(h.mem, p))
    ensures FreePtr(h, p, magic) == Freed(
              if p == 0 then h.(warnings := h.warnings + 1)
              else h.(errors := h.errors + 1, overruns := h.overruns + if magic % 0x100 == 0xde then 1 else 0))
  {
    hide Live, HeaderOf, Release, LooksOverrun;
    OverrunIsLowByte(magic);
  }

  // realloc of null is malloc: it returns a block of the size asked for that
  // was not live before, or null if nothing fits and the provider refuses.
  // realloc of a rejected pointer returns null and is counted as free counts it.
  lemma ReallocOfNoBlock(h: Heap, p: nat, size: nat, grant: nat, magic: nat)
    requires Request(h, size, grant) && size > 0 && p < ADDRESS_SPACE
    requires p != 0 ==> magic != MAGIC && !Live(h.runs, HeaderOf(h.mem, p))
    ensures Realloc(h, p, size, grant, magic).Returned?
    ensures var r := Realloc(h, p, size, grant, magic);
            if p == 0 then
              && (r.ptr == 0 <==> grant == 0 && NoRoom(h.runs, 0, |h.runs|, BodySize(size) + MINOR_HEADER))
              && (r.ptr == 0 ==> r.heap == h.(bet := r.heap.bet, warnings := h.warnings + 1))
              && (r.ptr != 0 ==>
                    && Owned(r.heap, r.ptr)
                    && var a := HeaderOf(r.heap.mem, r.ptr); BlockAt(r.heap.runs, a).req == size && !Live(h.runs, a))
            else
              && r.ptr == 0
              && r.heap == h.(errors := h.errors + 1, overruns := h.overruns + if magic % 0x100 == 0xde then 1 else 0)
  {
    hide Malloc, GoodRuns, NoneEmpty, IndexOf, AllTagged, TotalSize, TotalBodies, NoRoom, Live, BlockAt, HeaderOf,
      Release, LooksOverrun;
    if p == 0 {
      var m := Malloc(h, size, grant);
      MallocKeeps(h, size, grant);
      ValidMemory(m.heap);
      if m.ptr != 0 {
        NewBlockLive(h, size, grant);
        var a := HeaderOf(m.heap.mem, m.ptr);
        if Live(h.runs, a) { NewBlockIsNew(h, size, grant, a); }
      }
    } else {
      OverrunIsLowByte(magic);
    }
  }

  // realloc to nothing frees: the block is gone, and null is returned.
  lemma ReallocToNothing(h: Heap, p: nat, grant: nat, magic: nat)
    requires Valid(h) && p < ADDRESS_SPACE && (p == 0 || Owned(h, p))
    ensures Realloc(h, p, 0, grant, magic).Returned?
    ensures var r := Realloc(h, p, 0, grant, magic);
            && r.ptr == 0 && r.heap.mem == h.mem
            && if p == 0 then r.heap == h.(warnings := h.warnings + 1)
               else forall c :: Live(r.heap.runs, c) <==> Live(h.runs, c) && c != HeaderOf(h.mem, p)
  {
    hide Valid, Live, HeaderOf, FreeAt, BlockAt;
    if p != 0 {
      forall c
        ensures Live(Realloc(h, p, 0, grant, magic).heap.runs, c) <==> Live(h.runs, c) && c != HeaderOf(h.mem, p)
      {
        FreeExactly(h, p, magic, c);
      }
      FreeExactly(h, p, magic, 0);
    }
  }

  // realloc of a live block never goes astray. It returns null, with the block
  // gone, exactly if an empty block has to grow and cannot; before a fault only
  // the hint and the counter of warnings have changed.
  lemma ReallocOfBlock(h: Heap, p: nat, size: nat, grant: nat, magic: nat)
    requires ReallocRequest(h, p, size, grant) && size > 0 && Owned(h, p)
    ensures var r := Realloc(h, p, size, grant, magic); var n := BlockAt(h.runs, HeaderOf(h.mem, p)).req;
            && !r.Strayed?
            && (r.Returned? && r.ptr == 0 <==>
                n == 0 && grant == 0 && NoRoom(h.runs, 0, |h.runs|, BodySize(size) + MINOR_HEADER))
            && (r.Fault? ==> r.heap == h.(bet := r.heap.bet, warnings := h.warnings + 1))
            && (r.Returned? && size <= n ==> r.ptr == p)
            && (r.Returned? && size > n ==>
                  !Live(r.heap.runs, HeaderOf(h.mem, p))
                  && (r.ptr != 0 ==> |r.heap.mem| == ADDRESS_SPACE && r.ptr < ADDRESS_SPACE
                                     && !Live(h.runs, HeaderOf(r.heap.mem, r.ptr))))
  {
    hide Malloc, GoodRuns, NoneEmpty, IndexOf, AllTagged, TotalSize, TotalBodies, NoRoom, Live, BlockAt, FindRun,
      FindBlock, HeaderOf;
    var a := HeaderOf(h.mem, p);
    var n := BlockAt(h.runs, a).req;
    if n < size {
      MallocKeeps(h, size, grant);
      var m := Malloc(h, size, grant);
      if m.ptr != 0 {
        MovedBytes(h, p, size, grant, magic);
        MovedPointer(h, p, size, grant, magic);
      } else if n == 0 {
        assert Copied(h, p, size, grant, n).mem == h.mem;
        FreeFrame(Copied(h, p, size, grant, n), p, magic, a);
      }
    }
  }

  lemma MovedPointer(h: Heap, p: nat, size: nat, grant: nat, magic: nat)
    requires ReallocRequest(h, p, size, grant) && Owned(h, p) && Malloc(h, size, grant).ptr != 0
    requires BlockAt(h.runs, HeaderOf(h.mem, p)).req < size
    ensures var n := BlockAt(h.runs, HeaderOf(h.mem, p)).req; var m := Malloc(h, size, grant);
            var f := FreePtr(Copied(h, p, size, grant, n), p, magic).heap;
            |f.mem| == ADDRESS_SPACE && m.ptr < ADDRESS_SPACE && !Live(h.runs, HeaderOf(f.mem, m.ptr))
  {
    hide Malloc, GoodRuns, NoneEmpty, IndexOf, AllTagged, TotalSize, TotalBodies, NoRoom, Live, BlockAt, FindRun,
      FindBlock, HeaderOf;
    var n, m := BlockAt(h.runs, HeaderOf(h.mem, p)).req, Malloc(h, size, grant);
    var c := Copied(h, p, size, grant, n);
    CopiedKeeps(h, p, size, grant, n);
    FreeMem(c, p, magic);
    var a' := HeaderOf(m.heap.mem, m.ptr);
    if Live(h.runs, a') { NewBlockIsNew(h, size, grant, a'); }
  }

  // ---------- the hint ----------

  // After free the hint is the better of the old one and the block's major, as
  // long as majors are below 2 GiB: the source compares C ints. A major that
  // goes takes the hint with it.
  lemma FreeHint(h: Heap, p: nat, magic: nat)
    requires Valid(h) && 0 < p < ADDRESS_SPACE && Live(h.runs, HeaderOf(h.mem, p))
    requires forall j :: 0 <= j < |h.runs| ==> h.runs[j].Size() < 0x8000_0000
    ensures var f := FreePtr(h, p, magic).heap; var r := h.runs[FindRun(h.runs, HeaderOf(h.mem, p))];
            f.bet ==
            if h.bet == 0 then 0
            else if |r.blocks| == 1 then (if h.bet == r.base then 0 else h.bet)
            else if FreeOf(f.runs, r.base) > FreeOf(f.runs, h.bet) then r.base
            else h.bet
  {
    hide GoodRuns, AllTagged, NoneEmpty, TotalSize, TotalBodies, FindBlock, FreeSpace, IndexOf, HeaderOf, Int32;
    var a := HeaderOf(h.mem, p);
    var i := FindRun(h.runs, a);
    var k := FindBlock(h.runs[i].blocks, a);
    var r := RemoveBlock(h.runs[i], k);
    ValidRuns(h);
    IndexOfUnique(h.runs, i);
    if r.blocks != [] {
      var runs := h.runs[i := r];
      ReleaseKeeps(h, i, k);
      ValidRuns(Release(h, i, k));
      forall j | 0 <= j < |runs| ensures Int32(FreeSpace(runs[j])) == FreeSpace(runs[j]) {
        SmallFree(runs, j);
      }
      IndexOfUnique(runs, i);
      assert Int32(0) == 0 by { SmallInt(0); }
    }
  }

  lemma SmallInt(x: int)
    requires 0 <= x < 0x8000_0000
    ensures Int32(x) == x
  {
  }

  lemma SmallFree(runs: seq<Run>, j: nat)
    requires GoodRuns(runs) && j < |runs| && runs[j].Size() < 0x8000_0000
    ensures Int32(FreeSpace(runs[j])) == FreeSpace(runs[j])
  {
    hide Int32, GapStart, GapEnd;
    NoGapExceedsFree(runs[j], 0);
    SmallInt(FreeSpace(runs[j]));
  }

  // The majors a walk from major i looks at, given where it ends.
  predicate Visited(n: nat, i: nat, started: bool, o: Outcome, x: nat) {
    match o
    case Found(j, _, _) => if i <= j then i <= x <= j else i <= x < n || x <= j
    case Exhausted(_, _, _) => (if started then 0 else i) <= x < n
  }

  // None of them has more free space than best.
  ghost predicate NoneBetter(runs: seq<Run>, i: nat, started: bool, o: Outcome, best: int) {
    forall x :: 0 <= x < |runs| && Visited(|runs|, i, started, o, x) ==> FreeSpace(runs[x]) <= best
  }

  // y is one of them, and none of them has more.
  ghost predicate IsBest(runs: seq<Run>, i: nat, started: bool, o: Outcome, y: nat) {
    y < |runs| && Visited(|runs|, i, started, o, y) && NoneBetter(runs, i, started, o, FreeSpace(runs[y]))
  }

  // The hint stays unless a major was looked at that has more free space, and
  // then it goes to one that has most.
  ghost predicate HintIsBest(runs: seq<Run>, i: nat, started: bool, bet: nat, best: int, o: Outcome) {
    if NoneBetter(runs, i, started, o, best) then o.hint == bet && (o.Exhausted? ==> o.best == best)
    else
      exists y: nat :: IsBest(runs, i, started, o, y) && FreeSpace(runs[y]) > best && o.hint == runs[y].base
                  && (o.Exhausted? ==> o.best == FreeSpace(runs[y]))
  }

  lemma {:induction false} FoundHasRoom(runs: seq<Run>, i: nat, started: bool, bet: nat, best: int, need: nat)
    requires i < |runs|
    ensures var o := Walk(runs, i, started, bet, best, need);
            o.Found? ==> RoomIn(runs[o.run], need) <= |runs[o.run].blocks| && (!started ==> i <= o.run)
    decreases started, |runs| - i
  {
    hide RoomIn, FreeSpace;
    var free := FreeSpace(runs[i]);
    var bet' := if best < free then runs[i].base else bet;
    var best' := if best < free then free else best;
    if RoomIn(runs[i], need) > |runs[i].blocks| {
      if i + 1 < |runs| {
        FoundHasRoom(runs, i + 1, started, bet', best', need);
      } else if started {
        FoundHasRoom(runs, 0, false, bet', best', need);
      }
    }
  }

  lemma {:induction false} WalkHint(runs: seq<Run>, i: nat, started: bool, bet: nat, best: int, need: nat)
    requires i < |runs|
    ensures HintIsBest(runs, i, started, bet, best, Walk(runs, i, started, bet, best, need))
    decreases started, |runs| - i
  {
    hide RoomIn, FreeSpace, HintIsBest;
    var o := Walk(runs, i, started, bet, best, need);
    var free := FreeSpace(runs[i]);
    var bet' := if best < free then runs[i].base else bet;
    var best' := if best < free then free else best;
    if RoomIn(runs[i], need) <= |runs[i].blocks| {
      HintAtEnd(runs, i, started, bet, best, o);
    } else if i + 1 < |runs| {
      FoundHasRoom(runs, i + 1, started, bet', best', need);
      WalkHint(runs, i + 1, started, bet', best', need);
      HintOneMore(runs, i, started, i + 1, started, bet, best, o);
    } else if started {
      FoundHasRoom(runs, 0, false, bet', best', need);
      WalkHint(runs, 0, false, bet', best', need);
      HintOneMore(runs, i, started, 0, false, bet, best, o);
    } else {
      HintAtEnd(runs, i, started, bet, best, o);
    }
  }

  // The walk ends with the major it is at.
  lemma HintAtEnd(runs: seq<Run>, i: nat, started: bool, bet: nat, best: int, o: Outcome)
    requires i < |runs|
    requires forall x :: 0 <= x < |runs| ==> (Visited(|runs|, i, started, o, x) <==> x == i)
    requires o.hint == if best < FreeSpace(runs[i]) then runs[i].base else bet
    requires o.Exhausted? ==> o.best == if best < FreeSpace(runs[i]) then FreeSpace(runs[i]) else best
    ensures HintIsBest(runs, i, started, bet, best, o)
  {
    hide FreeSpace, Visited;
    if best < FreeSpace(runs[i]) { assert IsBest(runs, i, started, o, i); }
  }

  // It goes on from major i2.
  lemma HintOneMore(runs: seq<Run>, i: nat, started: bool, i2: nat, started2: bool, bet: nat, best: int, o: Outcome)
    requires i < |runs|
    requires forall x :: 0 <= x < |runs| ==>
               (Visited(|runs|, i, started, o, x) <==> x == i || Visited(|runs|, i2, started2, o, x))
    requires var free := FreeSpace(runs[i]);
             HintIsBest(runs, i2, started2, if best < free then runs[i].base else bet,
                        if best < free then free else best, o)
    ensures HintIsBest(runs, i, started, bet, best, o)
  {
    hide FreeSpace, Visited;
    var free := FreeSpace(runs[i]);
    var best' := if best < free then free else best;
    if NoneBetter(runs, i2, started2, o, best') {
      if best < free { assert IsBest(runs, i, started, o, i); }
    } else {
      var y: nat :| IsBest(runs, i2, started2, o, y) && FreeSpace(runs[y]) > best' && o.hint == runs[y].base
               && (o.Exhausted? ==> o.best == FreeSpace(runs[y]));
      assert IsBest(runs, i, started, o, y);
    }
  }

  // Where malloc's search begins: at the hint if its major has more free space
  // than needed, else at the root.
  predicate AtHint(h: Heap, need: nat) { h.bet != 0 && FreeOf(h.runs, h.bet) > need }

  function From(h: Heap, need: nat): nat { if AtHint(h, need) then IndexOf(h.runs, h.bet) else 0 }

  function HintSize(h: Heap): int { if h.bet == 0 then 0 else FreeOf(h.runs, h.bet) }

  // It is first fit from there on, round the end of the list if it has to be,
  // and takes the hint along.
  lemma SearchFromHint(h: Heap, need: nat)
    requires Valid(h) && h.runs != []
    ensures var o := Search(h, need);
            && IsFirstFit(h.runs, From(h, need), AtHint(h, need), need, o)
            && HintIsBest(h.runs, From(h, need), AtHint(h, need), h.bet, HintSize(h), o)
  {
    hide GoodRuns, AllTagged, NoneEmpty, TotalSize, TotalBodies, FreeSpace, Walk, IsFirstFit, HintIsBest;
    ValidRuns(h);
    var i, started := From(h, need), AtHint(h, need);
    WalkIsFirstFit(h.runs, i, started, h.bet, BestSize(h), need);
    WalkHint(h.runs, i, started, h.bet, BestSize(h), need);
  }

  lemma {:induction false} WalkEnds(runs: seq<Run>, i: nat, started: bool, bet: nat, best: int, need: nat)
    requires i < |runs|
    ensures var o := Walk(runs, i, started, bet, best, need);
            o.Exhausted? ==> (o.case1 <==> FreeSpace(runs[|runs| - 1]) < need)
    decreases started, |runs| - i
  {
    hide RoomIn, FreeSpace;
    var free := FreeSpace(runs[i]);
    var bet' := if best < free then runs[i].base else bet;
    var best' := if best < free then free else best;
    if RoomIn(runs[i], need) > |runs[i].blocks| {
      if i + 1 < |runs| {
        WalkEnds(runs, i + 1, started, bet', best', need);
      } else if started {
        WalkEnds(runs, 0, false, bet', best', need);
      }
    }
  }

  // After a run was requested the hint is the major with most free space of all
  // there were, or the old one if none has more; and it goes to the new run if
  // that has still more and CASE 1 did not skip the last major.
  lemma HintAfterRequest(h: Heap, req: nat, grant: nat)
    requires Request(h, req, grant) && grant != 0
    requires NoRoom(h.runs, 0, |h.runs|, BodySize(req) + MINOR_HEADER)
    ensures var b := Malloc(h, req, grant).heap.bet; var free := PagesFor(BodySize(req)) * PAGE_SIZE - MAJOR_HEADER;
            var skipped := h.runs != [] && FreeSpace(h.runs[|h.runs| - 1]) < BodySize(req) + MINOR_HEADER;
            if !skipped && HintSize(h) < free && (forall x :: 0 <= x < |h.runs| ==> FreeSpace(h.runs[x]) < free) then
              b == grant
            else if forall x :: 0 <= x < |h.runs| ==> FreeSpace(h.runs[x]) <= HintSize(h) then b == h.bet
            else exists y :: 0 <= y < |h.runs| && b == h.runs[y].base
                             && forall x :: 0 <= x < |h.runs| ==> FreeSpace(h.runs[x]) <= FreeSpace(h.runs[y])
  {
    hide GoodRuns, AllTagged, NoneEmpty, TotalSize, TotalBodies, FreeSpace, Walk, NoRoom, PagesFor, HasRoom, IndexOf,
      Search;
    var need := BodySize(req) + MINOR_HEADER;
    var o := Search(h, need);
    NothingFound(h, need);
    if h.runs != [] {
      SearchFromHint(h, need);
      assert forall x :: 0 <= x < |h.runs| ==> Visited(|h.runs|, From(h, need), AtHint(h, need), o, x);
    }
  }

  lemma NothingFound(h: Heap, need: nat)
    requires Valid(h) && NoRoom(h.runs, 0, |h.runs|, need)
    ensures var o := Search(h, need);
            && o.Exhausted?
            && (h.runs == [] ==> o == Exhausted(h.bet, HintSize(h), false))
            && (h.runs != [] ==> (o.case1 <==> FreeSpace(h.runs[|h.runs| - 1]) < need))
  {
    hide GoodRuns, AllTagged, NoneEmpty, TotalSize, TotalBodies, FreeSpace, Walk;
    SearchIsFirstFit(h, need);
    var o := Search(h, need);
    assert o.Found? ==> HasRoom(h.runs[o.run], need);
    if h.runs != [] {
      WalkEnds(h.runs, if StartsAtBet(h, need) then IndexOf(h.runs, h.bet) else 0, StartsAtBet(h, need), h.bet,
               BestSize(h), need);
    }
  }

  // ---------- what is requested and what is given back ----------

  // The page runs the heap holds, with their numbers of pages.
  function Places(runs: seq<Run>): (s: seq<(nat, nat)>)
    ensures |s| == |runs| && forall i :: 0 <= i < |runs| ==> s[i] == (runs[i].base, runs[i].pages)
  {
    seq(|runs|, i requires 0 <= i < |runs| => (runs[i].base, runs[i].pages))
  }

  function Held(h: Heap): multiset<(nat, nat)> { multiset(Places(h.runs)) }

  // What malloc takes from the provider: a run, if no gap fits and there is one.
  ghost function Taken(h: Heap, req: nat, grant: nat): seq<(nat, nat)> {
    if grant != 0 && NoRoom(h.runs, 0, |h.runs|, BodySize(req) + MINOR_HEADER) then
      [(grant, PagesFor(BodySize(req)))]
    else []
  }

  lemma MallocBooks(h: Heap, req: nat, grant: nat)
    requires Request(h, req, grant)
    ensures Held(Malloc(h, req, grant).heap) == Held(h) + multiset(Taken(h, req, grant))
  {
    hide Malloc, Valid, NoRoom, PagesFor, FirstRoom;
    var m := Malloc(h, req, grant);
    MallocKeeps(h, req, grant);
    if m.ptr == 0 {
      assert Places(m.heap.runs) == Places(h.runs);
    } else {
      MallocSpot(h, req, grant);
      assert Places(m.heap.runs) == Places(h.runs) + Taken(h, req, grant);
    }
  }

  lemma FreeAtBooks(h: Heap, a: nat, magic: nat)
    ensures Held(FreeAt(h, a, magic).heap) + multiset(GivenBack(h, a)) == Held(h)
  {
    hide Release, IndexOf, Live, LooksOverrun, Places;
    if Live(h.runs, a) {
      var i := LiveRun(h.runs, a);
      ReleaseBooks(h, i, FindBlock(h.runs[i].blocks, a));
    }
  }

  lemma ReleaseBooks(h: Heap, i: nat, k: nat)
    requires i < |h.runs| && k < |h.runs[i].blocks|
    ensures Places(Release(h, i, k).runs) ==
            if |h.runs[i].blocks| == 1 then Places(h.runs)[..i] + Places(h.runs)[i + 1..] else Places(h.runs)
    ensures Held(h) == multiset(Places(h.runs)[..i] + Places(h.runs)[i + 1..]) + multiset{Places(h.runs)[i]}
  {
    hide FreeOf, FreeSpace, Int32, IndexOf;
    var all := Places(h.runs);
    assert all == all[..i] + [all[i]] + all[i + 1..];
  }

  lemma LiveRun(runs: seq<Run>, a: nat) returns (i: nat)
    requires Live(runs, a)
    ensures i == FindRun(runs, a) < |runs| && FindBlock(runs[i].blocks, a) < |runs[i].blocks|
  {
    i := FindRun(runs, a);
  }

  ghost function ReallocTakes(h: Heap, p: nat, size: nat, grant: nat): seq<(nat, nat)>
    requires |h.mem| == ADDRESS_SPACE && p < ADDRESS_SPACE
  {
    if size > 0 && (p == 0 || (Live(h.runs, HeaderOf(h.mem, p)) && BlockAt(h.runs, HeaderOf(h.mem, p)).req < size)) then
      Taken(h, size, grant)
    else []
  }

  // The runs taken are those held afterwards and those given back, each with
  // the pages it was requested with.
  lemma ReallocBooks(h: Heap, p: nat, size: nat, grant: nat, magic: nat)
    requires ReallocRequest(h, p, size, grant)
    ensures Held(Realloc(h, p, size, grant, magic).heap) + multiset(ReallocGives(h, p, size, grant)) ==
            Held(h) + multiset(ReallocTakes(h, p, size, grant))
  {
    hide Malloc, Valid, Held, FreeAt, GivenBack, Taken, Live, BlockAt, HeaderOf, FindRun, FindBlock;
    ValidMemory(h);
    if size == 0 {
      if p != 0 { FreeAtBooks(h, HeaderOf(h.mem, p), magic); } else { WarnHeld(h); }
    } else if p == 0 {
      MallocBooks(h, size, grant);
    } else {
      var a := HeaderOf(h.mem, p);
      if !Live(h.runs, a) {
        FreeAtBooks(h, a, magic);
        assert GivenBack(h, a) == [] by { GivesNothing(h, a); }
      } else {
        var n := BlockAt(h.runs, a).req;
        if n >= size {
          ShrinkHeld(h, a, size);
        } else {
          MallocBooks(h, size, grant);
          var c := Copied(h, p, size, grant, n);
          SameRunsHeld(Malloc(h, size, grant).heap, c);
          FreeAtBooks(c, HeaderOf(c.mem, p), magic);
        }
      }
    }
  }

  lemma WarnHeld(h: Heap)
    ensures Held(h.(warnings := h.warnings + 1)) == Held(h)
  {
  }

  lemma SameRunsHeld(h: Heap, h': Heap)
    requires h'.runs == h.runs
    ensures Held(h') == Held(h)
  {
  }

  lemma GivesNothing(h: Heap, a: nat)
    requires !Live(h.runs, a)
    ensures GivenBack(h, a) == []
  {
  }

  lemma ShrinkHeld(h: Heap, a: nat, req: nat)
    requires Live(h.runs, a)
    ensures Held(SetReq(h, a, req)) == Held(h)
  {
    var i := LiveRun(h.runs, a);
    assert Places(SetReq(h, a, req).runs) == Places(h.runs);
  }
}
