// liballoc itself: the global list heads and counters, the headers reached by
// address, the byte memory and the lock. Each operation is proved to do to
// the headers and bytes what HeapModel says it does to the runs.
module LibAlloc {
  import opened ByteSeqs
  import opened HeapModel
  import opened HeapGeometry
  import opened HeapSafety
  import opened HeapContents
  import opened LibAllocStore
  import opened LibAllocSteps

  class Allocator {
    var memRoot: nat
    var bestBet: nat
    var acquired: int
    var inuse: int
    var warnings: nat
    var errors: nat
    var overruns: nat
    var majors: map<nat, Major>
    var minors: map<nat, Minor>
    var mem: seq<Byte>
    var locked: bool
    // The page runs handed back to the provider, with their numbers of pages.
    var given: seq<(nat, nat)>
    ghost var runs: seq<Run>

    ghost function Model(): Heap
      reads this
    {
      Heap(runs, bestBet, mem, acquired, inuse, warnings, errors, overruns)
    }

    ghost predicate Linkage()
      reads this
    {
      Represents(majors, minors, memRoot, runs)
    }

    ghost predicate Consistent()
      reads this
    {
      Valid(Model()) && Linkage()
    }

    constructor (memory: seq<Byte>)
      requires |memory| == ADDRESS_SPACE
      ensures Consistent() && !locked
      ensures Model() == Heap([], 0, memory, 0, 0, 0, 0, 0) && given == []
    {
      memRoot, bestBet, acquired, inuse, warnings, errors, overruns := 0, 0, 0, 0, 0, 0, 0;
      majors, minors, mem, locked, runs, given := map[], map[], memory, false, [], [];
    }

    method Lock()
      requires !locked
      modifies this`locked
      ensures locked
    {
      locked := true;
    }

    method Unlock()
      requires locked
      modifies this`locked
      ensures !locked
    {
      locked := false;
    }

    // ALIGN on a raw body address, leaving the note behind.
    method AlignPointer(raw: nat, ghost b: Block) returns (p: nat)
      requires raw == b.Body() && TagAddress(b) < |mem|
      modifies this`mem
      ensures p == b.Payload() && mem == Mark(old(mem), b)
    {
      p := raw + ALIGN_INFO;
      var diff := p % ALIGNMENT;
      if diff != 0 {
        diff := ALIGNMENT - diff;
        p := p + diff;
      }
      mem := mem[p - ALIGN_INFO := diff + ALIGN_INFO];
    }

    method UnalignPointer(p: nat) returns (ptr: nat)
      requires |mem| == ADDRESS_SPACE && p < ADDRESS_SPACE
      ensures ptr == Unalign(mem, p)
    {
      var diff := mem[Sub32(p, ALIGN_INFO)];
      ptr := p;
      if diff < ALIGNMENT + ALIGN_INFO {
        ptr := Sub32(p, diff);
      }
    }

    // The header fields written when a block is put at the address at,
    // between its neighbours before and after (0 where there is none).
    method Install(maj: nat, at: nat, before: nat, after: nat, size: nat, req: nat, ghost i: nat, ghost k: nat)
      returns (p: nat)
      requires Linkage() && CanPlace(Model(), i, k, size, req)
      requires maj == runs[i].base && at == GapStart(runs[i], k)
      requires before == Before(runs[i], k) && after == After(runs[i], k)
      modifies this`majors, this`minors, this`mem, this`inuse, this`runs
      ensures Linkage()
      ensures var r := Place(old(Model()), i, k, size, req); Model() == r.heap && p == r.ptr && p != 0
    {
      hide GoodRuns, Represents, NoneEmpty, AllTagged, TotalSize, TotalBodies, IndexOf, Usage, Live;
      ghost var b := NewBlock(Model(), i, k, size, req);
      PlacedRunsGood(Model(), i, k, size, req);
      PlacedTags(Model(), i, k, size, req);
      PayloadInBody(b);
      InstallRepresents(majors, minors, memRoot, runs, i, k, b);

      minors := minors[at := Minor(before, after, maj, MAGIC, size, req)];
      if before != 0 {
        minors := minors[before := minors[before].(next := at)];
      } else {
        majors := majors[maj := majors[maj].(first := at)];
      }
      if after != 0 {
        minors := minors[after := minors[after].(prev := at)];
      }
      majors := majors[maj := majors[maj].(usage := majors[maj].usage + (size + MINOR_HEADER))];
      inuse := inuse + size;
      p := AlignPointer(at + MINOR_HEADER, b);
      runs := runs[i := InsertBlock(runs[i], k, b)];
    }

    // CASE 4: look for space behind one of the minors of a major.
    method SearchBehind(maj: nat, size: nat, req: nat, ghost i: nat) returns (p: nat)
      requires Linkage() && Sound(Model()) && i < |runs| && maj == runs[i].base
      requires NoneEmpty(runs)
      requires size == BodySize(req)
      requires FreeSpace(runs[i]) >= size + MINOR_HEADER && Gap(runs[i], 0) < size + MINOR_HEADER
      modifies this`majors, this`minors, this`mem, this`inuse, this`runs
      ensures Linkage()
      ensures var g := RoomIn(old(runs[i]), size + MINOR_HEADER);
              if g <= |old(runs[i]).blocks| then
                var r := Place(old(Model()), i, g, size, req);
                Model() == r.heap && p == r.ptr && p != 0
              else
                Model() == old(Model()) && p == 0 && majors == old(majors) && minors == old(minors)
    {
      hide GoodRuns, AllTagged, TotalSize, TotalBodies, IndexOf, Usage, Place, GoodRun, Gap, GapStart, Before, After,
        MajorsMatch, MinorsMatch, MagicMatch;
      ghost var r := runs[i];
      var need := size + MINOR_HEADER;
      MajorFacts(majors, runs, i);
      GoodRunAt(runs, i);
      NotNull(runs, i);
      var min := majors[maj].first;
      ghost var k := 0;
      while min != 0
        invariant k <= |r.blocks| && min == (if k == |r.blocks| then 0 else r.blocks[k].addr)
        invariant forall j :: 0 <= j <= k && j <= |r.blocks| ==> Gap(r, j) < need
        invariant unchanged(this)
        decreases |r.blocks| - k
      {
        MinorFacts(minors, runs, i, k);
        GapBehind(r, k);
        if minors[min].next == 0 {
          // CASE 4.1: the tail of the major.
          var diff := maj + majors[maj].size - min - MINOR_HEADER - minors[min].size;
          if diff >= need {
            p := Install(maj, min + MINOR_HEADER + minors[min].size, min, 0, size, req, i, k + 1);
            return;
          }
        }
        if minors[min].next != 0 {
          // CASE 4.2: between two minors.
          var diff := minors[min].next - min - MINOR_HEADER - minors[min].size;
          if diff >= need {
            p := Install(maj, min + MINOR_HEADER + minors[min].size, min, minors[min].next, size, req, i, k + 1);
            return;
          }
        }
        min := minors[min].next;
        k := k + 1;
      }
      p := 0;
    }

    // CASES 2 to 4: look for room in one major that has enough of it in total.
    method SearchMajor(maj: nat, size: nat, req: nat, ghost i: nat) returns (p: nat)
      requires Linkage() && Sound(Model()) && i < |runs| && maj == runs[i].base
      requires NoneEmptyBut(runs, i)
      requires size == BodySize(req) && FreeSpace(runs[i]) >= size + MINOR_HEADER
      modifies this`majors, this`minors, this`mem, this`inuse, this`runs
      ensures Linkage()
      ensures var g := RoomIn(old(runs[i]), size + MINOR_HEADER);
              if g <= |old(runs[i]).blocks| then
                var r := Place(old(Model()), i, g, size, req);
                Model() == r.heap && p == r.ptr && p != 0
              else
                Model() == old(Model()) && p == 0 && majors == old(majors) && minors == old(minors)
    {
      hide GoodRuns, AllTagged, TotalSize, TotalBodies, IndexOf, Usage, MagicMatch, Place, GoodRun;
      ghost var r := runs[i];
      var need := size + MINOR_HEADER;
      GoodRunAt(runs, i);
      NotNull(runs, i);
      assert majors[maj] == MajorOf(runs, i);
      if majors[maj].first == 0 {
        // CASE 2: a brand new block.
        EmptyRunRoom(r);
        p := Install(maj, maj + MAJOR_HEADER, 0, 0, size, req, i, 0);
        return;
      }
      // CASE 3: space at the start.
      var first := majors[maj].first;
      assert Gap(r, 0) == first - maj - MAJOR_HEADER;
      NoGapExceedsFree(r, 0);
      var diff := first - maj - MAJOR_HEADER;
      if diff >= need {
        p := Install(maj, maj + MAJOR_HEADER, 0, first, size, req, i, 0);
        return;
      }
      p := SearchBehind(maj, size, req, i);
    }

    // ---------- asking for more memory ----------

    // A granted run gets its header; a refusal costs a warning. The grant
    // stands for the answer of the page provider.
    method AllocateNewPage(size: nat, grant: nat) returns (maj: nat)
      modifies this`majors, this`acquired, this`warnings
      ensures maj == grant
      ensures grant == 0 ==> warnings == old(warnings) + 1 && majors == old(majors) && acquired == old(acquired)
      ensures grant != 0 ==>
                && warnings == old(warnings)
                && acquired == old(acquired) + PagesFor(size) * PAGE_SIZE
                && var m := Major(0, 0, PagesFor(size), PagesFor(size) * PAGE_SIZE, MAJOR_HEADER, 0);
                   majors == old(majors)[grant := m]
    {
      var st := size + MAJOR_HEADER;
      st := st + MINOR_HEADER;
      if st % PAGE_SIZE == 0 {
        st := st / PAGE_SIZE;
      } else {
        st := st / PAGE_SIZE + 1;
      }
      if st < MIN_PAGES {
        st := MIN_PAGES;
      }
      maj := grant;
      if maj == 0 {
        warnings := warnings + 1;
        return;
      }
      majors := majors[maj := Major(0, 0, st, st * PAGE_SIZE, MAJOR_HEADER, 0)];
      acquired := acquired + majors[maj].size;
    }

    // The request behind the last major, linked into the list.
    method Extend(maj: nat, size: nat, grant: nat) returns (next: nat)
      requires Linkage() && Valid(Model()) && runs != [] && maj == runs[|runs| - 1].base
      requires Granted(runs, grant, PagesFor(size))
      modifies this`majors, this`acquired, this`warnings, this`runs
      ensures Linkage() && next == grant
      ensures Model() == if grant == 0 then old(Model()).(warnings := old(warnings) + 1)
                         else Grow(old(Model()), grant, PagesFor(size))
      ensures grant != 0 ==> Sound(Model())
    {
      hide GoodRuns, NoneEmpty, AllTagged, TotalSize, TotalBodies, IndexOf, Usage, MagicMatch, MinorsMatch,
        MajorsMatch, Appended;
      ghost var r := Run(grant, PagesFor(size), []);
      LastInMajors(majors, runs);
      next := AllocateNewPage(size, grant);
      if next != 0 {
        FreshRunHasRoom(grant, size);
        GrowKeeps(old(Model()), grant, PagesFor(size));
        ExtendedMajors(old(majors), runs, r);
        RepresentsAppend(old(majors), minors, memRoot, runs, r);
      }
      majors := majors[maj := majors[maj].(next := next)];
      if next == 0 {
        assert majors == old(majors);
        return;
      }
      majors := majors[next := majors[next].(prev := maj)];
      runs := runs + [r];
    }

    // The very first request, which also sets the root.
    method Begin(size: nat, grant: nat) returns (root: nat)
      requires Linkage() && Valid(Model()) && runs == []
      requires Granted(runs, grant, PagesFor(size))
      modifies this`memRoot, this`majors, this`acquired, this`warnings, this`runs
      ensures Linkage() && root == grant == memRoot
      ensures Model() == if grant == 0 then old(Model()).(warnings := old(warnings) + 1)
                         else Grow(old(Model()), grant, PagesFor(size))
      ensures grant != 0 ==> Sound(Model())
    {
      hide GoodRuns, NoneEmpty, AllTagged, TotalSize, TotalBodies, IndexOf, Usage, PagesFor, MinorsMatch, MagicMatch;
      ghost var r := Run(grant, PagesFor(size), []);
      memRoot := AllocateNewPage(size, grant);
      root := memRoot;
      if memRoot != 0 {
        FreshRunHasRoom(grant, size);
        GrowKeeps(old(Model()), grant, PagesFor(size));
        AppendedHeaders(runs, r);
        RepresentsAppend(old(majors), minors, old(memRoot), runs, r);
        runs := runs + [r];
      }
    }

    // ---------- malloc ----------

    // The round of malloc's loop at a major that was requested just before.
    // It is compared with the hint first, unless the loop reached it by
    // falling through from CASE 1; then it is found to be brand new.
    method UseFresh(maj: nat, size: nat, req: nat, compare: bool, bestSize: int, ghost h: Heap, ghost pages: nat)
      returns (p: nat)
      requires Linkage() && Sound(Model()) && Valid(h)
      requires maj != 0 && size == BodySize(req) && pages == PagesFor(size) && Model() == Grow(h, maj, pages)
      modifies this`bestBet, this`majors, this`minors, this`mem, this`inuse, this`runs
      ensures Linkage()
      ensures var hint := if compare && bestSize < pages * PAGE_SIZE - MAJOR_HEADER then maj else h.bet;
              var m := PlaceFresh(h, hint, req, maj);
              Model() == m.heap && p == m.ptr
    {
      hide GoodRuns, AllTagged, TotalSize, TotalBodies, Place, Represents, PagesFor, RoomIn, IndexOf;
      ghost var i := |h.runs|;
      MajorView(majors, minors, memRoot, runs, i);
      IndexOfUnique(runs, i);
      FreshRoom(maj, size);
      EmptyRunRoom(runs[i]);
      var diff := majors[maj].size - majors[maj].usage;
      if compare && bestSize < diff {
        bestBet := maj;
      }
      p := SearchMajor(maj, size, req, i);
    }

    // The end of the list: request a major and use it, or give up.
    method ExtendAndUse(maj: nat, size: nat, req: nat, grant: nat, compare: bool, bestSize: int, ghost h: Heap)
      returns (p: nat)
      requires Linkage() && Valid(Model()) && Model() == h.(bet := bestBet)
      requires runs != [] && maj == runs[|runs| - 1].base
      requires size == BodySize(req) && Granted(runs, grant, PagesFor(size))
      modifies this`bestBet, this`majors, this`minors, this`mem, this`acquired, this`inuse, this`warnings, this`runs
      ensures Linkage()
      ensures var o := Exhausted(old(bestBet), bestSize, !compare);
              var m := if grant == 0 then Result(h.(bet := o.hint, warnings := h.warnings + 1), 0)
                       else PlaceFresh(h, FreshHint(o, req, grant), req, grant);
              Model() == m.heap && p == m.ptr
    {
      hide GoodRuns, Valid, Sound, Place, Represents, PagesFor, Granted, Grow;
      ghost var h' := Model();
      var next := Extend(maj, size, grant);
      if next == 0 {
        return 0;
      }
      p := UseFresh(next, size, req, compare, bestSize, h', PagesFor(size));
    }

    // One round of malloc's loop: the hint is improved, and the major is used if
    // it has room.
    method Visit(maj: nat, bestSize: int, size: nat, req: nat, ghost i: nat) returns (p: nat, best: int, diff: int)
      requires Linkage() && Valid(Model()) && i < |runs| && maj == runs[i].base && size == BodySize(req)
      modifies this`bestBet, this`majors, this`minors, this`mem, this`inuse, this`runs
      ensures Linkage()
      ensures diff == FreeSpace(old(runs[i])) && best == if bestSize < diff then diff else bestSize
      ensures var r := old(runs[i]); var need := size + MINOR_HEADER; var g := RoomIn(r, need);
              var h := old(Model()).(bet := if bestSize < diff then maj else old(bestBet));
              if g <= |r.blocks| then
                var m := Place(h, i, g, size, req);
                Model() == m.heap && p == m.ptr && p != 0
              else
                Model() == h && Valid(h) && p == 0 && majors == old(majors) && minors == old(minors)
    {
      hide GoodRuns, Valid, Sound, Place, Represents, RoomIn, FreeSpace, IndexOf, NoneEmptyBut;
      Round(Model(), majors, minors, memRoot, i);
      RoomNeedsFree(runs[i], size + MINOR_HEADER);
      p, best := 0, bestSize;
      diff := majors[maj].size - majors[maj].usage;
      if bestSize < diff {
        bestBet := maj;
        best := diff;
      }
      if diff >= size + MINOR_HEADER {
        p := SearchMajor(maj, size, req, i);
      }
    }

    // malloc's loop over the majors, entered with the lock held.
    method Scan(start: nat, fromBet: bool, best: int, req: nat, grant: nat, ghost at: nat, ghost h: Heap)
      returns (p: nat)
      requires Linkage() && Valid(Model()) && Model() == h && locked
      requires at < |runs| && start == runs[at].base && Granted(runs, grant, PagesFor(BodySize(req)))
      requires Search(h, BodySize(req) + MINOR_HEADER) ==
               Walk(runs, at, fromBet, bestBet, best, BodySize(req) + MINOR_HEADER)
      modifies this`memRoot, this`bestBet, this`acquired, this`inuse, this`warnings, this`majors, this`minors, this`mem,
        this`locked, this`runs
      ensures Linkage() && !locked
      ensures var m := HeapModel.Malloc(h, req, grant); Model() == m.heap && p == m.ptr
    {
      hide GoodRuns, Valid, Sound, Place, Represents, PagesFor, RoomIn, Walk, Search, FreeSpace, IndexOf,
        NoneEmptyBut, PlaceFresh, FreshHint, HeapModel.Malloc, Granted, Grow;
      MallocCases(h, req, grant);
      var size := req + ALIGNMENT + ALIGN_INFO;
      var need := size + MINOR_HEADER;
      ghost var found := Search(h, need);
      ValidIsSound(h, 0);
      RootFacts(majors, minors, memRoot, runs);
      MajorView(majors, minors, memRoot, runs, at);
      var maj, startedBet, bestSize := start, fromBet, best;
      ghost var i: nat := at;
      while maj != 0
        invariant locked && Linkage() && i < |runs| && maj == runs[i].base != 0 && memRoot == runs[0].base
        invariant Valid(Model()) && Model() == h.(bet := bestBet)
        invariant found == Walk(runs, i, startedBet, bestBet, bestSize, need)
        decreases startedBet, |runs| - i
      {
        Round(Model(), majors, minors, memRoot, i);
        WalkStep(runs, i, startedBet, bestBet, bestSize, need);
        var diff: int;
        p, bestSize, diff := Visit(maj, bestSize, size, req, i);
        if p != 0 {
          Unlock();
          return p;
        }
        // CASE 1 (not enough space in this major) and CASE 5 (no gap of it
        // fits) leave it the same way: on to the next one, once more from the
        // root after a start at the hint, or on to a requested one.
        if majors[maj].next != 0 {
          maj := majors[maj].next;
          i := i + 1;
        } else if startedBet {
          maj := memRoot;
          startedBet := false;
          i := 0;
        } else {
          p := ExtendAndUse(maj, size, req, grant, diff >= need, bestSize, h);
          if p == 0 {
            break;
          }
          Unlock();
          return p;
        }
      }
      Unlock();
      p := 0;
    }

    method Malloc(req: nat, grant: nat) returns (p: nat)
      requires Consistent() && !locked
      requires Fits32(req) && Granted(runs, grant, PagesFor(BodySize(req)))
      modifies this`memRoot, this`bestBet, this`acquired, this`inuse, this`warnings, this`majors, this`minors, this`mem,
        this`locked, this`runs
      ensures Consistent() && !locked
      ensures var m := HeapModel.Malloc(old(Model()), req, grant); Model() == m.heap && p == m.ptr
    {
      hide GoodRuns, Valid, Sound, Place, Represents, PagesFor, Walk, Search, FreeSpace, IndexOf, PlaceFresh,
        HeapModel.Malloc, Granted, Grow;
      ghost var h := Model();
      MallocKeeps(h, req, grant);
      MallocCases(h, req, grant);
      ValidIsSound(h, 0);
      var size := req + ALIGNMENT + ALIGN_INFO;
      SearchStart(h, size + MINOR_HEADER);
      RootFacts(majors, minors, memRoot, runs);
      var bestSize := 0;
      var startedBet := false;
      Lock();
      if memRoot == 0 {
        var root := Begin(size, grant);
        if root == 0 {
          Unlock();
          return 0;
        }
        p := UseFresh(root, size, req, true, bestSize, h, PagesFor(size));
        Unlock();
        return p;
      }
      var maj := memRoot;
      ghost var i: nat := 0;
      if bestBet != 0 {
        MajorView(majors, minors, memRoot, runs, IndexOf(runs, bestBet));
        bestSize := majors[bestBet].size - majors[bestBet].usage;
        if bestSize > size + MINOR_HEADER {
          maj := bestBet;
          startedBet := true;
          i := IndexOf(runs, bestBet);
        }
      }
      p := Scan(maj, startedBet, bestSize, req, grant, i, h);
    }

    // ---------- free ----------

    // The word found where the header of address a would have its magic:
    // a header written there before, or whatever four bytes are there.
    function MagicAt(a: nat): nat
      requires |mem| == ADDRESS_SPACE && a < ADDRESS_SPACE
      reads this
    {
      if a in minors then minors[a].magic
      else
        var b0: nat, b1: nat := mem[(a + 12) % ADDRESS_SPACE], mem[(a + 13) % ADDRESS_SPACE];
        var b2: nat, b3: nat := mem[(a + 14) % ADDRESS_SPACE], mem[(a + 15) % ADDRESS_SPACE];
        b0 + 0x100 * b1 + 0x1_0000 * b2 + 0x100_0000 * b3
    }

    ghost function WordFound(p: nat): nat
      requires |mem| == ADDRESS_SPACE && p < ADDRESS_SPACE
      reads this
    {
      if p == 0 then 0 else MagicAt(HeaderOf(mem, p))
    }

    // One error, and a possible overrun exactly if the lowest byte is the
    // magic's: what the two other comparisons look for is part of that.
    method ReportBadHeader(magic: nat)
      modifies this`errors, this`overruns
      ensures errors == old(errors) + 1
      ensures overruns == old(overruns) + if LooksOverrun(magic) then 1 else 0
      ensures LooksOverrun(magic) <==> magic % 0x100 == 0xde
      ensures magic == DEAD ==> overruns == old(overruns)
    {
      OverrunIsLowByte(magic);
      errors := errors + 1;
      if magic % 0x100_0000 == MAGIC % 0x100_0000 || magic % 0x1_0000 == MAGIC % 0x1_0000
         || magic % 0x100 == MAGIC % 0x100 {
        overruns := overruns + 1;
      }
    }

    // Unlinking the minor at min, which is block k of run i.
    method Unlink(min: nat, ghost rs: seq<Run>, ghost i: nat, ghost k: nat)
      requires i < |rs| && k < |rs[i].blocks| && min == rs[i].blocks[k].addr
      requires rs == runs && Linkage() && GoodRuns(rs)
      modifies this`majors, this`minors, this`inuse
      ensures inuse == old(inuse) - rs[i].blocks[k].size
      ensures minors == Unlinked(old(minors), rs[i], k)
      ensures majors == WithMajor(old(majors), rs, i, RemoveBlock(rs[i], k))
    {
      hide GoodRuns, MinorsMatch, MajorsMatch, MagicMatch, Unlinked, WithMajor;
      UnstitchedMinors(minors, runs, i, k);
      UnstitchedMajors(majors, runs, i, k);
      var maj := minors[min].block;
      inuse := inuse - minors[min].size;
      majors := majors[maj := majors[maj].(usage := majors[maj].usage - (minors[min].size + MINOR_HEADER))];
      minors := minors[min := minors[min].(magic := DEAD)];
      var m := minors[min];
      if m.next != 0 {
        minors := minors[m.next := minors[m.next].(prev := m.prev)];
      }
      if m.prev != 0 {
        minors := minors[m.prev := minors[m.prev].(next := m.next)];
      }
      if m.prev == 0 {
        majors := majors[maj := majors[maj].(first := m.next)];
      }
    }

    // Giving an empty major back: it leaves the list, and the hint if it was it.
    method Discard(maj: nat, ghost rs: seq<Run>, ghost i: nat)
      requires i < |rs| && maj == rs[i].base && |rs[i].blocks| == 1
      requires GoodRuns(rs) && MajorsMatch(majors, rs[i := RemoveBlock(rs[i], 0)]) && memRoot == RootOf(rs)
      modifies this`memRoot, this`bestBet, this`majors, this`acquired, this`given
      ensures memRoot == RootOf(rs[..i] + rs[i + 1..])
      ensures given == old(given) + [(maj, rs[i].pages)]
      ensures bestBet == if old(bestBet) == maj then 0 else old(bestBet)
      ensures acquired == old(acquired) - rs[i].Size()
      ensures majors == Joined(old(majors), rs, i)
    {
      hide GoodRuns, MajorsMatch, Joined, MajorOf, Usage;
      DiscardedMajors(majors, rs, i);
      var m := majors[maj];
      if memRoot == maj {
        memRoot := m.next;
      }
      if bestBet == maj {
        bestBet := 0;
      }
      if m.prev != 0 {
        majors := majors[m.prev := majors[m.prev].(next := m.next)];
      }
      if m.next != 0 {
        majors := majors[m.next := majors[m.next].(prev := m.prev)];
      }
      acquired := acquired - m.size;
      given := given + [(maj, m.pages)];
      majors := majors - {maj};
    }

    // The hint after one of the blocks of the major at maj was freed.
    method ImproveHint(maj: nat, ghost rs: seq<Run>, ghost i: nat)
      requires i < |rs| && maj == rs[i].base && GoodRuns(rs) && MajorsMatch(majors, rs)
      requires bestBet == 0 || IndexOf(rs, bestBet) < |rs|
      modifies this`bestBet
      ensures var better := old(bestBet) != 0 && Int32(FreeSpace(rs[i])) > Int32(FreeOf(rs, old(bestBet)));
              bestBet == if better then maj else old(bestBet)
    {
      hide GoodRuns, MajorsMatch, Usage;
      MajorFacts(majors, rs, i);
      if bestBet != 0 {
        MajorFacts(majors, rs, IndexOf(rs, bestBet));
        var bestSize := Int32(majors[bestBet].size - majors[bestBet].usage);
        var majSize := Int32(majors[maj].size - majors[maj].usage);
        if majSize > bestSize {
          bestBet := maj;
        }
      }
    }

    // Taking block k of run i out of the heap.
    method ReleaseBlock(min: nat, ghost i: nat, ghost k: nat)
      requires i < |runs| && k < |runs[i].blocks| && min == runs[i].blocks[k].addr
      requires Consistent() && min in minors && minors[min].block == runs[i].base
      modifies this`memRoot, this`bestBet, this`majors, this`minors, this`acquired, this`inuse, this`runs, this`given
      ensures Consistent()
      ensures Model() == Release(old(Model()), i, k)
      ensures given == old(given) + if |old(runs)[i].blocks| == 1 then [(old(runs)[i].base, old(runs)[i].pages)] else []
    {
      hide GoodRuns, NoneEmpty, AllTagged, TotalSize, TotalBodies, MajorsMatch, MinorsMatch, MagicMatch, Usage,
        Unlinked, WithMajor, IndexOf, Joined, MajorOf, Int32, FreeSpace, FreeOf;
      ghost var rs := runs;
      ghost var r' := RemoveBlock(rs[i], k);
      ReleaseKeeps(Model(), i, k);
      MajorsAfterUpdate(majors, rs, i, r');
      WithMajorIs(majors, rs, i, r');
      var maj := minors[min].block;
      Unlink(min, rs, i, k);
      MajorFacts(majors, rs[i := r'], i);
      if majors[maj].first == 0 {
        LastBlock(rs, i, k);
        DropRun(rs, i);
        RepresentsDrop(old(majors), old(minors), memRoot, rs, i);
        JoinedIgnores(old(majors), rs, i, r');
        Discard(maj, rs, i);
        runs := rs[..i] + rs[i + 1..];
      } else {
        MoreBlocks(rs, i, k);
        RemovedRunsGood(rs, i, k);
        RepresentsRemove(old(majors), old(minors), memRoot, rs, i, k);
        runs := rs[i := r'];
        ImproveHint(maj, runs, i);
      }
    }

    // stray: the magic stands where no header of the heap is. What is unlinked
    // then is not modelled; the lock is held and nothing is changed yet.
    method Free(p: nat) returns (stray: bool)
      requires Consistent() && !locked && p < ADDRESS_SPACE
      modifies this
      ensures Consistent() && locked == stray
      ensures var f := FreePtr(old(Model()), p, old(WordFound(p))); stray == f.Astray? && Model() == f.heap
      ensures given == old(given) + FreeGives(old(Model()), p)
    {
      hide GoodRuns, NoneEmpty, AllTagged, TotalSize, TotalBodies, MajorsMatch, MinorsMatch, MagicMatch, Represents,
        IndexOf, MajorOf, LooksOverrun, Release, FindRun, FindBlock;
      FreeKeeps(Model(), p, WordFound(p));
      stray := false;
      if p == 0 {
        warnings := warnings + 1;
        return;
      }
      var ptr := UnalignPointer(p);
      Lock();
      var min := Sub32(ptr, MINOR_HEADER);
      MagicTells(majors, minors, memRoot, runs, min);
      if MagicAt(min) != MAGIC {
        ReportBadHeader(MagicAt(min));
        Unlock();
        return;
      }
      if min !in minors {
        return true;
      }
      BlockOfHeader(majors, minors, memRoot, runs, min);
      ghost var i := FindRun(runs, min);
      ghost var k := FindBlock(runs[i].blocks, min);
      ReleaseBlock(min, i, k);
      Unlock();
    }

    // ---------- realloc ----------

    // liballoc_memcpy: whole words first, then the bytes that are left.
    method MemCpy(s1: nat, s2: nat, n: nat)
      requires s1 + n <= |mem| && s2 + n <= |mem|
      requires s1 + n <= s2 || s2 + n <= s1
      modifies this`mem
      ensures mem == CopyBytes(old(mem), s1, s2, n)
    {
      hide CopyBytes;
      ghost var m := mem;
      var dest, src, left := s1, s2, n;
      CopyNone(m, s1, s2);
      while left >= 4
        invariant 0 <= left <= n && dest == s1 + (n - left) && src == s2 + (n - left)
        invariant mem == CopyBytes(m, s1, s2, n - left)
      {
        CopyFour(m, s1, s2, n - left, mem);
        var b0, b1, b2, b3 := mem[src], mem[src + 1], mem[src + 2], mem[src + 3];
        mem := mem[dest := b0][dest + 1 := b1][dest + 2 := b2][dest + 3 := b3];
        dest, src, left := dest + 4, src + 4, left - 4;
      }
      while left > 0
        invariant 0 <= left <= n && dest == s1 + (n - left) && src == s2 + (n - left)
        invariant mem == CopyBytes(m, s1, s2, n - left)
      {
        CopyOne(m, s1, s2, n - left, mem);
        mem := mem[dest := mem[src]];
        dest, src, left := dest + 1, src + 1, left - 1;
      }
    }

    // What realloc may be given: null, a pointer of its own, or one that leads
    // to no block, though not one into a block that leads back to it.
    ghost predicate Acceptable(p: nat)
      reads this
    {
      |mem| == ADDRESS_SPACE && p < ADDRESS_SPACE
      && (p == 0 || Owned(Model(), p) || !Live(runs, HeaderOf(mem, p)))
    }

    // Shrinking: the header takes the new request.
    method ShrinkInPlace(min: nat, size: nat)
      requires Consistent() && Live(runs, min) && size <= BlockAt(runs, min).req && min in minors
      modifies this`minors, this`runs
      ensures Consistent() && Model() == SetReq(old(Model()), min, size)
    {
      hide GoodRuns, NoneEmpty, AllTagged, TotalSize, TotalBodies, IndexOf, Represents, MinorOf;
      ghost var i := FindRun(runs, min);
      ghost var k := FindBlock(runs[i].blocks, min);
      MinorHeader(majors, minors, memRoot, runs, i, k);
      RepresentsSetReq(majors, minors, memRoot, runs, i, k, size);
      ShrinkValid(Model(), min, size);
      minors := minors[min := minors[min].(req := size)];
      runs := WithReq(runs, i, k, size);
    }

    // Growing: a new block, a copy of the n old bytes, and the old block freed.
    method MoveBlock(p: nat, size: nat, grant: nat, n: nat) returns (q: nat, fault: bool)
      requires Consistent() && !locked && Owned(Model(), p)
      requires n == BlockAt(runs, HeaderOf(mem, p)).req < size
      requires Fits32(size) && Granted(runs, grant, PagesFor(BodySize(size)))
      modifies this
      ensures Consistent() && !locked
      ensures var m := HeapModel.Malloc(old(Model()), size, grant);
              if m.ptr == 0 && n > 0 then fault && Model() == m.heap
              else !fault && q == m.ptr
                   && AfterFree(FreePtr(Copied(old(Model()), p, size, grant, n), p, MAGIC), q) == Returned(Model(), q)
      ensures given == old(given) +
                if fault then [] else FreeGives(Copied(old(Model()), p, size, grant, n), p)
    {
      hide GoodRuns, NoneEmpty, AllTagged, TotalSize, TotalBodies, IndexOf, Represents, HeapModel.Malloc, NoRoom,
        Granted, PagesFor, FindRun, FindBlock, CopyBytes, Live, BlockAt;
      ghost var h := Model();
      fault := false;
      q := Malloc(size, grant);
      if q == 0 && n > 0 {
        fault := true;
        return;
      }
      if q == 0 {
        CopyNone(mem, 0, p);
      } else {
        MoveApart(h, p, size, grant, n);
      }
      MemCpy(q, p, n);
      MoveLive(h, p, size, grant, n);
      MagicTells(majors, minors, memRoot, runs, HeaderOf(mem, p));
      var stray := Free(p);
    }

    // With no memory left for a growing block of at least one byte, the copy
    // to address 0 faults. Like free it can go astray. Every other call returns.
    method Realloc(p: nat, size: nat, grant: nat) returns (q: nat, fault: bool, stray: bool)
      requires Consistent() && !locked && Acceptable(p)
      requires Fits32(size) && Granted(runs, grant, PagesFor(BodySize(size)))
      modifies this
      ensures Consistent() && locked == stray
      ensures var r := HeapModel.Realloc(old(Model()), p, size, grant, old(WordFound(p)));
              && fault == r.Fault? && stray == r.Strayed? && Model() == r.heap && (r.Returned? ==> q == r.ptr)
      ensures given == old(given) + ReallocGives(old(Model()), p, size, grant)
    {
      hide GoodRuns, NoneEmpty, AllTagged, TotalSize, TotalBodies, IndexOf, Represents, HeapModel.Malloc, NoRoom,
        Granted, PagesFor, FindRun, FindBlock, CopyBytes, LooksOverrun;
      q, fault, stray := 0, false, false;
      if size == 0 {
        stray := Free(p);
        return;
      }
      if p == 0 {
        q := Malloc(size, grant);
        return;
      }
      var ptr := UnalignPointer(p);
      Lock();
      var min := Sub32(ptr, MINOR_HEADER);
      MagicTells(majors, minors, memRoot, runs, min);
      if MagicAt(min) != MAGIC {
        ReportBadHeader(MagicAt(min));
        Unlock();
        return;
      }
      if min !in minors {
        return 0, false, true;
      }
      var realSize := minors[min].req;
      if realSize >= size {
        ShrinkInPlace(min, size);
        Unlock();
        q := p;
        return;
      }
      Unlock();
      q, fault := MoveBlock(p, size, grant, realSize);
    }
  }
}
