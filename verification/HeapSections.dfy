// What malloc, free and realloc do with the lock held, section by section.
module HeapSections {
  import opened ByteSeqs
  import opened Wrappers
  import opened HeapModel
  import opened HeapSafety
  import opened HeapContents

  // malloc and free are one section each. realloc begins with a Resize
  // section, and goes on with those of malloc and free if it has to grow. The
  // header comes from UNALIGN, which runs before the lock is taken.
  datatype Section =
    | MallocSection(req: nat)
    | FreeSection(header: nat)
    | ResizeSection(header: nat, size: nat)

  predicate Callable(s: Section) { s.MallocSection? ==> Fits32(s.req) }

  ghost predicate GrantFits(s: Section, h: Heap, grant: nat) {
    s.MallocSection? ==> Granted(h.runs, grant, PagesFor(BodySize(s.req)))
  }

  // The section does not go astray.
  predicate KeepsTrack(s: Section, h: Heap, word: nat) {
    !s.MallocSection? ==> FreeAt(h, s.header, word).Freed?
  }

  function ResizeAt(h: Heap, a: nat, size: nat, word: nat): Heap {
    if !Live(h.runs, a) then FreeAt(h, a, word).heap
    else if BlockAt(h.runs, a).req >= size then SetReq(h, a, size)
    else h
  }

  // word is what the section finds where the header's magic would be.
  function Perform(s: Section, h: Heap, grant: nat, word: nat): Heap {
    match s
    case MallocSection(req) => Malloc(h, req, grant).heap
    case FreeSection(a) => FreeAt(h, a, word).heap
    case ResizeSection(a, size) => ResizeAt(h, a, size, word)
  }

  lemma PerformKeeps(s: Section, h: Heap, grant: nat, word: nat)
    requires Valid(h) && Callable(s) && GrantFits(s, h, grant)
    ensures Valid(Perform(s, h, grant, word))
  {
    hide Malloc, GoodRuns, NoneEmpty, IndexOf, AllTagged, TotalSize, TotalBodies, NoRoom, FindRun, FindBlock, Live,
      Release, FreeAt;
    match s
    case MallocSection(req) => MallocKeeps(h, req, grant);
    case FreeSection(a) => FreeAtKeeps(h, a, word);
    case ResizeSection(a, size) =>
      FreeAtKeeps(h, a, word);
      if Live(h.runs, a) && BlockAt(h.runs, a).req >= size { ShrinkValid(h, a, size); }
  }

  lemma FreeAtKeeps(h: Heap, a: nat, word: nat)
    requires Valid(h)
    ensures Valid(FreeAt(h, a, word).heap)
  {
    hide GoodRuns, NoneEmpty, IndexOf, AllTagged, TotalSize, TotalBodies, FindRun, FindBlock, Release;
    if Live(h.runs, a) {
      var i := FindRun(h.runs, a);
      ReleaseKeeps(h, i, FindBlock(h.runs[i].blocks, a));
    }
  }

  // A section that does not go astray leaves every block alone that it is not
  // entered for.
  lemma PerformFrame(s: Section, h: Heap, grant: nat, word: nat, a: nat)
    requires Valid(h) && Callable(s) && GrantFits(s, h, grant) && KeepsTrack(s, h, word) && Live(h.runs, a)
    requires !s.MallocSection? ==> s.header != a
    ensures Untouched(h, Perform(s, h, grant, word), a)
  {
    hide Malloc, GoodRuns, NoneEmpty, IndexOf, AllTagged, TotalSize, TotalBodies, NoRoom, Release, SetReq;
    match s
    case MallocSection(req) => MallocFrame(h, req, grant, a);
    case FreeSection(c) =>
      if Live(h.runs, c) {
        var i := FindRun(h.runs, c);
        var k := FindBlock(h.runs[i].blocks, c);
        assert h.runs[i].blocks[k].addr == c;
        ReleaseFrame(h, i, k, a);
      }
    case ResizeSection(c, size) =>
      if Live(h.runs, c) && BlockAt(h.runs, c).req >= size { ShrinkFrame(h, c, size, a); }
  }

  // A section entered for the free of a live block ends that block's life.
  lemma FreeSectionEnds(h: Heap, a: nat, word: nat)
    requires Valid(h) && Live(h.runs, a)
    ensures !Live(Perform(FreeSection(a), h, 0, word).runs, a)
  {
    hide GoodRuns, NoneEmpty, IndexOf, AllTagged, TotalSize, TotalBodies, Release;
    var i := FindRun(h.runs, a);
    var k := FindBlock(h.runs[i].blocks, a);
    assert h.runs[i].blocks[k].addr == a;
    Released(h, i, k);
  }

  // The header of the block a malloc section makes, if it makes one.
  function Made(s: Section, h: Heap, grant: nat): Option<nat> {
    if s.MallocSection? && Malloc(h, s.req, grant).ptr != 0
       && Malloc(h, s.req, grant).ptr < ADDRESS_SPACE == |h.mem| then
      Some(HeaderOf(Malloc(h, s.req, grant).heap.mem, Malloc(h, s.req, grant).ptr))
    else None
  }

  // A section writes one byte of memory, the note of the block it makes.
  lemma PerformMemory(s: Section, h: Heap, grant: nat, word: nat)
    requires Valid(h) && Callable(s) && GrantFits(s, h, grant)
    ensures var h' := Perform(s, h, grant, word); var made := Made(s, h, grant);
            if made.Some? then
              Live(h'.runs, made.value)
              && var b := BlockAt(h'.runs, made.value);
                 && b.req == s.req && b.Payload() == Malloc(h, s.req, grant).ptr
                 && TagAddress(b) < ADDRESS_SPACE == |h.mem| && h'.mem == h.mem[TagAddress(b) := Tag(b)]
            else h'.mem == h.mem
  {
    hide Malloc, GoodRuns, NoneEmpty, IndexOf, AllTagged, TotalSize, TotalBodies, NoRoom, FindRun, FindBlock, HeaderOf,
      Tag;
    ValidMemory(h);
    if s.MallocSection? {
      MallocKeeps(h, s.req, grant);
      if Malloc(h, s.req, grant).ptr != 0 {
        MallocPointer(h, s.req, grant);
      } else {
        assert Malloc(h, s.req, grant).heap.mem == h.mem;
      }
    }
  }

  lemma MallocApart(h: Heap, req: nat, grant: nat, w: nat)
    ensures var m := Malloc(h, req, grant);
            && h.warnings <= m.heap.warnings <= h.warnings + 1
            && Malloc(h.(warnings := w), req, grant) ==
               m.(heap := m.heap.(warnings := w + (m.heap.warnings - h.warnings)))
  {
    hide Walk, PagesFor, FreeSpace, IndexOf, Mark;
    assert Search(h.(warnings := w), BodySize(req) + MINOR_HEADER) == Search(h, BodySize(req) + MINOR_HEADER);
  }

  lemma FreeApart(h: Heap, a: nat, word: nat, w: nat)
    ensures var f := FreeAt(h, a, word).heap;
            f.warnings == h.warnings && FreeAt(h.(warnings := w), a, word).heap == f.(warnings := w)
  {
    hide FindRun, FindBlock, FreeSpace, FreeOf, IndexOf;
  }

  // No section looks at the warning counter, and none but a malloc that fails
  // changes it, by one.
  lemma PerformApart(s: Section, h: Heap, grant: nat, word: nat, w: nat)
    ensures var h' := Perform(s, h, grant, word);
            && h.warnings <= h'.warnings <= h.warnings + 1
            && Perform(s, h.(warnings := w), grant, word) == h'.(warnings := w + (h'.warnings - h.warnings))
    ensures Made(s, h.(warnings := w), grant) == Made(s, h, grant)
  {
    hide Malloc, FreeAt, FindRun, FindBlock, HeaderOf;
    match s
    case MallocSection(req) => MallocApart(h, req, grant, w);
    case FreeSection(a) => FreeApart(h, a, word, w);
    case ResizeSection(a, size) => FreeApart(h, a, word, w);
  }

  // A section does what the call it is entered for does alone, if its header is
  // the one the pointer leads to.
  lemma PerformIsCall(h: Heap, p: nat, size: nat, grant: nat, word: nat)
    requires |h.mem| == ADDRESS_SPACE && 0 < p < ADDRESS_SPACE
    ensures var a := HeaderOf(h.mem, p);
            && Perform(MallocSection(size), h, grant, word) == Malloc(h, size, grant).heap
            && Perform(FreeSection(a), h, grant, word) == FreePtr(h, p, word).heap
            && (size > 0 ==>
                  Perform(ResizeSection(a, size), h, grant, word) ==
                  if Live(h.runs, a) && BlockAt(h.runs, a).req < size then h
                  else Realloc(h, p, size, grant, word).heap)
  {
    hide Malloc, Live, BlockAt, FreeAt;
  }

  // A realloc of a live block is its Resize section and, if the block has to
  // grow, a malloc section, the copy, and a free section.
  lemma ReallocInSections(h: Heap, p: nat, size: nat, grant: nat, magic: nat)
    requires Valid(h) && 0 < p < ADDRESS_SPACE && size > 0 && Live(h.runs, HeaderOf(h.mem, p))
    ensures var a := HeaderOf(h.mem, p);
            var n := BlockAt(h.runs, a).req;
            var h1 := Perform(ResizeSection(a, size), h, 0, magic);
            var m := Malloc(h1, size, grant);
            Realloc(h, p, size, grant, magic) ==
            if size <= n then Returned(h1, p)
            else if m.ptr == 0 && n > 0 then Fault(Perform(MallocSection(size), h1, grant, magic))
            else
              var h2 := Perform(MallocSection(size), h1, grant, magic);
              var h3 := h2.(mem := CopyBytes(h2.mem, m.ptr, p, n));
              AfterFree(FreeAt(h3, HeaderOf(h3.mem, p), magic), m.ptr)
  {
    hide Malloc, Valid, Live, BlockAt, CopyBytes, FreeAt;
    ValidMemory(h);
  }
}
