// The heap in one flat memory that holds its headers as well as its bodies:
// every call writes, besides what HeapModel says, the headers it changes.
module HeapFlat {
  import opened ByteSeqs
  import opened HeapModel
  import opened HeapSafety
  import opened HeapContents
  import opened HeapRuns
  import opened HeapImage
  import opened LibAllocStore
  import HeapGeometry

  // ---------- headers in memory ----------

  ghost predicate IsHeader(h: Heap, p: Part) { IsPart(h, p) && !p.Body? }

  function HeaderBytes(h: Heap, p: Part): (s: Bytes)
    requires IsPart(h, p) && !p.Body?
    ensures |s| == Stop(h, p) - Start(h, p) == 24
  {
    match p
    case MajorHeader(i) => EncodeMajor(MajorOf(h.runs, i))
    case MinorHeader(i, k) => EncodeMinor(MinorOf(h.runs[i], k))
  }

  // Every header stands in the memory where it belongs.
  ghost predicate Imaged(h: Heap) {
    |h.mem| == ADDRESS_SPACE &&
    forall p: Part :: IsHeader(h, p) ==> Slice(h.mem, Start(h, p), Stop(h, p)) == HeaderBytes(h, p)
  }

  // ---------- words in memory ----------

  function WriteWord(mem: Bytes, at: nat, w: nat): (r: Bytes)
    ensures |r| == |mem|
  {
    if at + 4 <= |mem| then mem[..at] + EncodeWord(w) + mem[at + 4..] else mem
  }

  lemma WriteWordAt(mem: Bytes, at: nat, w: nat, x: nat)
    requires at + 4 <= |mem| && x < |mem|
    ensures WriteWord(mem, at, w)[x] == if at <= x < at + 4 then EncodeWord(w)[x - at] else mem[x]
  {
    hide EncodeWord;
  }

  // The word at the place of the magic in a header at a.
  function MagicWord(mem: Bytes, a: nat): nat
    requires |mem| == ADDRESS_SPACE
  {
    DecodeWord([mem[(a + 12) % ADDRESS_SPACE], mem[(a + 13) % ADDRESS_SPACE],
                mem[(a + 14) % ADDRESS_SPACE], mem[(a + 15) % ADDRESS_SPACE]])
  }

  lemma MagicWordIs(mem: Bytes, a: nat)
    requires |mem| == ADDRESS_SPACE && a + 16 <= ADDRESS_SPACE
    ensures MagicWord(mem, a) == DecodeWord(mem[a + 12..a + 16])
  {
    hide DecodeWord;
    assert mem[a + 12..a + 16] == [mem[a + 12], mem[a + 13], mem[a + 14], mem[a + 15]];
  }

  lemma SameParts(h: Heap, h': Heap, p: Part)
    requires h'.runs == h.runs
    ensures IsPart(h', p) <==> IsPart(h, p)
    ensures IsPart(h, p) ==> Start(h', p) == Start(h, p) && Stop(h', p) == Stop(h, p)
    ensures IsHeader(h, p) ==> HeaderBytes(h', p) == HeaderBytes(h, p)
  {
  }

  // What a header says can be read back from the memory; the word that free
  // and realloc look at is the magic.
  lemma HeadersReadBack(h: Heap, i: nat, k: nat)
    requires Valid(h) && Imaged(h) && i < |h.runs| && k < |h.runs[i].blocks|
    ensures var a := h.runs[i].blocks[k].addr; var base := h.runs[i].base;
            && a + MINOR_HEADER <= ADDRESS_SPACE && base + MAJOR_HEADER <= ADDRESS_SPACE
            && DecodeMinor(h.mem[a..a + MINOR_HEADER]) == MinorOf(h.runs[i], k)
            && DecodeMajor(h.mem[base..base + MAJOR_HEADER]) == MajorOf(h.runs, i)
            && MagicWord(h.mem, a) == MAGIC
  {
    hide Valid, EncodeWord, DecodeWord;
    HeadersRoundTrip(h, i, k);
    PartInRun(h, MajorHeader(i));
    PartInRun(h, MinorHeader(i, k));
    assert IsHeader(h, MajorHeader(i)) && IsHeader(h, MinorHeader(i, k));
    var a := h.runs[i].blocks[k].addr;
    SubSlice(h.mem, a, a + MINOR_HEADER, 12, 16);
    MagicWordIs(h.mem, a);
  }

  // ---------- whom free believes ----------

  // With the word taken from the memory: a pointer is rejected exactly if the
  // word is not the magic, and the header of every live block shows the magic.
  lemma RejectedExactly(h: Heap, p: nat)
    requires Valid(h) && Imaged(h) && 0 < p < ADDRESS_SPACE
    ensures |h.mem| == ADDRESS_SPACE
    ensures var a := HeaderOf(h.mem, p); var word := MagicWord(h.mem, a);
            && (FreePtr(h, p, word) == Freed(Complain(h, word)) <==> word != MAGIC)
            && (Live(h.runs, a) ==> word == MAGIC)
            && (FreePtr(h, p, word).Astray? <==> word == MAGIC && !Live(h.runs, a))
  {
    hide Valid, Imaged, FindRun, FindBlock, HeaderOf, MagicWord;
    ValidMemory(h);
    var a := HeaderOf(h.mem, p);
    if Live(h.runs, a) {
      var i := FindRun(h.runs, a);
      HeadersReadBack(h, i, FindBlock(h.runs[i].blocks, a));
      ReleaseIsQuiet(h, i, FindBlock(h.runs[i].blocks, a));
    }
  }

  lemma ReleaseIsQuiet(h: Heap, i: nat, k: nat)
    requires i < |h.runs| && k < |h.runs[i].blocks|
    ensures Release(h, i, k).mem == h.mem && Release(h, i, k).errors == h.errors
  {
  }

  // No block has its header where another's caller got its bytes.
  lemma PayloadIsNoHeader(h: Heap, q: nat)
    requires Valid(h) && Owned(h, q)
    ensures !Live(h.runs, q)
  {
    hide Valid, FindRun, FindBlock, Live, BlockAt, HeaderOf;
    var a := HeaderOf(h.mem, q);
    LiveBlockFits(h, a);
    HeapGeometry.PayloadInBody(BlockAt(h.runs, a));
    if Live(h.runs, q) {
      ValidRuns(h);
      LiveBlocksApart(h.runs, a, q);
    }
  }

  // A caller who writes nothing but two words of its own block, and a pointer
  // into it for which free goes astray. The heap is in order.
  lemma ForgedHeader(h: Heap, q: nat)
    requires Valid(h) && Imaged(h) && Owned(h, q) && BlockAt(h.runs, HeaderOf(h.mem, q)).req >= 49
    ensures q + 48 < ADDRESS_SPACE == |h.mem|
    ensures var f := h.(mem := WriteWord(h.mem, q + 12, MAGIC)[q + 32 := 24]);
            && OnlyInside(h.mem, f.mem, BlockAt(h.runs, HeaderOf(h.mem, q)))
            && Valid(f) && Imaged(f)
            && HeaderOf(f.mem, q + 48) == q && !Live(f.runs, q) && MagicWord(f.mem, q) == MAGIC
            && FreePtr(f, q + 48, MAGIC) == Astray(f)
  {
    hide Valid, Imaged, FindRun, FindBlock, Live, BlockAt, EncodeWord, DecodeWord, WriteWord, MagicWord;
    ValidMemory(h);
    var a := HeaderOf(h.mem, q);
    LiveBlockFits(h, a);
    PayloadIsNoHeader(h, q);
    var mem' := WriteWord(h.mem, q + 12, MAGIC)[q + 32 := 24];
    forall x | 0 <= x < ADDRESS_SPACE
      ensures mem'[x] ==
              if x == q + 32 then 24 else if q + 12 <= x < q + 16 then EncodeWord(MAGIC)[x - q - 12] else h.mem[x]
    {
      WriteWordAt(h.mem, q + 12, MAGIC, x);
    }
    InsideKeeps(h, mem', a);
    ImagedInside(h, mem', a);
    assert mem'[q + 12..q + 16] == EncodeWord(MAGIC);
    WordRoundTrip(MAGIC);
    MagicWordIs(mem', q);
  }

  // Writing in one payload leaves all headers in place.
  lemma ImagedInside(h: Heap, mem': Bytes, a: nat)
    requires Valid(h) && Imaged(h) && Live(h.runs, a) && OnlyInside(h.mem, mem', BlockAt(h.runs, a))
    ensures Imaged(h.(mem := mem'))
  {
    hide Valid, FindRun, FindBlock, Live, BlockAt, Start, Stop, HeaderBytes, IsPart;
    var h' := h.(mem := mem');
    LiveBlockFits(h, a);
    var b := BlockAt(h.runs, a);
    HeapGeometry.PayloadInBody(b);
    forall p: Part | IsHeader(h', p) ensures Slice(mem', Start(h', p), Stop(h', p)) == HeaderBytes(h', p) {
      SameParts(h, h', p);
      PartInRun(h, p);
      forall x | Start(h, p) <= x < Stop(h, p) ensures mem'[x] == h.mem[x] {
        if b.Body() <= x < b.End() { HeaderOffBody(h, p, x, a); }
      }
      assert Slice(mem', Start(h, p), Stop(h, p)) == Slice(h.mem, Start(h, p), Stop(h, p));
    }
  }

  // No byte of a header is a byte of a body.
  lemma HeaderOffBody(h: Heap, p: Part, x: nat, a: nat)
    requires Valid(h) && IsHeader(h, p) && Start(h, p) <= x < Stop(h, p) && Live(h.runs, a)
    ensures !(BlockAt(h.runs, a).Body() <= x < BlockAt(h.runs, a).End())
  {
    hide Valid, FindRun, FindBlock, Live, BlockAt;
    LiveBlockFits(h, a);
    LivePart(h, a);
    var i := FindRun(h.runs, a);
    PartsApart(h, p, Body(i, FindBlock(h.runs[i].blocks, a)));
  }

  lemma LivePart(h: Heap, a: nat)
    requires Valid(h) && Live(h.runs, a)
    ensures var i := FindRun(h.runs, a); var p := Body(i, FindBlock(h.runs[i].blocks, a));
            && IsPart(h, p) && Start(h, p) == BlockAt(h.runs, a).Body() && Stop(h, p) == BlockAt(h.runs, a).End()
  {
    hide Valid, FindRun, FindBlock;
  }

  // ---------- writing elsewhere ----------

  // What leaves all bodies alone leaves the heap well formed and every block
  // its bytes.
  lemma BodiesKept(h: Heap, mem': Bytes)
    requires Valid(h) && |mem'| == ADDRESS_SPACE
    requires forall p: Part, x :: IsPart(h, p) && p.Body? && Start(h, p) <= x < Stop(h, p) && 0 <= x < |h.mem| ==>
               mem'[x] == h.mem[x]
    ensures Valid(h.(mem := mem'))
    ensures forall c :: Live(h.runs, c) ==> Untouched(h, h.(mem := mem'), c)
  {
    hide GoodRuns, NoneEmpty, IndexOf, TotalSize, TotalBodies, FindRun, FindBlock;
    var h' := h.(mem := mem');
    forall i, k | 0 <= i < |h.runs| && 0 <= k < |h.runs[i].blocks| ensures Tagged(mem', h.runs[i].blocks[k]) {
      var b := h.runs[i].blocks[k];
      assert Tagged(h.mem, b);
      GoodReq(h.runs, i, k);
      HeapGeometry.PayloadInBody(b);
      assert IsPart(h, Body(i, k)) && Start(h, Body(i, k)) <= TagAddress(b) < Stop(h, Body(i, k));
    }
    forall c | Live(h.runs, c) ensures Untouched(h, h', c) {
      LiveBlockFits(h, c);
      var i := FindRun(h.runs, c);
      var k := FindBlock(h.runs[i].blocks, c);
      var b := BlockAt(h.runs, c);
      assert b == h.runs[i].blocks[k];
      HeapGeometry.PayloadInBody(b);
      assert IsPart(h, Body(i, k));
      assert mem'[b.Payload()..b.Payload() + b.req] == h.mem[b.Payload()..b.Payload() + b.req];
    }
  }

  // ---------- the header free leaves behind ----------

  // free marks the header dead.
  function Bury(mem: Bytes, a: nat): (r: Bytes)
    ensures |r| == |mem|
  {
    WriteWord(mem, a + 12, DEAD)
  }

  lemma BuryIsLocal(mem: Bytes, a: nat, x: nat)
    requires x < |mem| && !(a <= x < a + MINOR_HEADER)
    ensures Bury(mem, a)[x] == mem[x]
  {
    hide EncodeWord;
  }

  lemma PartAfterDrop(h: Heap, i: nat, g: Heap, p: Part) returns (q: Part)
    requires i < |h.runs| && g.runs == h.runs[..i] + h.runs[i + 1..] && IsPart(g, p)
    ensures IsPart(h, q) && Start(h, q) == Start(g, p) && Stop(h, q) == Stop(g, p)
    ensures (q.Body? <==> p.Body?) && q.run != i
  {
    var j := if p.run < i then p.run else p.run + 1;
    assert g.runs[p.run] == h.runs[j];
    q := match p
         case MajorHeader(_) => MajorHeader(j)
         case MinorHeader(_, m) => MinorHeader(j, m)
         case Body(_, m) => Body(j, m);
  }

  lemma PartAfterRemove(h: Heap, i: nat, k: nat, g: Heap, p: Part) returns (q: Part)
    requires i < |h.runs| && k < |h.runs[i].blocks|
    requires g.runs == h.runs[i := RemoveBlock(h.runs[i], k)] && IsPart(g, p)
    ensures IsPart(h, q) && Start(h, q) == Start(g, p) && Stop(h, q) == Stop(g, p)
    ensures (q.Body? <==> p.Body?) && q != MinorHeader(i, k) && q != Body(i, k)
  {
    if p.MajorHeader? || p.run != i {
      q := p;
    } else {
      var m := if p.block < k then p.block else p.block + 1;
      assert g.runs[i].blocks[p.block] == h.runs[i].blocks[m];
      q := if p.Body? then Body(i, m) else MinorHeader(i, m);
    }
  }

  // Each part of the heap without block k of run i is a part of the heap with it.
  lemma ReleasedPart(h: Heap, i: nat, k: nat, p: Part) returns (q: Part)
    requires i < |h.runs| && k < |h.runs[i].blocks| && IsPart(Release(h, i, k), p)
    ensures IsPart(h, q) && Start(h, q) == Start(Release(h, i, k), p) && Stop(h, q) == Stop(Release(h, i, k), p)
    ensures (q.Body? <==> p.Body?) && q != MinorHeader(i, k) && q != Body(i, k)
  {
    var r := Release(h, i, k);
    assert r.runs == if RemoveBlock(h.runs[i], k).blocks == [] then h.runs[..i] + h.runs[i + 1..]
                     else h.runs[i := RemoveBlock(h.runs[i], k)];
    hide Release, IsPart, Start, Stop, RemoveBlock;
    if RemoveBlock(h.runs[i], k).blocks == [] {
      q := PartAfterDrop(h, i, r, p);
    } else {
      q := PartAfterRemove(h, i, k, r, p);
    }
  }

  // The released block's header and body are apart from all that is left.
  lemma ReleasedApart(h: Heap, i: nat, k: nat, p: Part)
    requires Valid(h) && i < |h.runs| && k < |h.runs[i].blocks| && IsPart(Release(h, i, k), p)
    ensures var b := h.runs[i].blocks[k]; var r := Release(h, i, k);
            Stop(r, p) <= b.addr || b.End() <= Start(r, p)
  {
    hide Valid, Release;
    var q := ReleasedPart(h, i, k, p);
    assert IsPart(h, MinorHeader(i, k)) && IsPart(h, Body(i, k));
    PartsApart(h, q, MinorHeader(i, k));
    PartsApart(h, q, Body(i, k));
    PartNotEmpty(h, q);
  }

  lemma PartNotEmpty(h: Heap, p: Part)
    requires Valid(h) && IsPart(h, p)
    ensures Start(h, p) < Stop(h, p)
  {
    hide Valid;
    if p.Body? {
      ValidRuns(h);
      GoodReq(h.runs, p.run, p.block);
    }
  }

  function Buried(h: Heap, i: nat, k: nat): Heap
    requires i < |h.runs| && k < |h.runs[i].blocks|
  {
    var r := Release(h, i, k);
    r.(mem := Bury(r.mem, h.runs[i].blocks[k].addr))
  }

  lemma BuriedKeeps(h: Heap, i: nat, k: nat)
    requires Valid(h) && i < |h.runs| && k < |h.runs[i].blocks|
    ensures Valid(Buried(h, i, k))
    ensures forall c :: Live(Release(h, i, k).runs, c) ==> Untouched(Release(h, i, k), Buried(h, i, k), c)
  {
    hide Valid, Release, Untouched, Live, Start, Stop, Bury;
    var r, b := Release(h, i, k), h.runs[i].blocks[k];
    ReleaseKeeps(h, i, k);
    ValidMemory(r);
    var mem' := Bury(r.mem, b.addr);
    forall p: Part, x | IsPart(r, p) && p.Body? && Start(r, p) <= x < Stop(r, p) && 0 <= x < |r.mem|
      ensures mem'[x] == r.mem[x]
    {
      ReleasedApart(h, i, k, p);
      BuryIsLocal(r.mem, b.addr, x);
    }
    BodiesKept(r, mem');
  }

  // ---------- what a call writes besides headers ----------

  datatype Last = NoFree | Frees(heap: Heap, header: nat)

  // The heap a call has when it comes to free a block, and that block.
  function LastFree(h: Heap, op: Op): Last
    requires |h.mem| == ADDRESS_SPACE
  {
    match op
    case OpMalloc(_, _) => NoFree
    case OpStore(_, _, _) => NoFree
    case OpFree(p, _) =>
      if 0 < p < ADDRESS_SPACE && Live(h.runs, HeaderOf(h.mem, p)) then Frees(h, HeaderOf(h.mem, p)) else NoFree
    case OpRealloc(p, size, grant, _) =>
      if 0 < p < ADDRESS_SPACE && Live(h.runs, HeaderOf(h.mem, p)) then
        var a := HeaderOf(h.mem, p);
        var n := BlockAt(h.runs, a).req;
        if size == 0 then Frees(h, a)
        else if n < size then Frees(Copied(h, p, size, grant, n), a)
        else NoFree
      else NoFree
  }

  // All that a call writes but for the headers of the heap it leaves.
  ghost function Written(h: Heap, op: Op): Heap
    requires |h.mem| == ADDRESS_SPACE
  {
    match LastFree(h, op)
    case NoFree => Step(h, op)
    case Frees(g, a) =>
      if Live(g.runs, a) then
        var i := FindRun(g.runs, a);
        Buried(g, i, FindBlock(g.runs[i].blocks, a))
      else Step(h, op)
  }

  // The heap in which realloc frees the old block.
  lemma CopiedOwns(h: Heap, p: nat, size: nat, grant: nat, magic: nat)
    requires Valid(h) && Allowed(h, OpRealloc(p, size, grant, magic)) && 0 < p && size > 0
    requires Owned(h, p) && BlockAt(h.runs, HeaderOf(h.mem, p)).req < size
    ensures var c := Copied(h, p, size, grant, BlockAt(h.runs, HeaderOf(h.mem, p)).req);
            && Valid(c) && Live(c.runs, HeaderOf(h.mem, p)) && HeaderOf(c.mem, p) == HeaderOf(h.mem, p)
            && Realloc(h, p, size, grant, magic).heap == FreePtr(c, p, magic).heap
  {
    hide Malloc, Valid, Live, BlockAt, NoRoom, Untouched, HeaderOf;
    var a := HeaderOf(h.mem, p);
    var n := BlockAt(h.runs, a).req;
    MallocKeeps(h, size, grant);
    if Malloc(h, size, grant).ptr != 0 {
      CopiedKeeps(h, p, size, grant, n);
      CopiedHeader(h, p, size, grant, n);
      CopiedFrame(h, p, size, grant, n, a);
      LiveIn(h, Copied(h, p, size, grant, n), a);
    } else {
      assert Copied(h, p, size, grant, n).mem == h.mem;
    }
  }

  lemma LiveIn(h: Heap, h': Heap, a: nat)
    requires Untouched(h, h', a)
    ensures Live(h'.runs, a)
  {
  }

  // Where a call frees, its last step is that release.
  lemma StepReleases(h: Heap, op: Op)
    requires Valid(h) && Allowed(h, op) && LastFree(h, op).Frees?
    ensures var g, a := LastFree(h, op).heap, LastFree(h, op).header;
            && Valid(g) && Live(g.runs, a)
            && var i := FindRun(g.runs, a);
               Step(h, op) == Release(g, i, FindBlock(g.runs[i].blocks, a))
  {
    hide Malloc, Valid, NoRoom, Release, Copied, BlockAt, FindRun, FindBlock, Realloc;
    match op {
      case OpFree(p, magic) =>
      case OpRealloc(p, size, grant, magic) =>
        if size > 0 { CopiedOwns(h, p, size, grant, magic); } else { ReallocNothing(h, p, grant, magic); }
    }
  }

  lemma ReallocNothing(h: Heap, p: nat, grant: nat, magic: nat)
    requires |h.mem| == ADDRESS_SPACE && p < ADDRESS_SPACE
    ensures Realloc(h, p, 0, grant, magic) == AfterFree(FreePtr(h, p, magic), 0)
  {
  }

  lemma WrittenKeeps(h: Heap, op: Op)
    requires Valid(h) && Allowed(h, op)
    ensures var w, s := Written(h, op), Step(h, op);
            && Valid(w) && w.runs == s.runs
            && forall c :: Live(s.runs, c) ==> Untouched(s, w, c)
  {
    hide Valid, Allowed, Step, LastFree, FindRun, FindBlock, BlockAt, Contents;
    ValidMemory(h);
    StepKeeps(h, op);
    if LastFree(h, op).Frees? {
      StepReleases(h, op);
      var g, a := LastFree(h, op).heap, LastFree(h, op).header;
      var i := FindRun(g.runs, a);
      BuriedKeeps(g, i, FindBlock(g.runs[i].blocks, a));
    }
  }

  lemma MallocOffHeaders(h: Heap, req: nat, grant: nat, p: Part, x: nat)
    requires Request(h, req, grant) && IsHeader(Malloc(h, req, grant).heap, p)
    requires var m := Malloc(h, req, grant).heap; Start(m, p) <= x < Stop(m, p) && x < |h.mem|
    ensures Malloc(h, req, grant).heap.mem[x] == h.mem[x]
  {
    hide Valid, Malloc, Start, Stop, HeaderOf, FindRun, FindBlock, NoRoom;
    MallocKeeps(h, req, grant);
    var m := Malloc(h, req, grant);
    if m.ptr != 0 {
      MallocPointer(h, req, grant);
      var s := SpotOf(h, req);
      var b := m.heap.runs[s.run].blocks[s.gap];
      HeapGeometry.PayloadInBody(b);
      BodyPart(m.heap, s.run, s.gap);
      PartsApart(m.heap, p, Body(s.run, s.gap));
    }
  }

  lemma BodyPart(h: Heap, i: nat, k: nat)
    requires i < |h.runs| && k < |h.runs[i].blocks|
    ensures var b := h.runs[i].blocks[k];
            IsPart(h, Body(i, k)) && Start(h, Body(i, k)) == b.Body() && Stop(h, Body(i, k)) == b.End()
  {
  }

  lemma StoreOffHeaders(h: Heap, q: nat, offset: nat, value: Byte, p: Part, x: nat)
    requires Valid(h) && MayStore(h, q, offset) && IsHeader(h, p) && Start(h, p) <= x < Stop(h, p)
    ensures x != q + offset
  {
    hide Valid, Start, Stop, HeaderOf, FindRun, FindBlock, Live, BlockAt, IsPart;
    var a := HeaderOf(h.mem, q);
    LiveBlockFits(h, a);
    HeapGeometry.PayloadInBody(BlockAt(h.runs, a));
    HeaderOffBody(h, p, x, a);
  }

  lemma CopiedOffHeaders(h: Heap, q: nat, size: nat, grant: nat, n: nat, p: Part, x: nat)
    requires Request(h, size, grant) && n <= size && (Malloc(h, size, grant).ptr == 0 ==> n == 0)
    requires var c := Copied(h, q, size, grant, n); IsHeader(c, p) && Start(c, p) <= x < Stop(c, p) && x < |h.mem|
    ensures Copied(h, q, size, grant, n).mem[x] == h.mem[x]
  {
    hide Valid, Malloc, Start, Stop, HeaderOf, FindRun, FindBlock, NoRoom, Live, BlockAt, IsPart;
    var m, c := Malloc(h, size, grant), Copied(h, q, size, grant, n);
    ValidMemory(h);
    SameParts(m.heap, c, p);
    MallocOffHeaders(h, size, grant, p, x);
    if m.ptr != 0 {
      CopiedKeeps(h, q, size, grant, n);
      var a := HeaderOf(m.heap.mem, m.ptr);
      LiveBlockFits(c, a);
      HeapGeometry.PayloadInBody(BlockAt(c.runs, a));
      HeaderOffBody(c, p, x, a);
    }
    assert c.mem[x] == m.heap.mem[x];
  }

  // A free, by itself or at the end of a realloc.
  lemma ReleaseOffHeaders(h: Heap, op: Op, p: Part, x: nat)
    requires Valid(h) && Allowed(h, op) && LastFree(h, op).Frees? && IsHeader(Written(h, op), p)
    requires Start(Written(h, op), p) <= x < Stop(Written(h, op), p) && x < |h.mem| == |Written(h, op).mem|
    ensures x < |LastFree(h, op).heap.mem| && Written(h, op).mem[x] == LastFree(h, op).heap.mem[x]
    ensures exists q: Part :: IsHeader(LastFree(h, op).heap, q)
              && Start(LastFree(h, op).heap, q) <= x < Stop(LastFree(h, op).heap, q)
  {
    hide Valid, Allowed, LastFree, Start, Stop, Release, FindRun, FindBlock, Bury, IsPart, Step;
    ValidMemory(h);
    StepReleases(h, op);
    var g, a := LastFree(h, op).heap, LastFree(h, op).header;
    var i := FindRun(g.runs, a);
    var k := FindBlock(g.runs[i].blocks, a);
    assert Written(h, op) == Buried(g, i, k);
    var r := Release(g, i, k);
    SameParts(r, Buried(g, i, k), p);
    ReleaseIsQuiet(g, i, k);
    ReleasedApart(g, i, k, p);
    BuryIsLocal(r.mem, g.runs[i].blocks[k].addr, x);
    var q := ReleasedPart(g, i, k, p);
    assert IsHeader(g, q) && Start(g, q) <= x < Stop(g, q);
  }

  lemma FreeOffHeaders(h: Heap, op: Op, p: Part, x: nat)
    requires Valid(h) && Allowed(h, op) && (op.OpFree? || op.OpRealloc?) && IsHeader(Written(h, op), p)
    requires Start(Written(h, op), p) <= x < Stop(Written(h, op), p) && x < |h.mem| == |Written(h, op).mem|
    ensures Written(h, op).mem[x] == h.mem[x]
  {
    hide Valid, Start, Stop, Release, FindRun, FindBlock, Malloc, Written, IsPart, Live, BlockAt, HeaderOf, Copied,
      NoRoom;
    if LastFree(h, op).Frees? {
      ReleaseOffHeaders(h, op, p, x);
      if op.OpRealloc? && op.size > 0 {
        var n := BlockAt(h.runs, HeaderOf(h.mem, op.p)).req;
        var c := Copied(h, op.p, op.size, op.grant, n);
        var q: Part :| IsHeader(c, q) && Start(c, q) <= x < Stop(c, q);
        CopiedOffHeaders(h, op.p, op.size, op.grant, n, q, x);
      }
    } else {
      WrittenIsStep(h, op);
      if op.OpRealloc? && op.p == 0 && op.size > 0 {
        MallocOffHeaders(h, op.size, op.grant, p, x);
      }
    }
  }

  // Such writes stay off every header of the heap the call leaves.
  lemma WrittenOffHeaders(h: Heap, op: Op, p: Part, x: nat)
    requires Valid(h) && Allowed(h, op) && IsHeader(Written(h, op), p)
    requires Start(Written(h, op), p) <= x < Stop(Written(h, op), p)
    ensures x < |h.mem| == |Written(h, op).mem| && Written(h, op).mem[x] == h.mem[x]
  {
    hide Valid, Written, IsPart, Start, Stop, Malloc, Realloc, FindRun, FindBlock, HeaderOf, MayStore, Live, FreeAt;
    ValidMemory(h);
    WrittenKeeps(h, op);
    var w := Written(h, op);
    ValidMemory(w);
    PartInRun(w, p);
    match op
    case OpMalloc(req, grant) =>
      WrittenIsStep(h, op);
      MallocOffHeaders(h, req, grant, p, x);
    case OpStore(q, offset, value) =>
      WrittenIsStep(h, op);
      SameParts(h, w, p);
      StoreOffHeaders(h, q, offset, value, p, x);
    case OpFree(q, magic) => FreeOffHeaders(h, op, p, x);
    case OpRealloc(q, size, grant, magic) => FreeOffHeaders(h, op, p, x);
  }

  lemma WrittenIsStep(h: Heap, op: Op)
    requires |h.mem| == ADDRESS_SPACE && LastFree(h, op).NoFree?
    ensures Written(h, op) == Step(h, op)
  {
  }

  // ---------- the headers a call writes ----------

  // Header p of w is new, or says something new, compared with those of h.
  ghost predicate Changed(h: Heap, w: Heap, p: Part)
    requires IsHeader(w, p)
  {
    forall q: Part :: IsHeader(h, q) && Start(h, q) == Start(w, p) ==> HeaderBytes(h, q) != HeaderBytes(w, p)
  }

  ghost predicate InChanged(h: Heap, w: Heap, x: nat) {
    exists p: Part :: IsHeader(w, p) && Changed(h, w, p) && Start(w, p) <= x < Stop(w, p)
  }

  // h' is w with its changed headers written, and nothing else.
  ghost predicate Rewritten(h: Heap, w: Heap, h': Heap) {
    && h' == w.(mem := h'.mem) && |h'.mem| == |w.mem|
    && (forall p: Part :: IsHeader(w, p) && Changed(h, w, p) ==>
          Slice(h'.mem, Start(w, p), Stop(w, p)) == HeaderBytes(w, p))
    && (forall x :: 0 <= x < |w.mem| && !InChanged(h, w, x) ==> h'.mem[x] == w.mem[x])
  }

  ghost function NewByte(h: Heap, w: Heap, x: nat): Byte
    requires x < |w.mem|
  {
    if InChanged(h, w, x) then
      var p: Part :| IsHeader(w, p) && Changed(h, w, p) && Start(w, p) <= x < Stop(w, p);
      HeaderBytes(w, p)[x - Start(w, p)]
    else w.mem[x]
  }

  lemma NewByteIs(h: Heap, w: Heap, p: Part, x: nat)
    requires Valid(w) && IsHeader(w, p) && Changed(h, w, p) && Start(w, p) <= x < Stop(w, p) && x < |w.mem|
    ensures NewByte(h, w, x) == HeaderBytes(w, p)[x - Start(w, p)]
  {
    hide Valid, HeaderBytes, Start, Stop, IsPart;
    forall q: Part | IsHeader(w, q) && Changed(h, w, q) && Start(w, q) <= x < Stop(w, q) ensures q == p {
      if q != p { PartsApart(w, p, q); }
    }
  }

  // The changed headers of a well-formed heap can all be written: they do not
  // get in each other's way.
  lemma RewrittenExists(h: Heap, w: Heap)
    requires Valid(w)
    ensures exists h' :: Rewritten(h, w, h')
  {
    hide Valid, HeaderBytes, Start, Stop, Changed;
    ValidMemory(w);
    var mem' := seq(ADDRESS_SPACE, x requires 0 <= x < ADDRESS_SPACE => NewByte(h, w, x));
    var h' := w.(mem := mem');
    forall p: Part | IsHeader(w, p) && Changed(h, w, p)
      ensures Slice(mem', Start(w, p), Stop(w, p)) == HeaderBytes(w, p)
    {
      PartInRun(w, p);
      forall x | Start(w, p) <= x < Stop(w, p) ensures mem'[x] == HeaderBytes(w, p)[x - Start(w, p)] {
        NewByteIs(h, w, p, x);
      }
    }
    assert Rewritten(h, w, h');
  }

  // Writing headers harms no body.
  lemma RewriteKeeps(h: Heap, w: Heap, h': Heap)
    requires Valid(w) && Rewritten(h, w, h')
    ensures Valid(h') && forall c :: Live(w.runs, c) ==> Untouched(w, h', c)
  {
    hide Valid, Untouched, Live, Start, Stop, Changed, HeaderBytes;
    ValidMemory(w);
    forall p: Part, x | IsPart(w, p) && p.Body? && Start(w, p) <= x < Stop(w, p) && 0 <= x < |w.mem|
      ensures h'.mem[x] == w.mem[x]
    {
      forall q: Part | IsHeader(w, q) && Changed(h, w, q) ensures !(Start(w, q) <= x < Stop(w, q)) {
        PartsApart(w, p, q);
      }
    }
    BodiesKept(w, h'.mem);
  }

  // The bytes of header p of w are those of h.
  ghost predicate Kept(h: Heap, w: Heap, p: Part)
    requires IsHeader(w, p)
  {
    && Start(w, p) <= Stop(w, p) <= |w.mem| == |h.mem|
    && w.mem[Start(w, p)..Stop(w, p)] == h.mem[Start(w, p)..Stop(w, p)]
  }

  lemma HeaderKept(h: Heap, op: Op, p: Part)
    requires Valid(h) && Allowed(h, op) && IsHeader(Written(h, op), p)
    ensures Kept(h, Written(h, op), p)
  {
    hide Valid, Allowed, Written, Start, Stop, IsPart;
    ValidMemory(h);
    WrittenKeeps(h, op);
    var w := Written(h, op);
    ValidMemory(w);
    PartInRun(w, p);
    forall x: nat | Start(w, p) <= x < Stop(w, p) ensures w.mem[x] == h.mem[x] {
      WrittenOffHeaders(h, op, p, x);
    }
  }

  // A header that is not written was there before: what else was written is off
  // it.
  lemma RewriteImages(h: Heap, w: Heap, h': Heap)
    requires Valid(h) && Imaged(h) && Valid(w) && Rewritten(h, w, h')
    requires forall p: Part :: IsHeader(w, p) ==> Kept(h, w, p)
    ensures Imaged(h')
  {
    hide Valid, Start, Stop, HeaderBytes, IsPart, Changed;
    ValidMemory(w);
    forall p: Part | IsHeader(h', p) ensures Slice(h'.mem, Start(h', p), Stop(h', p)) == HeaderBytes(h', p) {
      SameParts(w, h', p);
      if !Changed(h, w, p) {
        var q := SameHeader(h, w, p);
        PartInRun(h, q);
        PartInRun(w, p);
        assert Kept(h, w, p);
        assert forall x: nat :: Start(w, p) <= x < Stop(w, p) ==>
            w.mem[x] == w.mem[Start(w, p)..Stop(w, p)][x - Start(w, p)] == h.mem[x];
        forall x: nat | Start(w, p) <= x < Stop(w, p) ensures h'.mem[x] == h.mem[x] {
          forall r: Part | IsHeader(w, r) && Changed(h, w, r) ensures !(Start(w, r) <= x < Stop(w, r)) {
            PartsApart(w, p, r);
          }
        }
        assert Slice(h'.mem, Start(w, p), Stop(w, p)) == Slice(h.mem, Start(h, q), Stop(h, q));
      }
    }
  }

  lemma SameHeader(h: Heap, w: Heap, p: Part) returns (q: Part)
    requires IsHeader(w, p) && !Changed(h, w, p)
    ensures IsHeader(h, q) && Start(h, q) == Start(w, p) && Stop(h, q) == Stop(w, p)
    ensures HeaderBytes(h, q) == HeaderBytes(w, p)
  {
    q :| IsHeader(h, q) && Start(h, q) == Start(w, p) && HeaderBytes(h, q) == HeaderBytes(w, p);
  }

  // ---------- every call, every run ----------

  // The call as it is made: the word of a header comes from the memory.
  function Reading(h: Heap, op: Op): Op
    requires |h.mem| == ADDRESS_SPACE
  {
    match op
    case OpFree(p, _) => OpFree(p, if 0 < p < ADDRESS_SPACE then MagicWord(h.mem, HeaderOf(h.mem, p)) else 0)
    case OpRealloc(p, size, grant, _) =>
      OpRealloc(p, size, grant, if 0 < p < ADDRESS_SPACE then MagicWord(h.mem, HeaderOf(h.mem, p)) else 0)
    case _ => op
  }

  // A call that faults or goes astray ends the run.
  ghost predicate FlatAllowed(h: Heap, op: Op) {
    |h.mem| == ADDRESS_SPACE && Allowed(h, Reading(h, op))
  }

  ghost predicate FlatStep(h: Heap, op: Op, h': Heap) {
    |h.mem| == ADDRESS_SPACE && Rewritten(h, Written(h, Reading(h, op)), h')
  }

  // Every call on the flat memory keeps the heap well formed and all headers in
  // place, and a block it is not aimed at keeps its place and its bytes.
  lemma FlatKeeps(h: Heap, op: Op, h': Heap)
    requires Valid(h) && Imaged(h) && FlatAllowed(h, op) && FlatStep(h, op, h')
    ensures Valid(h') && Imaged(h') && h'.runs == Step(h, Reading(h, op)).runs
    ensures forall a :: Live(h.runs, a) && !Targets(h, op, a) ==> Untouched(h, h', a)
  {
    hide Valid, Imaged, Allowed, Step, Targets, Written, Contents, BlockAt, FindRun, IsPart, Start, Stop, Reading,
      Changed;
    var o := Reading(h, op);
    var w := Written(h, o);
    WrittenKeeps(h, o);
    RewriteKeeps(h, w, h');
    ValidMemory(h);
    forall p: Part | IsHeader(w, p) ensures Kept(h, w, p) { HeaderKept(h, o, p); }
    RewriteImages(h, w, h');
    forall a | Live(h.runs, a) && !Targets(h, op, a) ensures Untouched(h, h', a) {
      SameTargets(h, op, a);
      StepFrame(h, o, a);
    }
  }

  lemma SameTargets(h: Heap, op: Op, a: nat)
    requires |h.mem| == ADDRESS_SPACE
    ensures Targets(h, Reading(h, op), a) <==> Targets(h, op, a)
  {
    hide HeaderOf, MagicWord;
  }

  lemma FlatStepExists(h: Heap, op: Op)
    requires Valid(h) && FlatAllowed(h, op)
    ensures exists h' :: FlatStep(h, op, h')
  {
    hide Valid, Allowed, Written, Rewritten, Reading;
    ValidMemory(h);
    var o := Reading(h, op);
    WrittenKeeps(h, o);
    RewrittenExists(h, Written(h, o));
    var h' :| Rewritten(h, Written(h, o), h');
    assert FlatStep(h, op, h');
  }

  ghost predicate FlatHistory(hs: seq<Heap>, ops: seq<Op>) {
    && |hs| == |ops| + 1
    && (forall t :: 0 <= t < |ops| ==> FlatAllowed(hs[t], ops[t]) && FlatStep(hs[t], ops[t], hs[t + 1]))
  }

  // Over every run from a well-formed heap with its headers in place, every
  // state is such a heap.
  lemma {:induction false} EveryFlatState(hs: seq<Heap>, ops: seq<Op>, t: nat)
    requires FlatHistory(hs, ops) && Valid(hs[0]) && Imaged(hs[0]) && t <= |ops|
    ensures Valid(hs[t]) && Imaged(hs[t])
  {
    hide Valid, Imaged, FlatAllowed, FlatStep;
    if t > 0 {
      EveryFlatState(hs, ops, t - 1);
      assert FlatAllowed(hs[t - 1], ops[t - 1]) && FlatStep(hs[t - 1], ops[t - 1], hs[t]);
      FlatKeeps(hs[t - 1], ops[t - 1], hs[t]);
    }
  }

  // No run gets stuck: from every state it reaches, a call that is allowed can
  // be made. The heap before the first call is a start.
  lemma EveryRunGoesOn(hs: seq<Heap>, ops: seq<Op>, op: Op)
    requires FlatHistory(hs, ops) && Valid(hs[0]) && Imaged(hs[0]) && FlatAllowed(hs[|ops|], op)
    ensures exists h' :: FlatHistory(hs + [h'], ops + [op])
  {
    hide Valid, Imaged, FlatAllowed, FlatStep;
    EveryFlatState(hs, ops, |ops|);
    FlatStepExists(hs[|ops|], op);
    var h' :| FlatStep(hs[|ops|], op, h');
    var hs', ops' := hs + [h'], ops + [op];
    forall t | 0 <= t < |ops'| ensures FlatAllowed(hs'[t], ops'[t]) && FlatStep(hs'[t], ops'[t], hs'[t + 1]) {
      if t < |ops| { assert FlatAllowed(hs[t], ops[t]) && FlatStep(hs[t], ops[t], hs[t + 1]); }
    }
    assert FlatHistory(hs', ops');
  }

  lemma EmptyIsImaged(mem: Bytes)
    requires |mem| == ADDRESS_SPACE
    ensures Valid(Empty(mem)) && Imaged(Empty(mem))
  {
    EmptyIsValid(mem);
  }

  lemma {:induction false} UntouchedInFlat(hs: seq<Heap>, ops: seq<Op>, a: nat, t: nat)
    requires FlatHistory(hs, ops) && Valid(hs[0]) && Imaged(hs[0]) && t <= |ops| && Live(hs[0].runs, a)
    requires forall u :: 0 <= u < |ops| ==> |hs[u].mem| == ADDRESS_SPACE && !Targets(hs[u], ops[u], a)
    ensures Untouched(hs[0], hs[t], a)
  {
    hide Valid, Imaged, FlatAllowed, FlatStep, Targets, Live, BlockAt, Contents;
    if t > 0 {
      UntouchedInFlat(hs, ops, a, t - 1);
      EveryFlatState(hs, ops, t - 1);
      assert FlatAllowed(hs[t - 1], ops[t - 1]) && FlatStep(hs[t - 1], ops[t - 1], hs[t]);
      FlatKeeps(hs[t - 1], ops[t - 1], hs[t]);
    }
  }

  // ---------- freeing twice ----------

  // After free the pointer still leads to the header, which is dead: freeing
  // it again at once is reported as an error, and does nothing else.
  lemma FreedTwice(h: Heap, p: nat, h': Heap)
    requires Valid(h) && Imaged(h) && Owned(h, p) && FlatStep(h, OpFree(p, 0), h')
    ensures |h'.mem| == ADDRESS_SPACE && HeaderOf(h'.mem, p) == HeaderOf(h.mem, p)
    ensures MagicWord(h'.mem, HeaderOf(h'.mem, p)) == DEAD
    ensures FreePtr(h', p, DEAD) == Freed(h'.(errors := h'.errors + 1))
  {
    hide Valid, Imaged, Release, Rewritten, Start, Stop, FindRun, FindBlock, TagAddress, Tag, HeaderOf, BlockAt, Bury,
      MagicWord;
    ValidMemory(h);
    var a := HeaderOf(h.mem, p);
    LiveBlockFits(h, a);
    var i := FindRun(h.runs, a);
    var k := FindBlock(h.runs[i].blocks, a);
    var b := h.runs[i].blocks[k];
    StepReleases(h, Reading(h, OpFree(p, 0)));
    Released(h, i, k);
    HeapGeometry.PayloadInBody(b);
    forall x | a <= x < b.End() ensures x < |h'.mem| == |h.mem| && h'.mem[x] == Bury(h.mem, a)[x] {
      KeptOffHeaders(h, i, k, h', x);
    }
    KeptOffHeaders(h, i, k, h', TagAddress(b));
    BuryIsLocal(h.mem, a, TagAddress(b));
    forall x | a + 12 <= x < a + 16 ensures h'.mem[x] == EncodeWord(DEAD)[x - a - 12] { BuryMarks(h.mem, a, x); }
    assert h'.mem[a + 12..a + 16] == EncodeWord(DEAD);
    WordRoundTrip(DEAD);
    MagicWordIs(h'.mem, a);
    HeapGeometry.UnalignInvertsAlign(h'.mem, b);
    OverrunIsLowByte(DEAD);
  }

  lemma BuryMarks(mem: Bytes, a: nat, x: nat)
    requires a + 12 <= x < a + 16 <= |mem|
    ensures Bury(mem, a)[x] == EncodeWord(DEAD)[x - a - 12]
  {
    hide EncodeWord;
  }

  // Within the released block nothing is written but the mark.
  lemma KeptOffHeaders(h: Heap, i: nat, k: nat, h': Heap, x: nat)
    requires Valid(h) && i < |h.runs| && k < |h.runs[i].blocks| && Rewritten(h, Buried(h, i, k), h')
    requires h.runs[i].blocks[k].addr <= x < h.runs[i].blocks[k].End() && x < |h.mem|
    ensures |h'.mem| == |h.mem|
    ensures h'.mem[x] == Bury(h.mem, h.runs[i].blocks[k].addr)[x] && h'.runs == Release(h, i, k).runs
  {
    hide Valid, Release, Start, Stop, Bury, Changed;
    var r, g := Release(h, i, k), Buried(h, i, k);
    ReleaseIsQuiet(h, i, k);
    forall p: Part | IsHeader(g, p) && Changed(h, g, p) ensures !(Start(g, p) <= x < Stop(g, p)) {
      SameParts(r, g, p);
      ReleasedApart(h, i, k, p);
    }
  }

  // The heap for which a header can be forged is there after one call.
  lemma ForgedHeaderArises(mem: Bytes, h: Heap)
    requires |mem| == ADDRESS_SPACE && FlatStep(Empty(mem), OpMalloc(100, 0x10_0000), h)
    ensures var q := Malloc(Empty(mem), 100, 0x10_0000).ptr;
            && Valid(h) && Imaged(h) && Owned(h, q) && BlockAt(h.runs, HeaderOf(h.mem, q)).req == 100
            && var f := h.(mem := WriteWord(h.mem, q + 12, MAGIC)[q + 32 := 24]);
               q + 48 < ADDRESS_SPACE && FreePtr(f, q + 48, MagicWord(f.mem, HeaderOf(f.mem, q + 48))) == Astray(f)
  {
    hide Malloc, Valid, Imaged, Live, BlockAt, Rewritten, WriteWord, MagicWord;
    assert PagesFor(BodySize(100)) == 16;
    var e, op := Empty(mem), OpMalloc(100, 0x10_0000);
    EmptyIsImaged(mem);
    FirstMalloc(mem, 100, 0x10_0000);
    NewBlockLive(e, 100, 0x10_0000);
    var q := Malloc(e, 100, 0x10_0000).ptr;
    FlatKeeps(e, op, h);
    var a := HeaderOf(Malloc(e, 100, 0x10_0000).heap.mem, q);
    LiveBlockFits(h, a);
    ValidMemory(h);
    HeapGeometry.UnalignInvertsAlign(h.mem, BlockAt(h.runs, a));
    ForgedHeader(h, q);
  }
}
