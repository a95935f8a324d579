// What the operations do to the caller's bytes, over one call and over runs.
module HeapContents {
  import opened ByteSeqs
  import opened HeapModel
  import opened HeapGeometry
  import opened HeapSafety

  // ---------- the bytes of a live block ----------

  // The requested bytes of the block whose header is at a.
  function Contents(h: Heap, a: nat): seq<Byte>
    requires Live(h.runs, a)
  {
    var b := BlockAt(h.runs, a);
    if b.Payload() + b.req <= |h.mem| then h.mem[b.Payload()..b.Payload() + b.req] else []
  }

  lemma LiveBlockFits(h: Heap, a: nat)
    requires Valid(h) && Live(h.runs, a)
    ensures var i := FindRun(h.runs, a); var k := FindBlock(h.runs[i].blocks, a);
            BlockAt(h.runs, a) == h.runs[i].blocks[k]
    ensures var b := BlockAt(h.runs, a);
            && b.req + ALIGNMENT + ALIGN_INFO <= b.size
            && b.End() <= ADDRESS_SPACE && b.Payload() + b.req < b.End()
            && Tagged(h.mem, b)
            && |Contents(h, a)| == b.req
  {
    hide NoneEmpty, IndexOf, TotalSize, TotalBodies;
    var i := FindRun(h.runs, a);
    var b := BlockAt(h.runs, a);
    assert GoodRun(h.runs[i]);
    assert b.End() <= h.runs[i].Limit();
    PayloadInBody(b);
  }

  // a names the same block with the same bytes in both heaps.
  ghost predicate Untouched(h: Heap, h': Heap, a: nat) {
    && Live(h.runs, a) && Live(h'.runs, a)
    && BlockAt(h'.runs, a) == BlockAt(h.runs, a)
    && Contents(h', a) == Contents(h, a)
  }

  lemma LiveBlocksApart(runs: seq<Run>, a: nat, c: nat)
    requires GoodRuns(runs) && Live(runs, a) && Live(runs, c) && a != c
    ensures BlockAt(runs, a).End() <= c || BlockAt(runs, c).End() <= a
  {
    var i, j := FindRun(runs, a), FindRun(runs, c);
    BlocksApart(runs, i, FindBlock(runs[i].blocks, a), j, FindBlock(runs[j].blocks, c));
  }

  // ---------- malloc ----------

  lemma StaysLive(runs: seq<Run>, runs': seq<Run>, a: nat, i: nat, k: nat)
    requires GoodRuns(runs') && Live(runs, a)
    requires i < |runs'| && k < |runs'[i].blocks| && runs'[i].blocks[k] == BlockAt(runs, a)
    ensures Live(runs', a) && BlockAt(runs', a) == BlockAt(runs, a)
  {
    FindRunUnique(runs', i, k);
  }

  lemma InsertStaysLive(runs: seq<Run>, i: nat, k: nat, b: Block, a: nat)
    requires i < |runs| && k <= |runs[i].blocks| && Live(runs, a)
    requires GoodRuns(runs[i := InsertBlock(runs[i], k, b)])
    ensures var runs' := runs[i := InsertBlock(runs[i], k, b)]; Live(runs', a) && BlockAt(runs', a) == BlockAt(runs, a)
  {
    hide GoodRuns;
    var j := FindRun(runs, a);
    var m := FindBlock(runs[j].blocks, a);
    StaysLive(runs, runs[i := InsertBlock(runs[i], k, b)], a, j, if j == i && m >= k then m + 1 else m);
  }

  lemma MallocKeepsBlock(h: Heap, req: nat, grant: nat, a: nat)
    requires Request(h, req, grant) && Live(h.runs, a)
    ensures var m := Malloc(h, req, grant).heap; Live(m.runs, a) && BlockAt(m.runs, a) == BlockAt(h.runs, a)
  {
    hide Malloc, GoodRuns, NoneEmpty, IndexOf, AllTagged, TotalSize, TotalBodies, NoRoom;
    var m := Malloc(h, req, grant);
    MallocKeeps(h, req, grant);
    if m.ptr != 0 {
      MallocSpot(h, req, grant);
      var s := SpotOf(h, req);
      if s.requested {
        var i := FindRun(h.runs, a);
        StaysLive(h.runs, m.heap.runs, a, i, FindBlock(h.runs[i].blocks, a));
      } else {
        InsertStaysLive(h.runs, s.run, s.gap, Block(GapStart(h.runs[s.run], s.gap), BodySize(req), req), a);
      }
    }
  }

  lemma RunsApart(runs: seq<Run>, i: nat, j: nat)
    requires GoodRuns(runs) && i < |runs| && j < |runs| && i != j
    ensures Apart(runs[i], runs[j])
  {
    if i < j { assert Apart(runs[i], runs[j]); } else { assert Apart(runs[j], runs[i]); }
  }

  // The start of a gap that is not empty is no block's address.
  lemma GapAddressIsNew(runs: seq<Run>, j: nat, g: nat, a: nat)
    requires GoodRuns(runs) && Live(runs, a) && j < |runs| && g <= |runs[j].blocks| && Gap(runs[j], g) > 0
    ensures GapStart(runs[j], g) != a
  {
    hide GoodRuns, FindBlock, FindRun;
    var i, r := FindRun(runs, a), runs[j];
    GoodRunAt(runs, i);
    GoodRunAt(runs, j);
    HoldsWhere(runs[i], a);
    if i == j {
      var k := FindBlock(r.blocks, a);
      assert r.blocks[k].addr == a;
      assert k < g ==> r.blocks[k].End() <= GapStart(r, g);
      assert k >= g ==> GapEnd(r, g) <= r.blocks[k].addr;
    } else {
      RunsApart(runs, i, j);
      assert r.base <= GapStart(r, g) && GapEnd(r, g) <= r.Limit();
    }
  }

  lemma NewAddressIsNew(runs: seq<Run>, runs': seq<Run>, s: Spot, req: nat, grant: nat, a: nat)
    requires GoodRuns(runs) && Live(runs, a) && Granted(runs, grant, PagesFor(BodySize(req)))
    requires if s.requested then InNewRun(runs, runs', s, req, grant) else InGap(runs, runs', s, req)
    ensures runs'[s.run].blocks[s.gap].addr != a
  {
    hide PagesFor, BodySize, FirstGap, RoomIn, IndexOf, GoodRuns, FindBlock;
    if s.requested {
      var i := FindRun(runs, a);
      GoodRunAt(runs, i);
      HoldsWhere(runs[i], a);
      FreshRunHasRoom(grant, BodySize(req));
      assert Apart(runs[i], Run(grant, PagesFor(BodySize(req)), []));
    } else {
      GapAddressIsNew(runs, s.run, s.gap, a);
    }
  }

  lemma NewBlockIsNew(h: Heap, req: nat, grant: nat, a: nat)
    requires Request(h, req, grant) && Live(h.runs, a) && Malloc(h, req, grant).ptr != 0
    ensures var m := Malloc(h, req, grant); m.ptr < ADDRESS_SPACE && HeaderOf(m.heap.mem, m.ptr) != a
  {
    MallocPointer(h, req, grant);
    MallocSpot(h, req, grant);
    NewAddressIsNew(h.runs, Malloc(h, req, grant).heap.runs, SpotOf(h, req), req, grant, a);
  }

  // Bytes written between the header and the end of one block leave the
  // requested bytes of a block elsewhere alone.
  lemma SameBytes(mem: seq<Byte>, mem': seq<Byte>, b: Block, c: Block)
    requires |mem'| == |mem| && c.Payload() + c.req <= |mem|
    requires b.End() <= c.addr || c.End() <= b.addr
    requires c.req + ALIGNMENT + ALIGN_INFO <= c.size
    requires forall x :: 0 <= x < |mem| && !(b.addr <= x < b.End()) ==> mem'[x] == mem[x]
    ensures mem'[c.Payload()..c.Payload() + c.req] == mem[c.Payload()..c.Payload() + c.req]
    ensures Tagged(mem, c) ==> Tagged(mem', c)
  {
    PayloadInBody(c);
  }

  // malloc moves no block and changes no requested byte of any block.
  lemma MallocFrame(h: Heap, req: nat, grant: nat, a: nat)
    requires Request(h, req, grant) && Live(h.runs, a)
    ensures Untouched(h, Malloc(h, req, grant).heap, a)
  {
    hide Malloc, GoodRuns, AllTagged, NoneEmpty, Live, BlockAt, NoRoom;
    var m := Malloc(h, req, grant);
    MallocKeeps(h, req, grant);
    MallocKeepsBlock(h, req, grant, a);
    if m.ptr != 0 {
      MallocFrameBytes(h, req, grant, a);
    }
  }

  lemma MallocFrameBytes(h: Heap, req: nat, grant: nat, a: nat)
    requires Request(h, req, grant) && Live(h.runs, a) && Malloc(h, req, grant).ptr != 0
    ensures var c := BlockAt(h.runs, a); var mem' := Malloc(h, req, grant).heap.mem;
            c.Payload() + c.req <= |h.mem| == |mem'|
            && mem'[c.Payload()..c.Payload() + c.req] == h.mem[c.Payload()..c.Payload() + c.req]
  {
    hide Malloc, GoodRuns, AllTagged, NoneEmpty, NoRoom, IndexOf;
    var m := Malloc(h, req, grant);
    MallocKeeps(h, req, grant);
    MallocKeepsBlock(h, req, grant, a);
    MallocPointer(h, req, grant);
    NewBlockIsNew(h, req, grant, a);
    var s := SpotOf(h, req);
    var b := m.heap.runs[s.run].blocks[s.gap];
    PayloadInBody(b);
    LiveBlockFits(h, a);
    LiveBlocksApart(m.heap.runs, b.addr, a);
    SameBytes(h.mem, m.heap.mem, b, BlockAt(h.runs, a));
  }

  // ---------- free ----------

  lemma RemoveStaysLive(runs: seq<Run>, i: nat, k: nat, a: nat)
    requires i < |runs| && k < |runs[i].blocks| && Live(runs, a) && a != runs[i].blocks[k].addr
    requires GoodRuns(runs[i := RemoveBlock(runs[i], k)])
    ensures var runs' := runs[i := RemoveBlock(runs[i], k)]; Live(runs', a) && BlockAt(runs', a) == BlockAt(runs, a)
  {
    hide GoodRuns;
    var j := FindRun(runs, a);
    var m := FindBlock(runs[j].blocks, a);
    StaysLive(runs, runs[i := RemoveBlock(runs[i], k)], a, j, if j == i && m > k then m - 1 else m);
  }

  lemma DropStaysLive(runs: seq<Run>, i: nat, a: nat)
    requires i < |runs| && Live(runs, a) && FindRun(runs, a) != i
    requires GoodRuns(runs[..i] + runs[i + 1..])
    ensures var runs' := runs[..i] + runs[i + 1..]; Live(runs', a) && BlockAt(runs', a) == BlockAt(runs, a)
  {
    hide GoodRuns;
    var j := FindRun(runs, a);
    StaysLive(runs, runs[..i] + runs[i + 1..], a, if j < i then j else j - 1, FindBlock(runs[j].blocks, a));
  }

  lemma ReleaseFrame(h: Heap, i: nat, k: nat, a: nat)
    requires Valid(h) && i < |h.runs| && k < |h.runs[i].blocks|
    requires Live(h.runs, a) && a != h.runs[i].blocks[k].addr
    ensures Untouched(h, Release(h, i, k), a)
  {
    hide GoodRuns, AllTagged, NoneEmpty, IndexOf, TotalSize, TotalBodies, FreeSpace, FreeOf, Live, BlockAt;
    ReleaseKeeps(h, i, k);
    if RemoveBlock(h.runs[i], k).blocks == [] {
      DropStaysLive(h.runs, i, a);
    } else {
      RemoveStaysLive(h.runs, i, k, a);
    }
  }

  lemma NotLive(runs: seq<Run>, a: nat)
    requires forall j, m :: 0 <= j < |runs| && 0 <= m < |runs[j].blocks| ==> runs[j].blocks[m].addr != a
    ensures !Live(runs, a)
  {
  }

  lemma Released(h: Heap, i: nat, k: nat)
    requires Valid(h) && i < |h.runs| && k < |h.runs[i].blocks|
    ensures !Live(Release(h, i, k).runs, h.runs[i].blocks[k].addr)
  {
    hide AllTagged, NoneEmpty, IndexOf, TotalSize, TotalBodies;
    var f := Release(h, i, k);
    var a := h.runs[i].blocks[k].addr;
    var last := RemoveBlock(h.runs[i], k).blocks == [];
    forall j, m | 0 <= j < |f.runs| && 0 <= m < |f.runs[j].blocks| ensures f.runs[j].blocks[m].addr != a {
      if last {
        BlocksApart(h.runs, i, k, if j < i then j else j + 1, m);
      } else {
        BlocksApart(h.runs, i, k, j, if j == i && m >= k then m + 1 else m);
      }
    }
    NotLive(f.runs, a);
  }

  // free ends the life of the block its argument leads to, and of no other;
  // no requested byte of another block changes.
  lemma FreeFrame(h: Heap, p: nat, magic: nat, a: nat)
    requires Valid(h) && p < ADDRESS_SPACE && Live(h.runs, a)
    ensures if p != 0 && HeaderOf(h.mem, p) == a then
              FreePtr(h, p, magic).Freed? && !Live(FreePtr(h, p, magic).heap.runs, a)
            else Untouched(h, FreePtr(h, p, magic).heap, a)
  {
    hide GoodRuns, AllTagged, NoneEmpty, IndexOf, TotalSize, TotalBodies;
    if p != 0 && Live(h.runs, HeaderOf(h.mem, p)) {
      var c := HeaderOf(h.mem, p);
      var i := FindRun(h.runs, c);
      var k := FindBlock(h.runs[i].blocks, c);
      if c == a { Released(h, i, k); } else { ReleaseFrame(h, i, k, a); }
    }
  }

  // ---------- writing inside one payload ----------

  // mem' differs from mem at most in the requested bytes of the block at a.
  ghost predicate OnlyInside(mem: seq<Byte>, mem': seq<Byte>, b: Block) {
    && |mem'| == |mem|
    && (forall x :: 0 <= x < |mem| && !(b.Payload() <= x < b.Payload() + b.req) ==> mem'[x] == mem[x])
  }

  lemma InsideOther(h: Heap, mem': seq<Byte>, a: nat, c: nat)
    requires Valid(h) && Live(h.runs, a) && OnlyInside(h.mem, mem', BlockAt(h.runs, a))
    requires c != a && Live(h.runs, c)
    ensures Untouched(h, h.(mem := mem'), c) && Tagged(mem', BlockAt(h.runs, c))
  {
    hide GoodRuns, AllTagged, NoneEmpty, IndexOf, TotalSize, TotalBodies, Live, BlockAt, OnlyInside;
    LiveBlockFits(h, a);
    LiveBlockFits(h, c);
    LiveBlocksApart(h.runs, a, c);
    InsideBounds(h.mem, mem', BlockAt(h.runs, a));
    SameBytes(h.mem, mem', BlockAt(h.runs, a), BlockAt(h.runs, c));
  }

  lemma InsideBounds(mem: seq<Byte>, mem': seq<Byte>, b: Block)
    requires OnlyInside(mem, mem', b) && b.Payload() + b.req < b.End()
    ensures |mem'| == |mem| && forall x :: 0 <= x < |mem| && !(b.addr <= x < b.End()) ==> mem'[x] == mem[x]
  {
  }

  lemma InsideOwn(h: Heap, mem': seq<Byte>, a: nat)
    requires Valid(h) && Live(h.runs, a) && OnlyInside(h.mem, mem', BlockAt(h.runs, a))
    ensures Tagged(mem', BlockAt(h.runs, a))
  {
    hide GoodRuns, AllTagged, NoneEmpty, IndexOf, Live, BlockAt;
    LiveBlockFits(h, a);
  }

  lemma InsideKeeps(h: Heap, mem': seq<Byte>, a: nat)
    requires Valid(h) && Live(h.runs, a) && OnlyInside(h.mem, mem', BlockAt(h.runs, a))
    ensures Valid(h.(mem := mem'))
    ensures forall c :: c != a && Live(h.runs, c) ==> Untouched(h, h.(mem := mem'), c)
  {
    hide GoodRuns, NoneEmpty, IndexOf, Live, BlockAt, Tagged;
    forall i, k | 0 <= i < |h.runs| && 0 <= k < |h.runs[i].blocks| ensures Tagged(mem', h.runs[i].blocks[k]) {
      FindRunUnique(h.runs, i, k);
      var c := h.runs[i].blocks[k].addr;
      if c == a { InsideOwn(h, mem', a); } else { InsideOther(h, mem', a, c); }
    }
    forall c | c != a && Live(h.runs, c) ensures Untouched(h, h.(mem := mem'), c) {
      InsideOther(h, mem', a, c);
    }
  }

  // ---------- realloc ----------

  ghost predicate ReallocRequest(h: Heap, p: nat, size: nat, grant: nat) {
    p < ADDRESS_SPACE && Request(h, size, grant)
  }

  lemma ShrunkRunsGood(runs: seq<Run>, i: nat, k: nat, req: nat)
    requires GoodRuns(runs) && i < |runs| && k < |runs[i].blocks| && req <= runs[i].blocks[k].req
    ensures var r := runs[i].(blocks := runs[i].blocks[k := runs[i].blocks[k].(req := req)]);
            var runs' := runs[i := r];
            && GoodRuns(runs')
            && (NoneEmpty(runs) ==> NoneEmpty(runs'))
            && (forall b :: IndexOf(runs', b) == IndexOf(runs, b))
            && TotalSize(runs') == TotalSize(runs) && TotalBodies(runs') == TotalBodies(runs)
            && runs'[i].blocks[k] == runs[i].blocks[k].(req := req)
  {
    hide Used, BodyBytes, TotalSize, TotalBodies, IndexOf;
    var r := runs[i].(blocks := runs[i].blocks[k := runs[i].blocks[k].(req := req)]);
    assert RemoveBlock(r, k) == RemoveBlock(runs[i], k);
    UsedRemove(r, k);
    UsedRemove(runs[i], k);
    UpdateKeepsApart(runs, i, r);
    TotalsUpdate(runs, i, r);
  }

  lemma ShrinkValid(h: Heap, a: nat, req: nat)
    requires Valid(h) && Live(h.runs, a) && req <= BlockAt(h.runs, a).req
    ensures Valid(SetReq(h, a, req))
  {
    hide GoodRuns, NoneEmpty, IndexOf, TotalSize, TotalBodies;
    var s := SetReq(h, a, req);
    var i := FindRun(h.runs, a);
    ShrunkRunsGood(h.runs, i, FindBlock(h.runs[i].blocks, a), req);
    forall j, m | 0 <= j < |s.runs| && 0 <= m < |s.runs[j].blocks| ensures Tagged(s.mem, s.runs[j].blocks[m]) {
      assert Tagged(h.mem, h.runs[j].blocks[m]);
    }
  }

  lemma ShrunkBlock(h: Heap, a: nat, req: nat)
    requires Valid(h) && Live(h.runs, a) && req <= BlockAt(h.runs, a).req
    ensures var s := SetReq(h, a, req); Live(s.runs, a) && BlockAt(s.runs, a) == BlockAt(h.runs, a).(req := req)
  {
    hide GoodRuns, NoneEmpty, IndexOf, AllTagged, TotalSize, TotalBodies;
    ShrinkValid(h, a, req);
    var i := FindRun(h.runs, a);
    FindRunUnique(SetReq(h, a, req).runs, i, FindBlock(h.runs[i].blocks, a));
  }

  // Shrinking in place: the same block with a smaller request, holding the
  // first bytes it held; nothing else moves or changes.
  lemma ShrinkKeeps(h: Heap, a: nat, req: nat)
    requires Valid(h) && Live(h.runs, a) && req <= BlockAt(h.runs, a).req
    ensures var s := SetReq(h, a, req);
            && Valid(s) && Live(s.runs, a)
            && BlockAt(s.runs, a) == BlockAt(h.runs, a).(req := req)
            && req <= |Contents(h, a)| && Contents(s, a) == Contents(h, a)[..req]
  {
    hide GoodRuns, NoneEmpty, IndexOf, AllTagged, TotalSize, TotalBodies, Live, BlockAt;
    ShrinkValid(h, a, req);
    ShrunkBlock(h, a, req);
    LiveBlockFits(h, a);
    var b := BlockAt(h.runs, a);
    SubSlice(h.mem, b.Payload(), b.Payload() + b.req, 0, req);
  }

  lemma ShrinkFrame(h: Heap, a: nat, req: nat, c: nat)
    requires Valid(h) && Live(h.runs, a) && req <= BlockAt(h.runs, a).req
    requires c != a && Live(h.runs, c)
    ensures Untouched(h, SetReq(h, a, req), c)
  {
    hide GoodRuns, NoneEmpty, IndexOf, AllTagged, TotalSize, TotalBodies;
    ShrinkValid(h, a, req);
    var j := FindRun(h.runs, c);
    StaysLive(h.runs, SetReq(h, a, req).runs, c, j, FindBlock(h.runs[j].blocks, c));
  }

  // The heap between the copy and the final free of a growing realloc.
  function Copied(h: Heap, p: nat, size: nat, grant: nat, n: nat): Heap {
    var m := Malloc(h, size, grant);
    m.heap.(mem := CopyBytes(m.heap.mem, m.ptr, p, n))
  }

  lemma CopySlice(mem: seq<Byte>, dst: nat, src: nat, n: nat)
    requires dst + n <= |mem| && src + n <= |mem|
    ensures CopyBytes(mem, dst, src, n)[dst..dst + n] == mem[src..src + n]
  {
  }

  // What the copy of a growing realloc leaves: a valid heap in which the new
  // block starts with the bytes found at p, all older blocks untouched.
  lemma CopiedKeeps(h: Heap, p: nat, size: nat, grant: nat, n: nat)
    requires Request(h, size, grant) && Malloc(h, size, grant).ptr != 0 && n <= size
    ensures var m := Malloc(h, size, grant); var c := Copied(h, p, size, grant, n);
            && Valid(c) && m.ptr < ADDRESS_SPACE
            && var a' := HeaderOf(m.heap.mem, m.ptr);
               && Live(c.runs, a') && HeaderOf(c.mem, m.ptr) == a'
               && BlockAt(c.runs, a').req == size && BlockAt(c.runs, a').Payload() == m.ptr
               && n <= |Contents(c, a')|
               && (p + n <= ADDRESS_SPACE ==> Contents(c, a')[..n] == m.heap.mem[p..p + n])
               && (forall d :: d != a' && Live(m.heap.runs, d) ==> Untouched(m.heap, c, d))
  {
    hide Malloc, GoodRuns, NoneEmpty, IndexOf, AllTagged, TotalSize, TotalBodies, NoRoom, Live, BlockAt, FindRun,
      FindBlock;
    var m := Malloc(h, size, grant);
    var c := Copied(h, p, size, grant, n);
    MallocKeeps(h, size, grant);
    NewBlockLive(h, size, grant);
    var a' := HeaderOf(m.heap.mem, m.ptr);
    LiveBlockFits(m.heap, a');
    InsideKeeps(m.heap, c.mem, a');
    InsideOwn(m.heap, c.mem, a');
    UnalignInvertsAlign(c.mem, BlockAt(c.runs, a'));
    if p + n <= ADDRESS_SPACE {
      CopySlice(m.heap.mem, m.ptr, p, n);
      assert Contents(c, a')[..n] == c.mem[m.ptr..m.ptr + n];
    }
  }

  lemma NewBlockLive(h: Heap, req: nat, grant: nat)
    requires Request(h, req, grant) && Malloc(h, req, grant).ptr != 0
    ensures var m := Malloc(h, req, grant);
            && m.ptr < ADDRESS_SPACE
            && var a := HeaderOf(m.heap.mem, m.ptr);
               Live(m.heap.runs, a) && BlockAt(m.heap.runs, a).req == req && BlockAt(m.heap.runs, a).Payload() == m.ptr
  {
    MallocPointer(h, req, grant);
  }

  lemma CopiedFrame(h: Heap, p: nat, size: nat, grant: nat, n: nat, a: nat)
    requires Request(h, size, grant) && Malloc(h, size, grant).ptr != 0 && n <= size
    requires Live(h.runs, a)
    ensures Untouched(h, Copied(h, p, size, grant, n), a)
    ensures var m := Malloc(h, size, grant); m.ptr < ADDRESS_SPACE && HeaderOf(m.heap.mem, m.ptr) != a
  {
    hide Malloc, GoodRuns, NoneEmpty, IndexOf, AllTagged, TotalSize, TotalBodies, NoRoom, Live, BlockAt, FindRun,
      FindBlock;
    MallocFrame(h, size, grant, a);
    NewBlockIsNew(h, size, grant, a);
    CopiedKeeps(h, p, size, grant, n);
  }

  lemma ReallocKeeps(h: Heap, p: nat, size: nat, grant: nat, magic: nat)
    requires ReallocRequest(h, p, size, grant)
    ensures Valid(Realloc(h, p, size, grant, magic).heap)
  {
    hide Malloc, GoodRuns, NoneEmpty, IndexOf, AllTagged, TotalSize, TotalBodies, NoRoom, FindRun, FindBlock;
    if size == 0 {
      FreeKeeps(h, p, magic);
    } else if p == 0 {
      MallocKeeps(h, size, grant);
    } else if Live(h.runs, HeaderOf(h.mem, p)) {
      var a := HeaderOf(h.mem, p);
      var n := BlockAt(h.runs, a).req;
      if n >= size {
        ShrinkValid(h, a, size);
      } else {
        MallocKeeps(h, size, grant);
        if Malloc(h, size, grant).ptr != 0 {
          CopiedKeeps(h, p, size, grant, n);
          FreeKeeps(Copied(h, p, size, grant, n), p, magic);
        } else if n == 0 {
          var m := Malloc(h, size, grant);
          assert Copied(h, p, size, grant, n).mem == m.heap.mem;
          FreeKeeps(Copied(h, p, size, grant, n), p, magic);
        }
      }
    }
  }

  // p is the pointer of a live block.
  ghost predicate Owned(h: Heap, p: nat) {
    && 0 < p < ADDRESS_SPACE && |h.mem| == ADDRESS_SPACE
    && Live(h.runs, HeaderOf(h.mem, p))
    && p == BlockAt(h.runs, HeaderOf(h.mem, p)).Payload()
  }

  // offset is one of the requested bytes of the block at p.
  ghost predicate MayStore(h: Heap, p: nat, offset: nat) {
    Owned(h, p) && offset < BlockAt(h.runs, HeaderOf(h.mem, p)).req
  }

  lemma StoreInside(h: Heap, p: nat, offset: nat, value: Byte)
    requires Valid(h) && MayStore(h, p, offset)
    ensures p + offset < ADDRESS_SPACE == |h.mem|
    ensures OnlyInside(h.mem, h.mem[p + offset := value], BlockAt(h.runs, HeaderOf(h.mem, p)))
  {
    hide GoodRuns, NoneEmpty, IndexOf, AllTagged, TotalSize, TotalBodies, FindRun, FindBlock;
    LiveBlockFits(h, HeaderOf(h.mem, p));
  }

  // realloc faults exactly when it has bytes to move, no gap fits and the
  // provider refuses.
  lemma ReallocFaults(h: Heap, p: nat, size: nat, grant: nat, magic: nat)
    requires ReallocRequest(h, p, size, grant) && Owned(h, p)
    ensures var n := BlockAt(h.runs, HeaderOf(h.mem, p)).req;
            Realloc(h, p, size, grant, magic).Fault? <==>
            0 < n < size && grant == 0 && NoRoom(h.runs, 0, |h.runs|, BodySize(size) + MINOR_HEADER)
  {
    hide Malloc, GoodRuns, NoneEmpty, IndexOf, AllTagged, TotalSize, TotalBodies, NoRoom, Live, FindRun, FindBlock;
    MallocKeeps(h, size, grant);
  }

  function Min(a: nat, b: nat): nat { if a < b then a else b }

  // realloc of a live block hands back a block of the new size that begins
  // with the old bytes, as many as both have; a block that moved leaves
  // nothing behind.
  lemma ReallocKeepsBytes(h: Heap, p: nat, size: nat, grant: nat, magic: nat)
    requires ReallocRequest(h, p, size, grant) && size > 0 && Owned(h, p)
    requires Realloc(h, p, size, grant, magic).Returned? && Realloc(h, p, size, grant, magic).ptr != 0
    ensures var r := Realloc(h, p, size, grant, magic); var a := HeaderOf(h.mem, p);
            && Owned(r.heap, r.ptr)
            && var a' := HeaderOf(r.heap.mem, r.ptr); var n := Min(BlockAt(h.runs, a).req, size);
               && BlockAt(r.heap.runs, a').req == size
               && n <= |Contents(h, a)| && n <= |Contents(r.heap, a')|
               && Contents(r.heap, a')[..n] == Contents(h, a)[..n]
               && (a' != a ==> !Live(r.heap.runs, a))
  {
    hide Malloc, GoodRuns, NoneEmpty, IndexOf, AllTagged, TotalSize, TotalBodies, NoRoom, Live, BlockAt, FindRun,
      FindBlock;
    var a := HeaderOf(h.mem, p);
    var b := BlockAt(h.runs, a);
    LiveBlockFits(h, a);
    if b.req >= size {
      ShrinkKeeps(h, a, size);
      assert HeaderOf(SetReq(h, a, size).mem, p) == a;
    } else {
      MovedBytes(h, p, size, grant, magic);
    }
  }

  lemma MovedBytes(h: Heap, p: nat, size: nat, grant: nat, magic: nat)
    requires ReallocRequest(h, p, size, grant) && Owned(h, p) && Malloc(h, size, grant).ptr != 0
    requires BlockAt(h.runs, HeaderOf(h.mem, p)).req < size
    ensures var a := HeaderOf(h.mem, p); var n := BlockAt(h.runs, a).req;
            var freed := FreePtr(Copied(h, p, size, grant, n), p, magic);
            var f := freed.heap; var p' := Malloc(h, size, grant).ptr;
            && freed.Freed? && Owned(f, p')
            && var a' := HeaderOf(f.mem, p');
               && BlockAt(f.runs, a').req == size
               && n == |Contents(h, a)| <= |Contents(f, a')|
               && Contents(f, a')[..n] == Contents(h, a)
               && !Live(f.runs, a)
  {
    hide Malloc, GoodRuns, NoneEmpty, IndexOf, AllTagged, TotalSize, TotalBodies, NoRoom, Live, BlockAt, FindRun,
      FindBlock;
    var a := HeaderOf(h.mem, p);
    var n := BlockAt(h.runs, a).req;
    var c := Copied(h, p, size, grant, n);
    var m := Malloc(h, size, grant);
    LiveBlockFits(h, a);
    CopiedKeeps(h, p, size, grant, n);
    CopiedFrame(h, p, size, grant, n, a);
    MallocFrame(h, size, grant, a);
    LiveBlockFits(c, a);
    UnalignInvertsAlign(c.mem, BlockAt(c.runs, a));
    FreeFrame(c, p, magic, a);
    FreeFrame(c, p, magic, HeaderOf(m.heap.mem, m.ptr));
    FreeMem(c, p, magic);
  }

  lemma FreeMem(h: Heap, p: nat, magic: nat)
    requires |h.mem| == ADDRESS_SPACE && p < ADDRESS_SPACE
    ensures FreePtr(h, p, magic).heap.mem == h.mem
  {
  }

  // Every block but the one passed in keeps its place and its bytes.
  lemma ReallocFrame(h: Heap, p: nat, size: nat, grant: nat, magic: nat, c: nat)
    requires ReallocRequest(h, p, size, grant)
    requires p == 0 || Owned(h, p) || !Live(h.runs, HeaderOf(h.mem, p))
    requires Live(h.runs, c) && (p == 0 || c != HeaderOf(h.mem, p))
    ensures Untouched(h, Realloc(h, p, size, grant, magic).heap, c)
  {
    hide Malloc, GoodRuns, NoneEmpty, IndexOf, AllTagged, TotalSize, TotalBodies, NoRoom, FindRun, FindBlock;
    if size == 0 {
      FreeFrame(h, p, magic, c);
    } else if p == 0 {
      MallocFrame(h, size, grant, c);
    } else if Live(h.runs, HeaderOf(h.mem, p)) {
      var a := HeaderOf(h.mem, p);
      var n := BlockAt(h.runs, a).req;
      if n >= size {
        ShrinkFrame(h, a, size, c);
      } else {
        MallocFrame(h, size, grant, c);
        if Malloc(h, size, grant).ptr != 0 || n == 0 {
          GrowFrame(h, p, size, grant, magic, n, c);
        }
      }
    }
  }

  // The copy does not disturb the way back from p to its header.
  lemma CopiedHeader(h: Heap, p: nat, size: nat, grant: nat, n: nat)
    requires ReallocRequest(h, p, size, grant) && Owned(h, p) && n < size
    requires Malloc(h, size, grant).ptr != 0
    ensures HeaderOf(Copied(h, p, size, grant, n).mem, p) == HeaderOf(h.mem, p)
  {
    hide Malloc, GoodRuns, NoneEmpty, IndexOf, AllTagged, TotalSize, TotalBodies, NoRoom, Live, BlockAt, FindRun,
      FindBlock;
    var a := HeaderOf(h.mem, p);
    var c := Copied(h, p, size, grant, n);
    CopiedKeeps(h, p, size, grant, n);
    CopiedFrame(h, p, size, grant, n, a);
    LiveBlockFits(c, a);
    UnalignInvertsAlign(c.mem, BlockAt(c.runs, a));
  }

  lemma GrowFrame(h: Heap, p: nat, size: nat, grant: nat, magic: nat, n: nat, c: nat)
    requires ReallocRequest(h, p, size, grant) && Owned(h, p) && n < size
    requires Malloc(h, size, grant).ptr != 0 || n == 0
    requires Live(h.runs, c) && c != HeaderOf(h.mem, p)
    ensures Untouched(h, FreePtr(Copied(h, p, size, grant, n), p, magic).heap, c)
  {
    hide Malloc, GoodRuns, NoneEmpty, IndexOf, AllTagged, TotalSize, TotalBodies, NoRoom, Live, BlockAt, FindRun,
      FindBlock;
    var k := Copied(h, p, size, grant, n);
    MallocKeeps(h, size, grant);
    MallocFrame(h, size, grant, c);
    if Malloc(h, size, grant).ptr != 0 {
      CopiedHeader(h, p, size, grant, n);
      CopiedKeeps(h, p, size, grant, n);
      CopiedFrame(h, p, size, grant, n, c);
    } else {
      assert k.mem == h.mem;
    }
    FreeFrame(k, p, magic, c);
  }
}
