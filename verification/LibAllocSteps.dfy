// What each piece of liballoc's pointer surgery does to the headers, and how
// that looks from the runs.
module LibAllocSteps {
  import opened ByteSeqs
  import opened HeapModel
  import opened HeapGeometry
  import opened HeapSafety
  import opened HeapContents
  import opened LibAllocStore

  // ---------- header values before and after surgery ----------

  lemma InsertedHeaders(runs: seq<Run>, i: nat, k: nat, b: Block)
    requires i < |runs| && k <= |runs[i].blocks|
    ensures var r := runs[i]; var r' := InsertBlock(r, k, b); var runs' := runs[i := r'];
            && MinorOf(r', k) == Minor(if k == 0 then 0 else r.blocks[k - 1].addr,
                                       if k == |r.blocks| then 0 else r.blocks[k].addr, r.base, MAGIC, b.size, b.req)
            && (k > 0 ==> MinorOf(r', k - 1) == MinorOf(r, k - 1).(next := b.addr))
            && (k < |r.blocks| ==> MinorOf(r', k + 1) == MinorOf(r, k).(prev := b.addr))
            && MajorOf(runs', i) == MajorOf(runs, i).(
                 usage := MajorOf(runs, i).usage + b.size + MINOR_HEADER,
                 first := if k == 0 then b.addr else MajorOf(runs, i).first)
  {
    UsedInsert(runs[i], k, b);
  }

  lemma RemovedHeaders(runs: seq<Run>, i: nat, k: nat)
    requires i < |runs| && k < |runs[i].blocks|
    ensures var r := runs[i]; var r' := RemoveBlock(r, k); var runs' := runs[i := r'];
            && Usage(r) == Usage(r') + (r.blocks[k].size + MINOR_HEADER)
            && (k > 0 ==> MinorOf(r', k - 1) == MinorOf(r, k - 1).(next := MinorOf(r, k).next))
            && (k + 1 < |r.blocks| ==> MinorOf(r', k) == MinorOf(r, k + 1).(prev := MinorOf(r, k).prev))
            && MajorOf(runs', i) == MajorOf(runs, i).(
                 usage := Usage(r'),
                 first := if k == 0 then MinorOf(r, k).next else MajorOf(runs, i).first)
  {
    UsedRemove(runs[i], k);
  }

  lemma DroppedHeaders(runs: seq<Run>, i: nat)
    requires i < |runs|
    ensures var rest := runs[..i] + runs[i + 1..];
            && (i > 0 ==> MajorOf(rest, i - 1) == MajorOf(runs, i - 1).(next := MajorOf(runs, i).next))
            && (i + 1 < |runs| ==> MajorOf(rest, i) == MajorOf(runs, i + 1).(prev := MajorOf(runs, i).prev))
            && RootOf(rest) == (if i == 0 then MajorOf(runs, i).next else RootOf(runs))
  {
  }

  lemma AppendedHeaders(runs: seq<Run>, r: Run)
    requires r.blocks == []
    ensures var runs' := runs + [r];
            && (runs != [] ==> MajorOf(runs', |runs| - 1) == MajorOf(runs, |runs| - 1).(next := r.base))
            && MajorOf(runs', |runs|) ==
               Major(if runs == [] then 0 else runs[|runs| - 1].base, 0, r.pages, r.Size(), MAJOR_HEADER, 0)
            && RootOf(runs') == (if runs == [] then r.base else RootOf(runs))
  {
    assert Used([]) == 0;
  }

  // ---------- the field writes of each operation, as maps ----------

  function StitchMinors(minors: map<nat, Minor>, at: nat, before: nat, after: nat, m: Minor): map<nat, Minor> {
    var m0 := minors[at := m];
    var m1 := if before != 0 && before in m0 then m0[before := m0[before].(next := at)] else m0;
    if after != 0 && after in m1 then m1[after := m1[after].(prev := at)] else m1
  }

  function StitchMajors(majors: map<nat, Major>, maj: nat, at: nat, before: nat, bytes: nat): map<nat, Major>
    requires maj in majors
  {
    var m0 := if before == 0 then majors[maj := majors[maj].(first := at)] else majors;
    m0[maj := m0[maj].(usage := m0[maj].usage + bytes)]
  }

  function UnstitchMinors(minors: map<nat, Minor>, at: nat, m: Minor): map<nat, Minor> {
    var m0 := minors[at := m.(magic := DEAD)];
    var m1 := if m.next != 0 && m.next in m0 then m0[m.next := m0[m.next].(prev := m.prev)] else m0;
    if m.prev != 0 && m.prev in m1 then m1[m.prev := m1[m.prev].(next := m.next)] else m1
  }

  // The major map after the header of run i was brought up to date with r.
  function WithMajor(majors: map<nat, Major>, runs: seq<Run>, i: nat, r: Run): map<nat, Major>
    requires i < |runs|
  {
    majors[runs[i].base := MajorOf(runs[i := r], i)]
  }

  lemma UnstitchedMinors(minors: map<nat, Minor>, runs: seq<Run>, i: nat, k: nat)
    requires MinorsMatch(minors, runs) && GoodRuns(runs) && i < |runs| && k < |runs[i].blocks|
    ensures var a := runs[i].blocks[k].addr;
            && a in minors && minors[a] == MinorOf(runs[i], k)
            && var m := minors[a];
               && (m.next != 0 ==> m.next in minors && m.next != a)
               && (m.prev != 0 ==> m.prev in minors && m.prev != a)
               && UnstitchMinors(minors, a, m) == Unlinked(minors, runs[i], k)
  {
    hide GoodRuns, Usage, MajorOf;
    var r := runs[i];
    RemovedHeaders(runs, i, k);
    MinorFacts(minors, runs, i, k);
    NotNull(runs, i);
    if k > 0 { MinorFacts(minors, runs, i, k - 1); AddrDiffers(runs, i, k, i, k - 1); }
    if k + 1 < |r.blocks| { MinorFacts(minors, runs, i, k + 1); AddrDiffers(runs, i, k, i, k + 1); }
    if k > 0 && k + 1 < |r.blocks| { AddrDiffers(runs, i, k - 1, i, k + 1); }
  }

  lemma UnstitchedMajors(majors: map<nat, Major>, runs: seq<Run>, i: nat, k: nat)
    requires MajorsMatch(majors, runs) && GoodRuns(runs) && i < |runs| && k < |runs[i].blocks|
    ensures var base := runs[i].base; var m := MinorOf(runs[i], k);
            && base in majors
            && majors[base].usage >= m.size + MINOR_HEADER
            && var m0 := majors[base].(usage := majors[base].usage - (m.size + MINOR_HEADER));
               majors[base := if m.prev == 0 then m0.(first := m.next) else m0]
               == WithMajor(majors, runs, i, RemoveBlock(runs[i], k))
  {
    hide GoodRuns, Usage, MajorOf;
    RemovedHeaders(runs, i, k);
    MajorFacts(majors, runs, i);
    NotNull(runs, i);
    assert majors[runs[i].base] == MajorOf(runs, i);
  }

  function UnlinkMajors(majors: map<nat, Major>, maj: nat, m: Major): map<nat, Major> {
    var m0 := if m.prev != 0 && m.prev in majors then majors[m.prev := majors[m.prev].(next := m.next)] else majors;
    var m1 := if m.next != 0 && m.next in m0 then m0[m.next := m0[m.next].(prev := m.prev)] else m0;
    m1 - {maj}
  }

  // rs is the list of runs before its run i lost its last block.
  lemma DiscardedMajors(majors: map<nat, Major>, rs: seq<Run>, i: nat)
    requires i < |rs| && |rs[i].blocks| == 1
    requires GoodRuns(rs) && MajorsMatch(majors, rs[i := RemoveBlock(rs[i], 0)])
    ensures var maj := rs[i].base;
            && maj in majors && majors[maj].size == rs[i].Size() && majors[maj].pages == rs[i].pages
            && var m := majors[maj];
               && (m.prev != 0 ==> m.prev in majors && m.prev != maj)
               && (m.next != 0 ==> m.next in majors && m.next != maj)
               && UnlinkMajors(majors, maj, m) == Joined(majors, rs, i)
               && RootOf(rs[..i] + rs[i + 1..]) == (if RootOf(rs) == maj then m.next else RootOf(rs))
  {
    hide GoodRuns, Usage, MajorOf;
    var rs' := rs[i := RemoveBlock(rs[i], 0)];
    NotNull(rs, i);
    DroppedHeaders(rs', i);
    assert rs'[..i] + rs'[i + 1..] == rs[..i] + rs[i + 1..];
    if i > 0 { NotNull(rs, i - 1); BaseDiffers(rs, i - 1, i); BaseDiffers(rs, 0, i); }
    if i + 1 < |rs| { NotNull(rs, i + 1); BaseDiffers(rs, i, i + 1); }
    if i > 0 && i + 1 < |rs| { BaseDiffers(rs, i - 1, i + 1); }
    DiscardedLinks(rs', i);
    assert majors[rs[i].base].pages == rs[i].pages by { MajorFacts(majors, rs', i); }
  }

  lemma WithMajorIs(majors: map<nat, Major>, runs: seq<Run>, i: nat, r: Run)
    requires i < |runs| && r.base == runs[i].base
    ensures WithMajor(majors, runs, i, r) == majors[r.base := MajorOf(runs[i := r], i)]
  {
  }

  lemma LastBlock(rs: seq<Run>, i: nat, k: nat)
    requires GoodRuns(rs) && i < |rs| && k < |rs[i].blocks| && FirstOf(RemoveBlock(rs[i], k).blocks) == 0
    ensures RemoveBlock(rs[i], k).blocks == [] && |rs[i].blocks| == 1 && k == 0
  {
    NotNull(rs, i);
  }

  lemma MoreBlocks(rs: seq<Run>, i: nat, k: nat)
    requires i < |rs| && k < |rs[i].blocks| && FirstOf(RemoveBlock(rs[i], k).blocks) != 0
    ensures RemoveBlock(rs[i], k).blocks != []
  {
  }

  lemma CopyAt(m: seq<Byte>, dst: nat, src: nat, n: nat, x: nat)
    requires dst + n <= |m| && src + n <= |m| && x < |m|
    ensures CopyBytes(m, dst, src, n)[x] == if dst <= x < dst + n then m[src + (x - dst)] else m[x]
  {
  }

  lemma CopyNone(m: seq<Byte>, dst: nat, src: nat)
    requires dst <= |m| && src <= |m|
    ensures CopyBytes(m, dst, src, 0) == m
  {
  }

  // Copying one more byte, to and from ranges that do not meet.
  lemma CopyOne(m: seq<Byte>, dst: nat, src: nat, n: nat, c: seq<Byte>)
    requires dst + n + 1 <= |m| && src + n + 1 <= |m|
    requires dst + n + 1 <= src || src + n + 1 <= dst
    requires c == CopyBytes(m, dst, src, n)
    ensures CopyBytes(m, dst, src, n + 1) == c[dst + n := c[src + n]]
  {
    hide CopyBytes;
    var d := CopyBytes(m, dst, src, n + 1);
    forall x | 0 <= x < |m| ensures d[x] == c[dst + n := c[src + n]][x] {
      CopyAt(m, dst, src, n, x);
      CopyAt(m, dst, src, n, src + n);
      CopyAt(m, dst, src, n + 1, x);
    }
  }

  lemma CopyFour(m: seq<Byte>, dst: nat, src: nat, n: nat, c: seq<Byte>)
    requires dst + n + 4 <= |m| && src + n + 4 <= |m|
    requires dst + n + 4 <= src || src + n + 4 <= dst
    requires c == CopyBytes(m, dst, src, n)
    ensures CopyBytes(m, dst, src, n + 4) ==
            c[dst + n := c[src + n]][dst + n + 1 := c[src + n + 1]]
             [dst + n + 2 := c[src + n + 2]][dst + n + 3 := c[src + n + 3]]
  {
    hide CopyBytes;
    CopyOne(m, dst, src, n, c);
    CopyOne(m, dst, src, n + 1, CopyBytes(m, dst, src, n + 1));
    CopyOne(m, dst, src, n + 2, CopyBytes(m, dst, src, n + 2));
    CopyOne(m, dst, src, n + 3, CopyBytes(m, dst, src, n + 3));
  }

  lemma MinorHeader(majors: map<nat, Major>, minors: map<nat, Minor>, root: nat, runs: seq<Run>, i: nat, k: nat)
    requires Represents(majors, minors, root, runs) && i < |runs| && k < |runs[i].blocks|
    ensures runs[i].blocks[k].addr in minors && minors[runs[i].blocks[k].addr] == MinorOf(runs[i], k)
  {
  }

  // A header shows the magic exactly when its block is live; then it tells
  // the size that was requested.
  lemma MagicTells(majors: map<nat, Major>, minors: map<nat, Minor>, root: nat, runs: seq<Run>, a: nat)
    requires Represents(majors, minors, root, runs)
    ensures a in minors && minors[a].magic == MAGIC <==> Live(runs, a)
    ensures Live(runs, a) ==> minors[a].req == BlockAt(runs, a).req
  {
    if Live(runs, a) {
      var i := FindRun(runs, a);
      MinorHeader(majors, minors, root, runs, i, FindBlock(runs[i].blocks, a));
    }
  }

  lemma BlockOfHeader(majors: map<nat, Major>, minors: map<nat, Minor>, root: nat, runs: seq<Run>, a: nat)
    requires Represents(majors, minors, root, runs) && Live(runs, a)
    ensures var i := FindRun(runs, a); var k := FindBlock(runs[i].blocks, a);
            && k < |runs[i].blocks| && runs[i].blocks[k].addr == a
            && a in minors && minors[a].block == runs[i].base
  {
    var i := FindRun(runs, a);
    MinorHeader(majors, minors, root, runs, i, FindBlock(runs[i].blocks, a));
  }

  // The new block of a growing realloc lies apart from the bytes to copy.
  lemma MoveApart(h: Heap, p: nat, size: nat, grant: nat, n: nat)
    requires Request(h, size, grant) && Owned(h, p) && HeapModel.Malloc(h, size, grant).ptr != 0
    requires n == BlockAt(h.runs, HeaderOf(h.mem, p)).req < size
    ensures var q := HeapModel.Malloc(h, size, grant).ptr;
            (q + n <= p || p + n <= q) && q + n <= ADDRESS_SPACE && p + n <= ADDRESS_SPACE
  {
    hide HeapModel.Malloc, GoodRuns, NoneEmpty, AllTagged, TotalSize, TotalBodies, IndexOf, NoRoom, FindRun,
      FindBlock, Live, BlockAt;
    var a := HeaderOf(h.mem, p);
    var m := HeapModel.Malloc(h, size, grant);
    MallocKeeps(h, size, grant);
    NewBlockLive(h, size, grant);
    NewBlockIsNew(h, size, grant, a);
    MallocFrame(h, size, grant, a);
    var a' := HeaderOf(m.heap.mem, m.ptr);
    LiveBlockFits(m.heap, a);
    LiveBlockFits(m.heap, a');
    LiveBlocksApart(m.heap.runs, a, a');
  }

  // After the copy the old pointer still leads to its live block.
  lemma MoveLive(h: Heap, p: nat, size: nat, grant: nat, n: nat)
    requires Request(h, size, grant) && Owned(h, p) && (HeapModel.Malloc(h, size, grant).ptr != 0 || n == 0)
    requires n == BlockAt(h.runs, HeaderOf(h.mem, p)).req < size
    ensures var c := Copied(h, p, size, grant, n);
            && |c.mem| == ADDRESS_SPACE && Valid(c)
            && HeaderOf(c.mem, p) == HeaderOf(h.mem, p)
            && Live(c.runs, HeaderOf(c.mem, p))
  {
    hide HeapModel.Malloc, GoodRuns, NoneEmpty, AllTagged, TotalSize, TotalBodies, IndexOf, NoRoom, FindRun,
      FindBlock, Live, BlockAt, CopyBytes;
    var a := HeaderOf(h.mem, p);
    var m := HeapModel.Malloc(h, size, grant);
    MallocKeeps(h, size, grant);
    if m.ptr != 0 {
      CopiedHeader(h, p, size, grant, n);
      CopiedKeeps(h, p, size, grant, n);
      CopiedFrame(h, p, size, grant, n, a);
    } else {
      CopyNone(h.mem, 0, p);
    }
  }

  // Joining the neighbours of run i forgets what its own header says.
  lemma JoinedIgnores(majors: map<nat, Major>, rs: seq<Run>, i: nat, r: Run)
    requires GoodRuns(rs) && i < |rs|
    ensures Joined(WithMajor(majors, rs, i, r), rs, i) == Joined(majors, rs, i)
  {
    hide GoodRuns, MajorOf;
    if i > 0 { BaseDiffers(rs, i - 1, i); }
    if i + 1 < |rs| { BaseDiffers(rs, i, i + 1); }
  }

  lemma DiscardedLinks(rs: seq<Run>, i: nat)
    requires i < |rs|
    ensures MajorOf(rs, i).prev == (if i == 0 then 0 else rs[i - 1].base)
    ensures MajorOf(rs, i).next == (if i + 1 == |rs| then 0 else rs[i + 1].base)
    ensures MajorOf(rs, i).size == rs[i].Size()
  {
  }

  function Before(r: Run, k: nat): nat
    requires k <= |r.blocks|
  {
    if k == 0 then 0 else r.blocks[k - 1].addr
  }

  function After(r: Run, k: nat): nat
    requires k <= |r.blocks|
  {
    if k == |r.blocks| then 0 else r.blocks[k].addr
  }

  lemma StitchedMinors(minors: map<nat, Minor>, runs: seq<Run>, i: nat, k: nat, b: Block)
    requires MinorsMatch(minors, runs) && GoodRuns(runs) && i < |runs| && k <= |runs[i].blocks|
    requires GoodRuns(runs[i := InsertBlock(runs[i], k, b)])
    ensures var r := runs[i];
            StitchMinors(minors, b.addr, Before(r, k), After(r, k),
                         Minor(Before(r, k), After(r, k), r.base, MAGIC, b.size, b.req))
            == Linked(minors, InsertBlock(r, k, b), k)
    ensures Before(runs[i], k) != 0 ==> Before(runs[i], k) in minors
    ensures After(runs[i], k) != 0 ==> After(runs[i], k) in minors
    ensures (Before(runs[i], k) == 0 <==> k == 0) && (After(runs[i], k) == 0 <==> k == |runs[i].blocks|)
  {
    hide GoodRuns, Usage, MinorOf;
    var r := runs[i];
    var r' := InsertBlock(r, k, b);
    var runs' := runs[i := r'];
    InsertedHeaders(runs, i, k, b);
    NotNull(runs, i);
    if k > 0 { AddrDiffers(runs', i, k, i, k - 1); }
    if k < |r.blocks| { AddrDiffers(runs', i, k, i, k + 1); }
    if k > 0 && k < |r.blocks| { AddrDiffers(runs', i, k - 1, i, k + 1); }
    assert k > 0 ==> r.blocks[k - 1].addr in minors;
    assert k < |r.blocks| ==> r.blocks[k].addr in minors;
  }

  lemma StitchedMajors(majors: map<nat, Major>, runs: seq<Run>, i: nat, k: nat, b: Block)
    requires MajorsMatch(majors, runs) && GoodRuns(runs) && i < |runs| && k <= |runs[i].blocks|
    ensures runs[i].base in majors
    ensures StitchMajors(majors, runs[i].base, b.addr, Before(runs[i], k), b.size + MINOR_HEADER)
            == majors[runs[i].base := MajorOf(runs[i := InsertBlock(runs[i], k, b)], i)]
  {
    hide GoodRuns, Usage, MajorOf;
    InsertedHeaders(runs, i, k, b);
    NotNull(runs, i);
  }

  lemma InstallRepresents(majors: map<nat, Major>, minors: map<nat, Minor>, root: nat, runs: seq<Run>,
                          i: nat, k: nat, b: Block)
    requires Represents(majors, minors, root, runs) && GoodRuns(runs) && i < |runs| && k <= |runs[i].blocks|
    requires GoodRuns(runs[i := InsertBlock(runs[i], k, b)])
    ensures var r := runs[i];
            && r.base in majors
            && (Before(r, k) != 0 ==> Before(r, k) in minors) && (After(r, k) != 0 ==> After(r, k) in minors)
            && Represents(
                 StitchMajors(majors, r.base, b.addr, Before(r, k), b.size + MINOR_HEADER),
                 StitchMinors(minors, b.addr, Before(r, k), After(r, k),
                              Minor(Before(r, k), After(r, k), r.base, MAGIC, b.size, b.req)),
                 root, runs[i := InsertBlock(r, k, b)])
  {
    hide GoodRuns, Usage, MajorOf, MinorsMatch, MajorsMatch, MagicMatch, StitchMajors, StitchMinors, Linked, Before,
      After;
    StitchedMajors(majors, runs, i, k, b);
    StitchedMinors(minors, runs, i, k, b);
    RepresentsInsert(majors, minors, root, runs, i, k, b);
  }

  lemma MajorFacts(majors: map<nat, Major>, runs: seq<Run>, i: nat)
    requires MajorsMatch(majors, runs) && i < |runs|
    ensures var r := runs[i];
            && r.base in majors && majors[r.base].first == FirstOf(r.blocks)
            && majors[r.base].size == r.Size() && majors[r.base].usage == Usage(r) && majors[r.base].pages == r.pages
  {
    assert majors[runs[i].base] == MajorOf(runs, i);
  }

  lemma RootFacts(majors: map<nat, Major>, minors: map<nat, Minor>, root: nat, runs: seq<Run>)
    requires Represents(majors, minors, root, runs) && GoodRuns(runs)
    ensures (root == 0 <==> runs == []) && (runs != [] ==> root == runs[0].base)
  {
  }

  // What malloc reads in the header of a major on its walk.
  lemma MajorView(majors: map<nat, Major>, minors: map<nat, Minor>, root: nat, runs: seq<Run>, i: nat)
    requires Represents(majors, minors, root, runs) && GoodRuns(runs) && i < |runs|
    ensures var r := runs[i];
            && r.base != 0 && r.base in majors
            && majors[r.base].size - majors[r.base].usage == FreeSpace(r) >= 0
            && majors[r.base].next == (if i + 1 == |runs| then 0 else runs[i + 1].base)
            && (i + 1 < |runs| ==> runs[i + 1].base != 0)
  {
    hide MinorsMatch, MagicMatch, Usage, GoodRun;
    assert majors[runs[i].base] == MajorOf(runs, i);
    NotNull(runs, i);
    if i + 1 < |runs| { NotNull(runs, i + 1); }
    GoodRunAt(runs, i);
    NoGapExceedsFree(runs[i], 0);
  }

  lemma MinorFacts(minors: map<nat, Minor>, runs: seq<Run>, i: nat, k: nat)
    requires MinorsMatch(minors, runs) && GoodRuns(runs) && i < |runs| && k < |runs[i].blocks|
    ensures var r := runs[i]; var b := r.blocks[k];
            && b.addr != 0 && b.addr in minors && minors[b.addr] == MinorOf(r, k)
            && minors[b.addr].next == After(r, k + 1)
            && (k + 1 < |r.blocks| ==> r.blocks[k + 1].addr != 0)
  {
    NotNull(runs, i);
  }

  // Gap k + 1 measured from the header of block k, as CASE 4 does.
  lemma GapBehind(r: Run, k: nat)
    requires GoodRun(r) && k < |r.blocks|
    ensures var b := r.blocks[k];
            && Before(r, k + 1) == b.addr
            && GapStart(r, k + 1) == b.addr + MINOR_HEADER + b.size
            && (if k + 1 == |r.blocks| then
                  After(r, k + 1) == 0 && Gap(r, k + 1) == r.base + r.Size() - b.addr - MINOR_HEADER - b.size
                else
                  After(r, k + 1) == r.blocks[k + 1].addr
                  && Gap(r, k + 1) == r.blocks[k + 1].addr - b.addr - MINOR_HEADER - b.size)
            && Gap(r, k + 1) >= 0
  {
    NoGapExceedsFree(r, k + 1);
  }

  lemma ExtendedMajors(majors: map<nat, Major>, runs: seq<Run>, r: Run)
    requires MajorsMatch(majors, runs) && r.blocks == [] && GoodRuns(runs + [r]) && runs != []
    ensures var last := runs[|runs| - 1].base;
            && last in majors && last != r.base
            && majors[last].next == 0
            && var m0 := majors[r.base := Major(0, 0, r.pages, r.Size(), MAJOR_HEADER, 0)];
               var m1 := m0[last := m0[last].(next := r.base)];
               m1[r.base := m1[r.base].(prev := last)] == Appended(majors, runs, r)
  {
    hide GoodRuns, Usage, MajorOf;
    AppendedHeaders(runs, r);
    BaseDiffers(runs + [r], |runs| - 1, |runs|);
    assert majors[runs[|runs| - 1].base] == MajorOf(runs, |runs| - 1);
    LastMajor(runs);
  }

  lemma LastMajor(runs: seq<Run>)
    requires runs != []
    ensures MajorOf(runs, |runs| - 1).next == 0
  {
  }

  // One round of the walk.
  lemma WalkStep(runs: seq<Run>, i: nat, started: bool, bet: nat, best: int, need: nat)
    requires i < |runs|
    ensures var free := FreeSpace(runs[i]); var g := RoomIn(runs[i], need);
            var bet' := if best < free then runs[i].base else bet;
            var best' := if best < free then free else best;
            Walk(runs, i, started, bet, best, need) ==
            if g <= |runs[i].blocks| then Found(i, g, bet')
            else if i + 1 < |runs| then Walk(runs, i + 1, started, bet', best', need)
            else if started then Walk(runs, 0, false, bet', best', need)
            else Exhausted(bet', best', free < need)
    ensures FreeSpace(runs[i]) < need ==> RoomIn(runs[i], need) > |runs[i].blocks|
  {
  }

  // malloc by what its walk comes to.
  lemma MallocCases(h: Heap, req: nat, grant: nat)
    ensures var o := Search(h, BodySize(req) + MINOR_HEADER);
            HeapModel.Malloc(h, req, grant) ==
            if o.Found? then Place(h.(bet := o.hint), o.run, o.gap, BodySize(req), req)
            else if grant == 0 then Result(h.(bet := o.hint, warnings := h.warnings + 1), 0)
            else PlaceFresh(h, FreshHint(o, req, grant), req, grant)
  {
  }

  // The hint, if there is one, names a run; the walk starts there if the run
  // has more than enough free space.
  lemma SearchStart(h: Heap, need: nat)
    requires Valid(h)
    ensures h.runs == [] ==> h.bet == 0 && Search(h, need) == Exhausted(0, 0, false)
    ensures h.bet != 0 ==> IndexOf(h.runs, h.bet) < |h.runs|
    ensures h.runs != [] ==>
              var best := if h.bet != 0 then FreeSpace(h.runs[IndexOf(h.runs, h.bet)]) else 0;
              var started := h.bet != 0 && best > need;
              Search(h, need) == Walk(h.runs, if started then IndexOf(h.runs, h.bet) else 0, started, h.bet, best, need)
  {
  }

  lemma HintKeeps(h: Heap, i: nat)
    requires Valid(h) && i < |h.runs|
    ensures Valid(h.(bet := h.runs[i].base))
  {
    IndexOfUnique(h.runs, i);
  }

  ghost predicate NoneEmptyBut(runs: seq<Run>, i: nat) {
    forall j :: 0 <= j < |runs| && j != i ==> runs[j].blocks != []
  }

  lemma ValidIsSound(h: Heap, i: nat)
    requires Valid(h)
    ensures Sound(h) && GoodRuns(h.runs) && NoneEmptyBut(h.runs, i)
  {
  }

  // What a round of the walk needs to know about the run it is at.
  lemma Round(h: Heap, majors: map<nat, Major>, minors: map<nat, Minor>, root: nat, i: nat)
    requires Valid(h) && Represents(majors, minors, root, h.runs) && i < |h.runs|
    ensures Sound(h) && NoneEmptyBut(h.runs, i)
    ensures var hinted := h.(bet := h.runs[i].base); Valid(hinted) && Sound(hinted)
    ensures var r := h.runs[i];
            && r.base != 0 && r.base in majors
            && majors[r.base].size - majors[r.base].usage == FreeSpace(r) >= 0
            && majors[r.base].next == (if i + 1 == |h.runs| then 0 else h.runs[i + 1].base)
            && (i + 1 < |h.runs| ==> h.runs[i + 1].base != 0)
  {
    hide Represents, GoodRuns;
    ValidIsSound(h, i);
    MajorView(majors, minors, root, h.runs, i);
    HintKeeps(h, i);
    ValidIsSound(h.(bet := h.runs[i].base), i);
  }

  lemma RoomNeedsFree(r: Run, need: nat)
    ensures FreeSpace(r) < need ==> RoomIn(r, need) > |r.blocks|
  {
  }

  lemma FreshRoom(grant: nat, size: nat)
    ensures var r := Run(grant, PagesFor(size), []);
            FreeSpace(r) >= size + MINOR_HEADER && RoomIn(r, size + MINOR_HEADER) == 0
  {
    FreshRunHasRoom(grant, size);
    EmptyRunRoom(Run(grant, PagesFor(size), []));
  }

  lemma LastInMajors(majors: map<nat, Major>, runs: seq<Run>)
    requires MajorsMatch(majors, runs) && runs != []
    ensures runs[|runs| - 1].base in majors && majors[runs[|runs| - 1].base].next == 0
  {
    assert majors[runs[|runs| - 1].base] == MajorOf(runs, |runs| - 1);
  }

  lemma EmptyRunRoom(r: Run)
    requires r.blocks == []
    ensures Gap(r, 0) == FreeSpace(r)
  {
    assert Used([]) == 0;
  }
}
