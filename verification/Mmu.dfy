// What paging_init sets up, how a region is mapped page by page, and the
// operations themselves, writing tables in place.
module Mmu {
  import opened Arith
  import opened ByteSeqs
  import opened PageEntries
  import opened Wrappers
  import opened PageTables

  // ---------- what paging_init sets up ----------

  function KernelRights(): Rights { Rights(false, true) }

  function Identity(v: Addr): Option<Mapping> {
    if 0x1000 <= v < 0xc0_0000 then Some(Mapping(v - Offset(v), KernelRights())) else None
  }

  function KernelSpace(): Space {
    Space((i: Index) => if i < 3 then Some(KernelRights()) else None,
          (p: nat) => if 1 <= p < 0xc00 then Some(Mapping(p * PAGE, KernelRights())) else None)
  }

  // The kernel entry for page j of the 4 MiB from start on.
  function EntryFor(start: nat, j: Index): nat { CreateEntry(start + j * PAGE, 0, 1) }

  // Four page frames of their own.
  predicate StaticFrames(dir: nat, t0: nat, t1: nat, t2: nat) {
    && Aligned(dir) && Aligned(t0) && Aligned(t1) && Aligned(t2)
    && dir != 0 && t0 != 0 && t1 != 0 && t2 != 0
    && dir != t0 && dir != t1 && dir != t2 && t0 != t1 && t0 != t2 && t1 != t2
  }

  // After the four loops of paging_init.
  ghost predicate Filled(mem: Memory, dir: nat, t0: nat, t1: nat, t2: nat) {
    && (forall i: Index :: mem(dir, i) == NotPresent(CreateEntry(0, 0, 1)))
    && (forall j: Index :: mem(t0, j) == EntryFor(0, j))
    && (forall j: Index :: mem(t1, j) == EntryFor(0x40_0000, j))
    && (forall j: Index :: mem(t2, j) == EntryFor(0x80_0000, j))
  }

  // The four single entries written after them.
  lemma FilledIsInitial(m: Memory, m0: Memory, m1: Memory, m2: Memory, m3: Memory, dir: nat, t0: nat, t1: nat, t2: nat)
    requires StaticFrames(dir, t0, t1, t2) && Filled(m, dir, t0, t1, t2)
    requires m0 == Put(m, t0, 0, 0)
    requires m1 == Put(m0, dir, 0, CreateEntry(t0, 0, 1))
    requires m2 == Put(m1, dir, 1, CreateEntry(t1, 0, 1))
    requires m3 == Put(m2, dir, 2, CreateEntry(t2, 0, 1))
    ensures Initial(m3, dir, t0, t1, t2)
  {
    hide CreateEntry, NotPresent, EntryFor, Aligned;
  }

  ghost predicate Initial(mem: Memory, dir: nat, t0: nat, t1: nat, t2: nat) {
    && mem(dir, 0) == CreateEntry(t0, 0, 1) && mem(dir, 1) == CreateEntry(t1, 0, 1)
    && mem(dir, 2) == CreateEntry(t2, 0, 1)
    && (forall i: Index :: 3 <= i ==> mem(dir, i) == NotPresent(CreateEntry(0, 0, 1)))
    && mem(t0, 0) == 0
    && (forall j: Index :: 0 < j ==> mem(t0, j) == EntryFor(0, j))
    && (forall j: Index :: mem(t1, j) == EntryFor(0x40_0000, j))
    && (forall j: Index :: mem(t2, j) == EntryFor(0x80_0000, j))
  }

  lemma InitialEntries(mem: Memory, dir: nat, t0: nat, t1: nat, t2: nat)
    requires StaticFrames(dir, t0, t1, t2) && Initial(mem, dir, t0, t1, t2)
    ensures forall i: Index ::
              TableAt(mem, dir, i) == if i == 0 then t0 else if i == 1 then t1 else if i == 2 then t2 else 0
    ensures forall i: Index :: IsPresent(mem(dir, i)) <==> i < 3
    ensures forall i: Index :: i < 3 ==> RightsOf(mem(dir, i)) == KernelRights()
  {
    hide CreateEntry, NotPresent, ExtractTable, RightsOf, IsPresent;
    EntryBits(t0, 0, 1);
    EntryBits(t1, 0, 1);
    EntryBits(t2, 0, 1);
    EntryBits(0, 0, 1);
    ClearedEntry(CreateEntry(0, 0, 1));
  }

  lemma PageEntry(start: nat, j: Index)
    requires start % 0x40_0000 == 0
    ensures var e := EntryFor(start, j);
            IsPresent(e) && ExtractTable(e) == start + j * PAGE && RightsOf(e) == KernelRights()
  {
    hide CreateEntry, IsPresent, RightsOf, ExtractTable;
    var q := start / 0x40_0000;
    assert start == PAGE * (ENTRIES * q);
    assert start + j * PAGE == PAGE * (ENTRIES * q + j);
    EntryBits(start + j * PAGE, 0, 1);
  }

  lemma AddressParts(v: Addr)
    ensures v - Offset(v) == 0x40_0000 * PdIndex(v) + PtIndex(v) * PAGE
    ensures PageNo(v) * PAGE == v - Offset(v)
  {
    PageParts(v);
  }

  lemma InitialWalk(mem: Memory, dir: nat, t0: nat, t1: nat, t2: nat, v: Addr)
    requires StaticFrames(dir, t0, t1, t2) && Initial(mem, dir, t0, t1, t2)
    ensures Walk(mem, dir, v) == Identity(v)
  {
    hide CreateEntry, NotPresent, ExtractTable, RightsOf, IsPresent, PdIndex, PtIndex, EntryFor;
    InitialEntries(mem, dir, t0, t1, t2);
    AddressParts(v);
    PageEntry(0, PtIndex(v));
    PageEntry(0x40_0000, PtIndex(v));
    PageEntry(0x80_0000, PtIndex(v));
    assert !IsPresent(0) by { ClearedZero(); }
    assert TableAt(mem, dir, PdIndex(v)) == ExtractTable(mem(dir, PdIndex(v)));
  }

  lemma ClearedZero()
    ensures !IsPresent(0)
  {
  }

  lemma KernelLook(v: Addr)
    ensures Look(KernelSpace(), v) == Identity(v)
  {
    AddressParts(v);
  }

  // The tables paging_init leaves translate each address of [4 KiB, 12 MiB)
  // to itself, for the kernel only, and nothing else.
  lemma InitialTables(mem: Memory, dir: nat, t0: nat, t1: nat, t2: nat)
    requires StaticFrames(dir, t0, t1, t2) && Initial(mem, dir, t0, t1, t2)
    ensures Wf(mem, {dir}, {t0, t1, t2}) && Shows(mem, dir, KernelSpace())
    ensures forall v: Addr :: Walk(mem, dir, v) == Identity(v)
  {
    hide CreateEntry, NotPresent, TableAt, RightsOf, IsPresent, PdIndex, PtIndex, EntryFor, Walk, Look, Identity;
    InitialEntries(mem, dir, t0, t1, t2);
    forall v: Addr ensures Walk(mem, dir, v) == Identity(v) && Look(KernelSpace(), v) == Identity(v) {
      InitialWalk(mem, dir, t0, t1, t2, v);
      KernelLook(v);
    }
    forall v: Addr | KernelSpace().pages(PageNo(v)).Some? ensures KernelSpace().slots(PdIndex(v)).Some? {
      AddressParts(v);
    }
  }

  // ---------- mapping a region page by page ----------

  // Under the tables paging_init leaves, unmapping any address above the three
  // slots in use is such a fault: the word it would write has no translation.
  lemma FirstUnmapFaults(mem: Memory, dir: nat, t0: nat, t1: nat, t2: nat, v: Addr)
    requires StaticFrames(dir, t0, t1, t2) && Initial(mem, dir, t0, t1, t2)
    ensures Unmap(mem, dir, v) == Fault <==> v >= 0xc0_0000
    ensures Walk(mem, dir, 4 * PtIndex(v)) == None
  {
    hide Initial, Walk, Unmap, TableAt, Wf;
    InitialEntries(mem, dir, t0, t1, t2);
    InitialTables(mem, dir, t0, t1, t2);
    UnmapFaults(mem, {dir}, {t0, t1, t2}, dir, v);
    assert TableAt(mem, dir, PdIndex(v)) == 0 <==> PdIndex(v) >= 3;
  }

  // DIV_ROUND_UP in 32 bits.
  function RegionPages(size: Addr): nat { Wrap(size + PAGE - 1) / PAGE }

  // The 32-bit sum counts enough pages exactly when it does not wrap, or when
  // there is nothing to count; when it wraps it counts none.
  lemma PagesCover(size: Addr)
    ensures (forall k: nat :: k < size ==> k / PAGE < RegionPages(size)) <==> size + PAGE - 1 < SPACE
    ensures size + PAGE - 1 >= SPACE ==> RegionPages(size) == 0
  {
    if size + PAGE - 1 >= SPACE {
      assert 0 / PAGE == 0;
    }
  }

  // A region of one byte more than the address space less a page gets no page.
  lemma LargeRegionUncovered()
    ensures RegionPages(0xffff_f001) == 0
  {
  }

  // v translates to the physical byte pa.
  ghost predicate Reaches(mem: Memory, dir: nat, v: Addr, pa: nat) {
    var w := Walk(mem, dir, v);
    w.Some? && w.value.frame + Offset(v) == pa
  }

  // The i-th page of a region at an aligned base holds byte k exactly if
  // k / 4096 is i, also where the addresses wrap.
  lemma RegionPage(base: Addr, k: nat, i: nat)
    requires Aligned(base) && k < SPACE && i < SPACE / PAGE
    ensures PageNo(Wrap(base + k)) == PageNo(Wrap(base + i * PAGE)) <==> k / PAGE == i
    ensures Offset(Wrap(base + k)) == Offset(k) && Offset(Wrap(base + i * PAGE)) == 0
  {
    hide PageNo, Wrap;
    RegionPageNo(base, k / PAGE, k % PAGE);
    RegionPageNo(base, i, 0);
    SamePageNo(base / PAGE, k / PAGE, i);
  }

  lemma RegionPageNo(base: Addr, p: nat, o: nat)
    requires Aligned(base) && p < SPACE / PAGE && o < PAGE
    ensures var a := Wrap(base + (PAGE * p + o)); PageNo(a) == (base / PAGE + p) % (SPACE / PAGE) && Offset(a) == o
  {
    var b := base / PAGE;
    assert base + (PAGE * p + o) == PAGE * (b + p) + o;
    WrapPage(b + p, o);
  }

  lemma SamePageNo(b: nat, p: nat, i: nat)
    requires b < SPACE / PAGE && p < SPACE / PAGE && i < SPACE / PAGE
    ensures (b + p) % (SPACE / PAGE) == (b + i) % (SPACE / PAGE) <==> p == i
  {
  }

  lemma WrapPage(p: nat, o: nat)
    requires o < PAGE && p < 2 * (SPACE / PAGE)
    ensures var a := Wrap(PAGE * p + o); a / PAGE == p % (SPACE / PAGE) && a % PAGE == o
  {
    if p < SPACE / PAGE {
      assert PAGE * p + o < SPACE;
    } else {
      var p' := p - SPACE / PAGE;
      assert PAGE * p + o == SPACE + (PAGE * p' + o);
      assert PAGE * p' + o < SPACE;
    }
  }

  // Byte k of the region at virt is translated to the frame of byte k at phys.
  ghost predicate Framed(mem: Memory, dir: nat, virt: Addr, phys: Addr, k: nat) {
    var w := Walk(mem, dir, Wrap(virt + k));
    w.Some? && w.value.frame == Wrap(phys + k / PAGE * PAGE)
  }

  // The first n pages of the region are mapped.
  ghost predicate RegionMapped(mem: Memory, dir: nat, virt: Addr, phys: Addr, n: nat) {
    forall k: nat :: k < n * PAGE ==> Framed(mem, dir, virt, phys, k)
  }

  // v lies on one of the first n pages of the region.
  ghost predicate InRegion(virt: Addr, n: nat, v: Addr) {
    exists i: nat :: i < n && PageNo(v) == PageNo(Wrap(virt + i * PAGE))
  }

  lemma WrapOffset(base: Addr, i: nat)
    ensures Wrap(base + i * PAGE) % PAGE == base % PAGE
  {
    var n, o := SPACE / PAGE, base % PAGE;
    var p := base / PAGE + i;
    var r := p % n;
    assert base + i * PAGE == PAGE * p + o && p == n * (p / n) + r;
    assert PAGE * p + o == SPACE * (p / n) + (PAGE * r + o);
    assert PAGE * r + o < SPACE;
    Divides(base + i * PAGE, SPACE, p / n, PAGE * r + o);
    Divides(PAGE * r + o, PAGE, r, o);
  }

  lemma WrapAligned(base: Addr, i: nat)
    requires Aligned(base)
    ensures Aligned(Wrap(base + i * PAGE))
  {
    WrapOffset(base, i);
  }

  lemma WrapAlignedBack(base: Addr, i: nat)
    ensures Aligned(Wrap(base + i * PAGE)) <==> Aligned(base)
  {
    WrapOffset(base, i);
  }

  lemma NothingMapped(mem: Memory, dir: nat, virt: Addr, phys: Addr)
    ensures RegionMapped(mem, dir, virt, phys, 0)
  {
  }

  // The start of an address's page.
  function Base(virt: Addr): Addr { virt - virt % PAGE }

  lemma BasePage(virt: Addr, i: nat)
    requires i < SPACE / PAGE
    ensures PageNo(Wrap(virt + i * PAGE)) == PageNo(Wrap(Base(virt) + i * PAGE)) && Aligned(Base(virt))
  {
    var b, o := virt / PAGE, virt % PAGE;
    assert virt == PAGE * b + o && Base(virt) == PAGE * b;
    assert virt + i * PAGE == PAGE * (b + i) + o && Base(virt) + i * PAGE == PAGE * (b + i) + 0;
    WrapPage(b + i, o);
    WrapPage(b + i, 0);
  }

  // One more page. A base inside a page counts as the start of that page.
  lemma RegionStep(mem: Memory, dirs: set<nat>, tables: set<nat>, dir: nat, virt: Addr, phys: Addr, user: Flag,
                   rw: Flag, frame: nat, i: nat)
    requires Aligned(phys) && i < SPACE / PAGE
    requires CanMap(mem, dirs, tables, dir, Wrap(virt + i * PAGE), frame)
    requires RegionMapped(mem, dir, Base(virt), phys, i)
    ensures var m := Mapped(mem, dir, Wrap(phys + i * PAGE), Wrap(virt + i * PAGE), user, rw, frame);
            RegionMapped(m, dir, Base(virt), phys, i + 1)
  {
    hide CanMap, Mapped, Walk, PageNo, Aligned, FlagRights, RightsOf, IsPresent, PdIndex, Wrap, Offset;
    var m := Mapped(mem, dir, Wrap(phys + i * PAGE), Wrap(virt + i * PAGE), user, rw, frame);
    WrapAligned(phys, i);
    CanMapDir(mem, dirs, tables, dir, Wrap(virt + i * PAGE), frame);
    var base := Base(virt);
    BasePage(virt, i);
    forall k: nat | k < (i + 1) * PAGE ensures Framed(m, dir, base, phys, k) {
      RegionPage(base, k, i);
      MappedWalk(mem, dirs, tables, dir, Wrap(phys + i * PAGE), Wrap(virt + i * PAGE), user, rw, frame, dir,
                 Wrap(base + k));
      if k / PAGE != i { assert Framed(mem, dir, base, phys, k); }
    }
  }

  // Every address off the region keeps its translation.
  lemma RegionOthers(mem: Memory, dirs: set<nat>, tables: set<nat>, dir: nat, virt: Addr, phys: Addr, user: Flag,
                     rw: Flag, frame: nat, i: nat, n: nat, d: nat, v: Addr)
    requires Aligned(phys) && i < n && d in dirs && (d != dir || !InRegion(virt, n, v))
    requires CanMap(mem, dirs, tables, dir, Wrap(virt + i * PAGE), frame)
    ensures var m := Mapped(mem, dir, Wrap(phys + i * PAGE), Wrap(virt + i * PAGE), user, rw, frame);
            Walk(m, d, v) == Walk(mem, d, v)
  {
    hide CanMap, Mapped, Walk, PageNo, Aligned, FlagRights, RightsOf, IsPresent, PdIndex, Wrap;
    WrapAligned(phys, i);
    MappedWalk(mem, dirs, tables, dir, Wrap(phys + i * PAGE), Wrap(virt + i * PAGE), user, rw, frame, d, v);
  }

  // The rights v has to have: those of this call, and those its directory
  // entry had where one was there in mem0.
  function DueRights(mem0: Memory, dir: nat, v: Addr, r: Rights): Rights {
    var pde := mem0(dir, PdIndex(v));
    if IsPresent(pde) then Both(RightsOf(pde), r) else r
  }

  ghost predicate HasRights(mem0: Memory, mem: Memory, dir: nat, v: Addr, r: Rights) {
    var w := Walk(mem, dir, v);
    w.Some? && w.value.rights == DueRights(mem0, dir, v, r)
  }

  // v is mapped for the kernel, or for users with rw.
  ghost predicate KernelPage(mem0: Memory, mem: Memory, dir: nat, v: Addr) {
    var (pde, w) := (mem0(dir, PdIndex(v)), Walk(mem, dir, v));
    w.Some? && !w.value.rights.user && (w.value.rights.write <==> (IsPresent(pde) ==> RightsOf(pde).write))
  }

  ghost predicate UserPage(mem0: Memory, mem: Memory, dir: nat, v: Addr, rw: Flag) {
    var (pde, w) := (mem0(dir, PdIndex(v)), Walk(mem, dir, v));
    && w.Some?
    && (w.value.rights.user <==> (IsPresent(pde) ==> RightsOf(pde).user))
    && (w.value.rights.write <==> rw % 2 == 1 && (IsPresent(pde) ==> RightsOf(pde).write))
  }

  // The first n pages of the region have the rights due to them.
  ghost predicate RegionRights(mem0: Memory, mem: Memory, dir: nat, virt: Addr, n: nat, r: Rights) {
    forall v: Addr :: InRegion(virt, n, v) ==> HasRights(mem0, mem, dir, v, r)
  }

  // Directory entries that were there keep their rights; the others have r.
  ghost predicate SlotRights(mem0: Memory, mem: Memory, dir: nat, r: Rights) {
    forall i: Index ::
      if IsPresent(mem0(dir, i)) then IsPresent(mem(dir, i)) && RightsOf(mem(dir, i)) == RightsOf(mem0(dir, i))
      else IsPresent(mem(dir, i)) ==> RightsOf(mem(dir, i)) == r
  }

  lemma NoRightsYet(mem: Memory, dir: nat, virt: Addr, r: Rights)
    ensures RegionRights(mem, mem, dir, virt, 0, r) && SlotRights(mem, mem, dir, r)
  {
  }

  lemma SlotStep(mem0: Memory, mem: Memory, dirs: set<nat>, tables: set<nat>, dir: nat, phys: Addr, virt: Addr,
                 user: Flag, rw: Flag, frame: nat)
    requires CanMap(mem, dirs, tables, dir, virt, frame) && SlotRights(mem0, mem, dir, FlagRights(user, rw))
    ensures SlotRights(mem0, Mapped(mem, dir, phys, virt, user, rw, frame), dir, FlagRights(user, rw))
  {
    hide CanMap, Mapped, FlagRights, RightsOf, IsPresent, PdIndex;
    CanMapDir(mem, dirs, tables, dir, virt, frame);
    forall i: Index { MappedSlot(mem, dirs, tables, dir, phys, virt, user, rw, frame, dir, i); }
  }

  // One more page with the rights due to it.
  lemma RightsStep(mem0: Memory, mem: Memory, dirs: set<nat>, tables: set<nat>, dir: nat, virt: Addr, phys: Addr,
                   user: Flag, rw: Flag, frame: nat, i: nat)
    requires Aligned(phys) && CanMap(mem, dirs, tables, dir, Wrap(virt + i * PAGE), frame)
    requires SlotRights(mem0, mem, dir, FlagRights(user, rw))
    requires RegionRights(mem0, mem, dir, virt, i, FlagRights(user, rw))
    ensures var m := Mapped(mem, dir, Wrap(phys + i * PAGE), Wrap(virt + i * PAGE), user, rw, frame);
            RegionRights(mem0, m, dir, virt, i + 1, FlagRights(user, rw))
  {
    hide CanMap, Mapped, Walk, PageNo, Aligned, FlagRights, RightsOf, IsPresent, PdIndex, Wrap;
    var m := Mapped(mem, dir, Wrap(phys + i * PAGE), Wrap(virt + i * PAGE), user, rw, frame);
    WrapAligned(phys, i);
    CanMapDir(mem, dirs, tables, dir, Wrap(virt + i * PAGE), frame);
    forall v: Addr | InRegion(virt, i + 1, v) ensures HasRights(mem0, m, dir, v, FlagRights(user, rw)) {
      MappedWalk(mem, dirs, tables, dir, Wrap(phys + i * PAGE), Wrap(virt + i * PAGE), user, rw, frame, dir, v);
      IndicesArePage(v, Wrap(virt + i * PAGE));
      if PageNo(v) != PageNo(Wrap(virt + i * PAGE)) { assert InRegion(virt, i, v); }
    }
  }

  lemma CanMapDir(mem: Memory, dirs: set<nat>, tables: set<nat>, dir: nat, virt: Addr, frame: nat)
    requires CanMap(mem, dirs, tables, dir, virt, frame)
    ensures dir in dirs
  {
  }

  // A mapped region translates every byte virt + k to phys + k.
  lemma RegionReaches(mem: Memory, dir: nat, virt: Addr, phys: Addr, n: nat, k: nat)
    requires Aligned(virt) && Aligned(phys) && RegionMapped(mem, dir, virt, phys, n) && n <= SPACE / PAGE
    requires k < n * PAGE
    ensures Reaches(mem, dir, Wrap(virt + k), Wrap(phys + k))
  {
    hide Walk;
    assert Framed(mem, dir, virt, phys, k);
    RegionPage(virt, k, k / PAGE);
    WrapSplit(phys, k);
  }

  // After mapping size bytes, each of them is translated, byte for byte, also
  // across the borders of directory slots.
  lemma RegionBytes(mem: Memory, dir: nat, virt: Addr, phys: Addr, size: Addr, k: nat)
    requires Aligned(virt) && Aligned(phys) && RegionMapped(mem, dir, virt, phys, RegionPages(size))
    requires k < size && size + PAGE - 1 < SPACE
    ensures Reaches(mem, dir, Wrap(virt + k), Wrap(phys + k))
  {
    hide RegionMapped, Reaches;
    RegionReaches(mem, dir, virt, phys, RegionPages(size), k);
  }

  // From a base inside a page the region is mapped as from the start of the
  // page: byte k goes to the offset of the base behind phys + k, as far as the
  // pages reach.
  lemma RegionFromInside(mem: Memory, dir: nat, virt: Addr, phys: Addr, n: nat, k: nat)
    requires Aligned(phys) && RegionMapped(mem, dir, Base(virt), phys, n) && n <= SPACE / PAGE
    requires Offset(virt) + k < n * PAGE
    ensures Reaches(mem, dir, Wrap(virt + k), Wrap(phys + Offset(virt) + k))
  {
    hide RegionMapped, Reaches, Wrap;
    BasePage(virt, 0);
    RegionReaches(mem, dir, Base(virt), phys, n, Offset(virt) + k);
    assert Base(virt) + (Offset(virt) + k) == virt + k;
  }

  lemma WrapSplit(base: Addr, k: nat)
    requires Aligned(base) && k < SPACE
    ensures Wrap(base + k) == Wrap(base + k / PAGE * PAGE) + k % PAGE
  {
    var b, p, o := base / PAGE, k / PAGE, k % PAGE;
    assert base == PAGE * b && k == PAGE * p + o;
    WrapPage(b + p, o);
    WrapPage(b + p, 0);
  }

  // ---------- the memory management unit's tables ----------

  class Tables {
    var mem: Memory
    // The page directories, the frames kept for page tables, and what each
    // directory means.
    ghost var dirs: set<nat>
    ghost var tables: set<nat>
    ghost var spaces: nat -> Space

    ghost predicate Valid()
      reads this
    {
      Wf(mem, dirs, tables) && forall d: nat :: d in dirs ==> Shows(mem, d, spaces(d))
    }

    // frame is what the physical page allocator would hand out.
    method VirtmemMap(pageDir: nat, phys: nat, virt: Addr, user: Flag, rw: Flag, frame: nat)
      requires Valid() && pageDir in dirs
      requires Aligned(phys) && !IsPresent(mem(pageDir, PdIndex(virt))) ==> FreshFrame(dirs, tables, frame)
      modifies this`mem, this`tables, this`spaces
      ensures Valid()
      ensures !Aligned(phys) ==> mem == old(mem) && spaces == old(spaces) && tables == old(tables)
      ensures Aligned(phys) ==>
                && mem == Mapped(old(mem), pageDir, phys, virt, user, rw, frame)
                && tables == TablesAfter(old(mem), old(tables), pageDir, virt, frame)
                && spaces(pageDir) == MapPage(old(spaces)(pageDir), phys, virt, FlagRights(user, rw))
                && (forall d: nat :: d != pageDir ==> spaces(d) == old(spaces)(d))
    {
      hide CreateEntry, ExtractTable, IsPresent, RightsOf, PdIndex, PtIndex, PageNo, MapPage, Walk, Look,
        FlagRights, Wf, Shows;
      if !Aligned(phys) {
        return;
      }
      var pdIndex := PdIndex(virt);
      var ptIndex := PtIndex(virt);
      MappedKeeps(mem, dirs, tables, pageDir, phys, virt, user, rw, frame);
      forall d | d in dirs
        ensures Shows(Mapped(mem, pageDir, phys, virt, user, rw, frame), d,
                      if d == pageDir then MapPage(spaces(d), phys, virt, FlagRights(user, rw)) else spaces(d))
      {
        MappedShows(mem, dirs, tables, pageDir, phys, virt, user, rw, frame, d, spaces(d));
      }
      if !IsPresent(mem(pageDir, pdIndex)) {
        mem := ZeroFrame(mem, frame);
        mem := Put(mem, pageDir, pdIndex, CreateEntry(frame, user, rw));
        tables := tables + {frame};
      }
      var table := ExtractTable(mem(pageDir, pdIndex));
      mem := Put(mem, table, ptIndex, CreateEntry(phys, user, rw));
      ghost var s, was := MapPage(spaces(pageDir), phys, virt, FlagRights(user, rw)), spaces;
      spaces := (d: nat) => if d == pageDir then s else was(d);
      assert mem == Mapped(old(mem), pageDir, phys, virt, user, rw, frame);
    }

    // A slot that never had a table names frame 0. The last write then goes to
    // address 0 and faults, with nothing changed.
    method VirtmemUnmap(pageDir: nat, virt: Addr) returns (fault: bool)
      requires Valid() && pageDir in dirs
      modifies this`mem, this`spaces
      ensures Valid()
      ensures fault <==> TableAt(old(mem), pageDir, PdIndex(virt)) == 0
      ensures fault <==> Unmap(old(mem), pageDir, virt) == Fault
      ensures if fault then mem == old(mem) && spaces == old(spaces)
              else
                && mem == Unmap(old(mem), pageDir, virt).mem
                && spaces(pageDir) == UnmapPage(old(spaces)(pageDir), virt)
                && forall d: nat :: d != pageDir ==> spaces(d) == old(spaces)(d)
    {
      hide CreateEntry, IsPresent, RightsOf, PdIndex, PtIndex, PageNo, ExtractTable, UnmapPage, Walk, Look, Wf, Shows,
        Clear;
      var ptIndex := PtIndex(virt);
      var pdIndex := PdIndex(virt);
      UnmapFaults(mem, dirs, tables, pageDir, virt);
      UnmappedKeeps(mem, dirs, tables, pageDir, virt);
      forall d | d in dirs
        ensures Unmap(mem, pageDir, virt).Done? ==>
                  Shows(Unmap(mem, pageDir, virt).mem, d,
                        if d == pageDir then UnmapPage(spaces(d), virt) else spaces(d))
      {
        UnmappedShows(mem, dirs, tables, pageDir, virt, d, spaces(d));
      }
      if IsPresent(mem(pageDir, pdIndex)) {
        mem := Clear(mem, pageDir, pdIndex);
      }
      var table := ExtractTable(mem(pageDir, pdIndex));
      fault := table == 0;
      if fault {
        return;
      }
      mem := Clear(mem, table, ptIndex);
      ghost var s, was := UnmapPage(spaces(pageDir), virt), spaces;
      spaces := (d: nat) => if d == pageDir then s else was(d);
      assert mem == Unmap(old(mem), pageDir, virt).mem;
    }

    // One of the three filling loops of paging_init.
    method FillIdentity(table: nat, start: nat) returns (pAddr: nat)
      modifies this`mem
      ensures pAddr == start + 0x40_0000
      ensures forall j: Index :: mem(table, j) == EntryFor(start, j)
      ensures forall f: nat, j: Index :: f != table ==> mem(f, j) == old(mem)(f, j)
    {
      hide CreateEntry;
      pAddr := start;
      var size := 0x40_0000;
      var i := 0;
      while size > 0
        invariant 0 <= i <= ENTRIES && pAddr == start + i * PAGE && size == (ENTRIES - i) * PAGE
        invariant forall j: Index :: j < i ==> mem(table, j) == EntryFor(start, j)
        invariant forall f: nat, j: Index :: f != table ==> mem(f, j) == old(mem)(f, j)
      {
        mem := Put(mem, table, i, CreateEntry(pAddr, 0, 1));
        pAddr := pAddr + PAGE;
        size := size - PAGE;
        i := i + 1;
      }
    }

    // The first loop of paging_init: 1024 entries that are not present.
    method ClearDirectory(dir: nat)
      modifies this`mem
      ensures forall j: Index :: mem(dir, j) == NotPresent(CreateEntry(0, 0, 1))
    {
      hide CreateEntry, NotPresent;
      var i := 0;
      while i < ENTRIES
        invariant 0 <= i <= ENTRIES
        invariant forall j: Index :: j < i ==> mem(dir, j) == NotPresent(CreateEntry(0, 0, 1))
      {
        mem := Put(mem, dir, i, NotPresent(CreateEntry(0, 0, 1)));
        i := i + 1;
      }
    }

    // The directory and the three tables are static, page-aligned arrays.
    method PagingInit(dir: nat, t0: nat, t1: nat, t2: nat)
      requires StaticFrames(dir, t0, t1, t2)
      modifies this
      ensures Valid() && dirs == {dir} && tables == {t0, t1, t2}
      ensures forall v: Addr :: Walk(mem, dir, v) == Identity(v)
    {
      hide CreateEntry, NotPresent, EntryFor, Wf, Shows, Walk, Identity, KernelSpace, Aligned, Put, Initial;
      mem := ZeroFrame(mem, dir);
      mem := ZeroFrame(mem, t0);
      mem := ZeroFrame(mem, t1);
      mem := ZeroFrame(mem, t2);
      ClearDirectory(dir);
      var pAddr := FillIdentity(t0, 0);
      pAddr := FillIdentity(t1, pAddr);
      pAddr := FillIdentity(t2, pAddr);
      ghost var m := mem;
      mem := Put(mem, t0, 0, 0);
      ghost var m0 := mem;
      mem := Put(mem, dir, 0, CreateEntry(t0, 0, 1));
      ghost var m1 := mem;
      mem := Put(mem, dir, 1, CreateEntry(t1, 0, 1));
      ghost var m2 := mem;
      mem := Put(mem, dir, 2, CreateEntry(t2, 0, 1));
      FilledIsInitial(m, m0, m1, m2, mem, dir, t0, t1, t2);
      InitialTables(mem, dir, t0, t1, t2);
      dirs, tables, spaces := {dir}, {t0, t1, t2}, (_: nat) => KernelSpace();
    }

    // vmm_map_kernel_region: pages users cannot reach, writable unless their
    // slot was there and is not.
    method MapKernelRegion(kernelDir: nat, phys: Addr, virt: Addr, size: Addr, grants: nat -> nat)
      requires Valid() && kernelDir in dirs
      requires forall i: nat :: i < RegionPages(size) ==> FreshFrame(dirs, tables, grants(i))
      requires forall i: nat, j: nat :: i < j < RegionPages(size) ==> grants(i) != grants(j)
      modifies this`mem, this`tables, this`spaces
      ensures Valid()
      ensures !Aligned(phys) ==> mem == old(mem)
      ensures Aligned(phys) ==>
                && RegionMapped(mem, kernelDir, Base(virt), phys, RegionPages(size))
                && (forall v: Addr :: InRegion(virt, RegionPages(size), v) ==>
                      KernelPage(old(mem), mem, kernelDir, v))
                && (forall d: nat, v: Addr ::
                      d in dirs && (d != kernelDir || !InRegion(virt, RegionPages(size), v)) ==>
                        Walk(mem, d, v) == Walk(old(mem), d, v))
    {
      hide Wf, Shows, Walk, RegionMapped, InRegion, IsPresent, PdIndex, Aligned, Base, RightsOf;
      MapRegion(kernelDir, phys, virt, size, 0, 1, grants);
    }

    // vmm_map_user_region: pages users can reach and write, unless their slot
    // was there and does not allow it, or rw is not set.
    method MapUserRegion(dir: nat, phys: Addr, virt: Addr, size: Addr, rw: Flag, grants: nat -> nat)
      requires Valid() && dir in dirs
      requires forall i: nat :: i < RegionPages(size) ==> FreshFrame(dirs, tables, grants(i))
      requires forall i: nat, j: nat :: i < j < RegionPages(size) ==> grants(i) != grants(j)
      modifies this`mem, this`tables, this`spaces
      ensures Valid()
      ensures !Aligned(phys) ==> mem == old(mem)
      ensures Aligned(phys) ==>
                && RegionMapped(mem, dir, Base(virt), phys, RegionPages(size))
                && (forall v: Addr :: InRegion(virt, RegionPages(size), v) ==> UserPage(old(mem), mem, dir, v, rw))
                && (forall d: nat, v: Addr :: d in dirs && (d != dir || !InRegion(virt, RegionPages(size), v)) ==>
                      Walk(mem, d, v) == Walk(old(mem), d, v))
    {
      hide Wf, Shows, Walk, RegionMapped, InRegion, IsPresent, PdIndex, Aligned, Base, RightsOf;
      MapRegion(dir, phys, virt, size, 1, rw, grants);
    }

    // The loop both have: page after page, each with what the page allocator
    // would grant.
    method MapRegion(dir: nat, phys: Addr, virt: Addr, size: Addr, user: Flag, rw: Flag, grants: nat -> nat)
      requires Valid() && dir in dirs
      requires forall i: nat :: i < RegionPages(size) ==> FreshFrame(dirs, tables, grants(i))
      requires forall i: nat, j: nat :: i < j < RegionPages(size) ==> grants(i) != grants(j)
      modifies this`mem, this`tables, this`spaces
      ensures Valid()
      ensures !Aligned(phys) ==> mem == old(mem)
      ensures Aligned(virt) ==> Base(virt) == virt
      ensures Aligned(phys) ==>
                && RegionMapped(mem, dir, Base(virt), phys, RegionPages(size))
                && (forall d: nat, v: Addr :: d in dirs && (d != dir || !InRegion(virt, RegionPages(size), v)) ==>
                      Walk(mem, d, v) == Walk(old(mem), d, v))
      ensures Aligned(phys) ==>
                RegionRights(old(mem), mem, dir, virt, RegionPages(size), FlagRights(user, rw))
    {
      assert Aligned(virt) ==> Base(virt) == virt;
      hide Wf, Shows, Walk, Mapped, MapPage, FlagRights, RegionMapped, InRegion, Wrap, IsPresent, PageNo, PdIndex,
        Aligned, Base, RightsOf, RegionRights, SlotRights;
      var pages := RegionPages(size);
      var i := 0;
      ghost var r := FlagRights(user, rw);
      NoRightsYet(mem, dir, virt, r);
      assert RegionMapped(mem, dir, Base(virt), phys, 0) by { NothingMapped(mem, dir, Base(virt), phys); }
      while i < pages
        invariant 0 <= i <= pages && Valid()
        invariant forall j: nat :: i <= j < pages ==> FreshFrame(dirs, tables, grants(j))
        invariant !Aligned(phys) ==> mem == old(mem)
        invariant Aligned(phys) ==> RegionMapped(mem, dir, Base(virt), phys, i)
        invariant Aligned(phys) ==>
                    SlotRights(old(mem), mem, dir, r) && RegionRights(old(mem), mem, dir, virt, i, r)
        invariant Aligned(phys) ==>
                    forall d: nat, v: Addr :: d in dirs && (d != dir || !InRegion(virt, pages, v)) ==>
                      Walk(mem, d, v) == Walk(old(mem), d, v)
      {
        ghost var m, t := mem, tables;
        WrapAlignedBack(phys, i);
        VirtmemMap(dir, Wrap(phys + i * PAGE), Wrap(virt + i * PAGE), user, rw, grants(i));
        if Aligned(phys) {
          RegionStep(m, dirs, t, dir, virt, phys, user, rw, grants(i), i);
          SlotStep(old(mem), m, dirs, t, dir, Wrap(phys + i * PAGE), Wrap(virt + i * PAGE), user, rw, grants(i));
          RightsStep(old(mem), m, dirs, t, dir, virt, phys, user, rw, grants(i), i);
          forall d: nat, v: Addr | d in dirs && (d != dir || !InRegion(virt, pages, v))
            ensures Walk(mem, d, v) == Walk(m, d, v)
          {
            RegionOthers(m, dirs, t, dir, virt, phys, user, rw, grants(i), i, pages, d, v);
          }
        }
        i := i + 1;
      }
    }
  }
}
