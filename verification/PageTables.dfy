// Two-level 32-bit paging: the walk the processor makes (Intel SDM, Volume 3A,
// section 4.3), and virtmem_map and virtmem_unmap as changes of memory, proved
// against partial maps from pages to frames.
module PageTables {
  import opened PageEntries
  import opened Wrappers

  // ---------- the walk ----------

  datatype Mapping = Mapping(frame: nat, rights: Rights)

  function Walk(mem: Memory, dir: nat, v: Addr): Option<Mapping> {
    var pde := mem(dir, PdIndex(v));
    var pte := mem(ExtractTable(pde), PtIndex(v));
    if IsPresent(pde) && IsPresent(pte) then Some(Mapping(ExtractTable(pte), Both(RightsOf(pde), RightsOf(pte))))
    else None
  }

  // ---------- the abstract map ----------

  // What an address space means: the rights of each 4 MiB slot in use, and
  // the frame and own rights of each mapped page.
  datatype Space = Space(slots: Index -> Option<Rights>, pages: nat -> Option<Mapping>)

  function Look(s: Space, v: Addr): Option<Mapping> {
    match (s.slots(PdIndex(v)), s.pages(PageNo(v)))
    case (Some(r), Some(m)) => Some(Mapping(m.frame, Both(r, m.rights)))
    case _ => None
  }

  // Mapping one page: a slot not in use starts, and starts empty, with the
  // rights of this call; a slot in use keeps its rights.
  function MapPage(s: Space, phys: nat, virt: Addr, r: Rights): Space {
    var slot := PdIndex(virt);
    var slots := if s.slots(slot).Some? then s.slots else (i: Index) => if i == slot then Some(r) else s.slots(i);
    Space(slots, (p: nat) => if p == PageNo(virt) then Some(Mapping(phys, r)) else s.pages(p))
  }

  // Unmapping one page gives up its whole slot.
  function UnmapPage(s: Space, virt: Addr): Space {
    var slot := PdIndex(virt);
    Space((i: Index) => if i == slot then None else s.slots(i),
          (p: nat) => if SlotOfPage(p) == slot then None else s.pages(p))
  }

  ghost predicate GoodSpace(s: Space) {
    forall v: Addr :: s.pages(PageNo(v)).Some? ==> s.slots(PdIndex(v)).Some?
  }

  // ---------- the invariant ----------

  function TableAt(mem: Memory, dir: nat, i: Index): nat { ExtractTable(mem(dir, i)) }

  // A slot has never been used, or it names a frame kept for tables; it goes
  // on naming it after the slot was given up.
  ghost predicate SlotOk(mem: Memory, tables: set<nat>, dir: nat, i: Index) {
    if TableAt(mem, dir, i) == 0 then !IsPresent(mem(dir, i)) else TableAt(mem, dir, i) in tables
  }

  // Directories and tables are frames of their own, at most one table a slot.
  ghost predicate Wf(mem: Memory, dirs: set<nat>, tables: set<nat>) {
    && dirs !! tables && 0 !in tables && 0 !in dirs
    && (forall f :: f in dirs || f in tables ==> Aligned(f))
    && (forall d, i: Index :: d in dirs ==> SlotOk(mem, tables, d, i))
    && (forall d, i: Index, e, j: Index :: d in dirs && e in dirs && (d, i) != (e, j) && TableAt(mem, d, i) != 0 ==>
          TableAt(mem, d, i) != TableAt(mem, e, j))
  }

  // The tables of dir mean the space s.
  ghost predicate Shows(mem: Memory, dir: nat, s: Space) {
    && GoodSpace(s)
    && (forall i: Index :: s.slots(i) == if IsPresent(mem(dir, i)) then Some(RightsOf(mem(dir, i))) else None)
    && (forall v: Addr :: Walk(mem, dir, v) == Look(s, v))
  }

  // ---------- starting a slot ----------

  ghost predicate FreshFrame(dirs: set<nat>, tables: set<nat>, f: nat) {
    f != 0 && Aligned(f) && f !in dirs && f !in tables
  }

  // Slot i of dir gets the zeroed frame as its table.
  function Start(mem: Memory, dir: nat, i: Index, frame: nat, pde: nat): Memory {
    Put(ZeroFrame(mem, frame), dir, i, pde)
  }

  lemma StartKeeps(mem: Memory, dirs: set<nat>, tables: set<nat>, dir: nat, i: Index, frame: nat, pde: nat)
    requires Wf(mem, dirs, tables) && dir in dirs && FreshFrame(dirs, tables, frame)
    requires IsPresent(pde) && ExtractTable(pde) == frame
    ensures Wf(Start(mem, dir, i, frame, pde), dirs, tables + {frame})
  {
    hide ExtractTable, IsPresent, Aligned;
    var m := Start(mem, dir, i, frame, pde);
    forall d, j: Index | d in dirs ensures SlotOk(m, tables + {frame}, d, j) {
      assert SlotOk(mem, tables, d, j);
    }
    forall d, j: Index, e, k: Index | d in dirs && e in dirs && (d, j) != (e, k) && TableAt(m, d, j) != 0
      ensures TableAt(m, d, j) != TableAt(m, e, k)
    {
      assert SlotOk(mem, tables, d, j) && SlotOk(mem, tables, e, k);
    }
  }

  // Starting a slot that is not present changes no translation.
  lemma StartWalk(mem: Memory, dirs: set<nat>, tables: set<nat>, dir: nat, i: Index, frame: nat, pde: nat,
                  d: nat, v: Addr)
    requires Wf(mem, dirs, tables) && dir in dirs && FreshFrame(dirs, tables, frame)
    requires !IsPresent(mem(dir, i)) && IsPresent(pde) && ExtractTable(pde) == frame && d in dirs
    ensures Walk(Start(mem, dir, i, frame, pde), d, v) == Walk(mem, d, v)
  {
    hide ExtractTable, RightsOf, Aligned, PdIndex, PtIndex;
    assert SlotOk(mem, tables, d, PdIndex(v));
    assert !IsPresent(0);
  }

  // ---------- writing one table entry ----------

  lemma EntryKeeps(mem: Memory, dirs: set<nat>, tables: set<nat>, t: nat, j: Index, e: nat)
    requires Wf(mem, dirs, tables) && t !in dirs
    ensures Wf(Put(mem, t, j, e), dirs, tables)
  {
    hide ExtractTable, IsPresent;
    var m := Put(mem, t, j, e);
    forall d, i: Index | d in dirs ensures SlotOk(m, tables, d, i) {
      assert SlotOk(mem, tables, d, i);
    }
  }

  // An entry written into the table of slot i of dir is seen at exactly one
  // page of exactly one address space.
  lemma EntryWalk(mem: Memory, dirs: set<nat>, tables: set<nat>, dir: nat, virt: Addr, e: nat, d: nat, v: Addr)
    requires Wf(mem, dirs, tables) && dir in dirs && d in dirs && IsPresent(mem(dir, PdIndex(virt)))
    ensures var pde := mem(dir, PdIndex(virt));
            Walk(Put(mem, ExtractTable(pde), PtIndex(virt), e), d, v) ==
            if d == dir && PageNo(v) == PageNo(virt) then
              (if IsPresent(e) then Some(Mapping(ExtractTable(e), Both(RightsOf(pde), RightsOf(e)))) else None)
            else Walk(mem, d, v)
  {
    hide ExtractTable, RightsOf, PdIndex, PtIndex, PageNo, IsPresent;
    IndicesArePage(v, virt);
    assert SlotOk(mem, tables, dir, PdIndex(virt)) && SlotOk(mem, tables, d, PdIndex(v));
  }

  // ---------- giving up a slot ----------

  function Clear(mem: Memory, f: nat, i: Index): Memory { Put(mem, f, i, NotPresent(mem(f, i))) }

  lemma ClearKeeps(mem: Memory, dirs: set<nat>, tables: set<nat>, dir: nat, i: Index)
    requires Wf(mem, dirs, tables) && dir in dirs
    ensures Wf(Clear(mem, dir, i), dirs, tables)
  {
    hide ExtractTable, IsPresent, NotPresent;
    var m := Clear(mem, dir, i);
    ClearedEntry(mem(dir, i));
    forall d, j: Index ensures TableAt(m, d, j) == TableAt(mem, d, j) {}
    forall d, j: Index | d in dirs ensures SlotOk(m, tables, d, j) {
      assert SlotOk(mem, tables, d, j);
    }
  }

  lemma ClearWalk(mem: Memory, dirs: set<nat>, tables: set<nat>, dir: nat, i: Index, d: nat, v: Addr)
    requires Wf(mem, dirs, tables) && dir in dirs && d in dirs
    ensures Walk(Clear(mem, dir, i), d, v) == if d == dir && PdIndex(v) == i then None else Walk(mem, d, v)
  {
    hide ExtractTable, RightsOf, PdIndex, PtIndex, IsPresent, NotPresent;
    ClearedEntry(mem(dir, i));
    assert SlotOk(mem, tables, d, PdIndex(v));
  }

  // Clearing an entry of a table that no present slot uses is not seen.
  lemma StaleWalk(mem: Memory, dirs: set<nat>, tables: set<nat>, dir: nat, virt: Addr, d: nat, v: Addr)
    requires Wf(mem, dirs, tables) && dir in dirs && d in dirs && !IsPresent(mem(dir, PdIndex(virt)))
    ensures Walk(Clear(mem, TableAt(mem, dir, PdIndex(virt)), PtIndex(virt)), d, v) == Walk(mem, d, v)
  {
    hide ExtractTable, RightsOf, PdIndex, PtIndex, IsPresent, NotPresent;
    assert SlotOk(mem, tables, dir, PdIndex(virt)) && SlotOk(mem, tables, d, PdIndex(v));
  }

  // ---------- steps on what the tables mean ----------

  lemma MapPageLook(s: Space, phys: nat, virt: Addr, r: Rights, v: Addr)
    requires GoodSpace(s)
    ensures GoodSpace(MapPage(s, phys, virt, r))
    ensures Look(MapPage(s, phys, virt, r), v) ==
            if PageNo(v) == PageNo(virt) then
              var slot := s.slots(PdIndex(virt));
              Some(Mapping(phys, Both(if slot.Some? then slot.value else r, r)))
            else Look(s, v)
  {
    hide PdIndex, PtIndex, PageNo;
    var s' := MapPage(s, phys, virt, r);
    IndicesArePage(v, virt);
    forall w: Addr | s'.pages(PageNo(w)).Some? ensures s'.slots(PdIndex(w)).Some? {
      IndicesArePage(w, virt);
    }
  }

  // Unmapping drops the whole 4 MiB slot and nothing else.
  lemma UnmapPageLook(s: Space, virt: Addr, v: Addr)
    requires GoodSpace(s)
    ensures GoodSpace(UnmapPage(s, virt))
    ensures Look(UnmapPage(s, virt), v) == if PdIndex(v) == PdIndex(virt) then None else Look(s, v)
  {
    hide PdIndex, PageNo, SlotOfPage;
    var s' := UnmapPage(s, virt);
    IndicesArePage(v, v);
    forall w: Addr | s'.pages(PageNo(w)).Some? ensures s'.slots(PdIndex(w)).Some? {
      IndicesArePage(w, w);
    }
  }

  // After an unmap, mapping one page of the slot brings back that page alone,
  // with the rights of the new call only.
  lemma RemapStartsEmpty(s: Space, virt: Addr, phys: nat, virt': Addr, r: Rights, v: Addr)
    requires GoodSpace(s) && PdIndex(virt') == PdIndex(virt) == PdIndex(v)
    ensures Look(MapPage(UnmapPage(s, virt), phys, virt', r), v) ==
            if PageNo(v) == PageNo(virt') then Some(Mapping(phys, r)) else None
  {
    hide PdIndex, PageNo;
    UnmapPageLook(s, virt, v);
    MapPageLook(UnmapPage(s, virt), phys, virt', r, v);
  }

  // ---------- virtmem_map and virtmem_unmap on the memory ----------

  function Started(mem: Memory, dir: nat, virt: Addr, user: Flag, rw: Flag, frame: nat): Memory {
    var i := PdIndex(virt);
    if IsPresent(mem(dir, i)) then mem else Start(mem, dir, i, frame, CreateEntry(frame, user, rw))
  }

  function Mapped(mem: Memory, dir: nat, phys: nat, virt: Addr, user: Flag, rw: Flag, frame: nat): Memory {
    var m := Started(mem, dir, virt, user, rw, frame);
    Put(m, TableAt(m, dir, PdIndex(virt)), PtIndex(virt), CreateEntry(phys, user, rw))
  }

  ghost predicate CanMap(mem: Memory, dirs: set<nat>, tables: set<nat>, dir: nat, virt: Addr, frame: nat) {
    && Wf(mem, dirs, tables) && dir in dirs
    && (IsPresent(mem(dir, PdIndex(virt))) || FreshFrame(dirs, tables, frame))
  }

  function TablesAfter(mem: Memory, tables: set<nat>, dir: nat, virt: Addr, frame: nat): set<nat> {
    if IsPresent(mem(dir, PdIndex(virt))) then tables else tables + {frame}
  }

  lemma StartedKeeps(mem: Memory, dirs: set<nat>, tables: set<nat>, dir: nat, virt: Addr, user: Flag, rw: Flag,
                     frame: nat)
    requires CanMap(mem, dirs, tables, dir, virt, frame)
    ensures var m := Started(mem, dir, virt, user, rw, frame); var pde := mem(dir, PdIndex(virt));
            && Wf(m, dirs, TablesAfter(mem, tables, dir, virt, frame))
            && IsPresent(m(dir, PdIndex(virt)))
            && TableAt(m, dir, PdIndex(virt)) in TablesAfter(mem, tables, dir, virt, frame)
            && RightsOf(m(dir, PdIndex(virt))) == (if IsPresent(pde) then RightsOf(pde) else FlagRights(user, rw))
            && (forall d, i: Index :: d in dirs && (d, i) != (dir, PdIndex(virt)) ==> m(d, i) == mem(d, i))
  {
    hide CreateEntry, ExtractTable, RightsOf, Aligned, PdIndex, FlagRights, IsPresent;
    var i := PdIndex(virt);
    assert SlotOk(mem, tables, dir, i);
    if !IsPresent(mem(dir, i)) {
      EntryBits(frame, user, rw);
      StartKeeps(mem, dirs, tables, dir, i, frame, CreateEntry(frame, user, rw));
    }
  }

  lemma StartedWalk(mem: Memory, dirs: set<nat>, tables: set<nat>, dir: nat, virt: Addr, user: Flag, rw: Flag,
                    frame: nat, d: nat, v: Addr)
    requires CanMap(mem, dirs, tables, dir, virt, frame) && d in dirs
    ensures Walk(Started(mem, dir, virt, user, rw, frame), d, v) == Walk(mem, d, v)
  {
    hide CreateEntry, ExtractTable, RightsOf, PdIndex, PtIndex, Walk, IsPresent, Wf;
    if !IsPresent(mem(dir, PdIndex(virt))) {
      EntryBits(frame, user, rw);
      StartWalk(mem, dirs, tables, dir, PdIndex(virt), frame, CreateEntry(frame, user, rw), d, v);
    }
  }

  lemma MappedKeeps(mem: Memory, dirs: set<nat>, tables: set<nat>, dir: nat, phys: nat, virt: Addr, user: Flag,
                    rw: Flag, frame: nat)
    requires CanMap(mem, dirs, tables, dir, virt, frame)
    ensures Wf(Mapped(mem, dir, phys, virt, user, rw, frame), dirs, TablesAfter(mem, tables, dir, virt, frame))
  {
    hide CreateEntry, ExtractTable, RightsOf, PdIndex, PtIndex, IsPresent, TableAt;
    StartedKeeps(mem, dirs, tables, dir, virt, user, rw, frame);
    var m := Started(mem, dir, virt, user, rw, frame);
    EntryKeeps(m, dirs, TablesAfter(mem, tables, dir, virt, frame), TableAt(m, dir, PdIndex(virt)), PtIndex(virt),
               CreateEntry(phys, user, rw));
  }

  // map sets one page of one address space and leaves every other
  // translation of every address space as it was.
  lemma MappedWalk(mem: Memory, dirs: set<nat>, tables: set<nat>, dir: nat, phys: nat, virt: Addr, user: Flag,
                   rw: Flag, frame: nat, d: nat, v: Addr)
    requires CanMap(mem, dirs, tables, dir, virt, frame) && Aligned(phys) && d in dirs
    ensures var pde := mem(dir, PdIndex(virt));
            Walk(Mapped(mem, dir, phys, virt, user, rw, frame), d, v) ==
            if d == dir && PageNo(v) == PageNo(virt) then
              var slot := if IsPresent(pde) then RightsOf(pde) else FlagRights(user, rw);
              Some(Mapping(phys, Both(slot, FlagRights(user, rw))))
            else Walk(mem, d, v)
  {
    hide CreateEntry, RightsOf, PdIndex, PtIndex, PageNo, IsPresent, Walk, FlagRights, Wf;
    StartedKeeps(mem, dirs, tables, dir, virt, user, rw, frame);
    StartedWalk(mem, dirs, tables, dir, virt, user, rw, frame, d, v);
    EntryBits(phys, user, rw);
    EntryWalk(Started(mem, dir, virt, user, rw, frame), dirs, TablesAfter(mem, tables, dir, virt, frame), dir, virt,
              CreateEntry(phys, user, rw), d, v);
  }

  lemma MappedSlot(mem: Memory, dirs: set<nat>, tables: set<nat>, dir: nat, phys: nat, virt: Addr, user: Flag,
                   rw: Flag, frame: nat, d: nat, i: Index)
    requires CanMap(mem, dirs, tables, dir, virt, frame) && d in dirs
    ensures var m := Mapped(mem, dir, phys, virt, user, rw, frame); var pde := mem(d, i);
            if (d, i) == (dir, PdIndex(virt)) then
              && IsPresent(m(d, i))
              && RightsOf(m(d, i)) == (if IsPresent(pde) then RightsOf(pde) else FlagRights(user, rw))
            else m(d, i) == pde
  {
    hide CreateEntry, RightsOf, PdIndex, PtIndex, IsPresent, FlagRights, TableAt;
    StartedKeeps(mem, dirs, tables, dir, virt, user, rw, frame);
  }

  lemma MappedShows(mem: Memory, dirs: set<nat>, tables: set<nat>, dir: nat, phys: nat, virt: Addr, user: Flag,
                    rw: Flag, frame: nat, d: nat, s: Space)
    requires CanMap(mem, dirs, tables, dir, virt, frame) && Aligned(phys) && d in dirs && Shows(mem, d, s)
    ensures Shows(Mapped(mem, dir, phys, virt, user, rw, frame), d,
                  if d == dir then MapPage(s, phys, virt, FlagRights(user, rw)) else s)
  {
    hide CreateEntry, RightsOf, PdIndex, PtIndex, PageNo, IsPresent, Walk, FlagRights, Wf, Look, Mapped, GoodSpace,
      CanMap;
    var r := FlagRights(user, rw);
    var s' := if d == dir then MapPage(s, phys, virt, r) else s;
    var m := Mapped(mem, dir, phys, virt, user, rw, frame);
    forall i: Index ensures s'.slots(i) == if IsPresent(m(d, i)) then Some(RightsOf(m(d, i))) else None {
      MappedSlot(mem, dirs, tables, dir, phys, virt, user, rw, frame, d, i);
    }
    forall v: Addr ensures Walk(m, d, v) == Look(s', v) {
      MappedWalk(mem, dirs, tables, dir, phys, virt, user, rw, frame, d, v);
      MapPageLook(s, phys, virt, r, v);
    }
    MapPageLook(s, phys, virt, r, 0);
  }

  // Besides the two entries nothing is written but the frame of a table that
  // starts, which is zeroed; a table that is there stays in its slot.
  lemma MapWrites(mem: Memory, dirs: set<nat>, tables: set<nat>, dir: nat, phys: nat, virt: Addr, user: Flag,
                  rw: Flag, frame: nat)
    requires CanMap(mem, dirs, tables, dir, virt, frame)
    ensures var m := Mapped(mem, dir, phys, virt, user, rw, frame); var slot := PdIndex(virt);
            var starts := !IsPresent(mem(dir, slot)); var t := TableAt(m, dir, slot);
            && (forall f: nat, k: Index :: (f, k) != (dir, slot) && (f, k) != (t, PtIndex(virt)) ==>
                  m(f, k) == if starts && f == frame then 0 else mem(f, k))
            && (if starts then t == frame else m(dir, slot) == mem(dir, slot))
  {
    hide CreateEntry, PdIndex, PtIndex, RightsOf, ExtractTable, IsPresent, Aligned;
    StartedKeeps(mem, dirs, tables, dir, virt, user, rw, frame);
    if !IsPresent(mem(dir, PdIndex(virt))) { EntryBits(frame, user, rw); }
  }

  function GivenUp(mem: Memory, dir: nat, virt: Addr): Memory {
    if IsPresent(mem(dir, PdIndex(virt))) then Clear(mem, dir, PdIndex(virt)) else mem
  }

  function Unmapped(mem: Memory, dir: nat, virt: Addr): Memory {
    var m := GivenUp(mem, dir, virt);
    Clear(m, TableAt(m, dir, PdIndex(virt)), PtIndex(virt))
  }

  // unmap looks for a table also in a slot that never had one. It then writes
  // to the page at address 0, which is not mapped: a page fault.
  datatype Unmapping = Done(mem: Memory) | Fault

  function Unmap(mem: Memory, dir: nat, virt: Addr): Unmapping {
    if TableAt(GivenUp(mem, dir, virt), dir, PdIndex(virt)) == 0 then Fault else Done(Unmapped(mem, dir, virt))
  }

  // It faults exactly for a slot that has no table, and then before any write.
  lemma UnmapFaults(mem: Memory, dirs: set<nat>, tables: set<nat>, dir: nat, virt: Addr)
    requires Wf(mem, dirs, tables) && dir in dirs
    ensures Unmap(mem, dir, virt) == Fault <==> TableAt(mem, dir, PdIndex(virt)) == 0
    ensures Unmap(mem, dir, virt) == Fault ==> GivenUp(mem, dir, virt) == mem
  {
    hide ExtractTable, PdIndex, PtIndex;
    ClearedEntry(mem(dir, PdIndex(virt)));
    assert SlotOk(mem, tables, dir, PdIndex(virt));
  }

  lemma GivenUpKeeps(mem: Memory, dirs: set<nat>, tables: set<nat>, dir: nat, virt: Addr)
    requires Wf(mem, dirs, tables) && dir in dirs
    ensures Wf(GivenUp(mem, dir, virt), dirs, tables)
    ensures TableAt(GivenUp(mem, dir, virt), dir, PdIndex(virt)) !in dirs
  {
    hide ExtractTable, PdIndex, IsPresent, Clear;
    var m := GivenUp(mem, dir, virt);
    ClearKeeps(mem, dirs, tables, dir, PdIndex(virt));
    assert SlotOk(m, tables, dir, PdIndex(virt));
  }

  lemma UnmappedKeeps(mem: Memory, dirs: set<nat>, tables: set<nat>, dir: nat, virt: Addr)
    requires Wf(mem, dirs, tables) && dir in dirs
    ensures Unmap(mem, dir, virt).Done? ==> Wf(Unmap(mem, dir, virt).mem, dirs, tables)
  {
    hide TableAt, PdIndex, PtIndex, GivenUp, Wf, Put;
    var m := GivenUp(mem, dir, virt);
    var t := TableAt(m, dir, PdIndex(virt));
    GivenUpKeeps(mem, dirs, tables, dir, virt);
    EntryKeeps(m, dirs, tables, t, PtIndex(virt), NotPresent(m(t, PtIndex(virt))));
  }

  // unmap takes away the translations of the whole slot of its address, in
  // its own address space, and no others.
  lemma UnmappedWalk(mem: Memory, dirs: set<nat>, tables: set<nat>, dir: nat, virt: Addr, d: nat, v: Addr)
    requires Wf(mem, dirs, tables) && dir in dirs && d in dirs
    ensures Unmap(mem, dir, virt).Done? ==>
              Walk(Unmap(mem, dir, virt).mem, d, v) ==
              if d == dir && PdIndex(v) == PdIndex(virt) then None else Walk(mem, d, v)
  {
    hide ExtractTable, PdIndex, PtIndex, RightsOf, Wf, TableAt, NotPresent;
    var i := PdIndex(virt);
    var m := GivenUp(mem, dir, virt);
    ClearKeeps(mem, dirs, tables, dir, i);
    ClearWalk(mem, dirs, tables, dir, i, d, v);
    ClearedEntry(mem(dir, i));
    StaleWalk(m, dirs, tables, dir, virt, d, v);
  }

  // It clears the present bits of the two entries of its address, and writes
  // nothing else.
  lemma UnmapWrites(mem: Memory, dirs: set<nat>, tables: set<nat>, dir: nat, virt: Addr)
    requires Wf(mem, dirs, tables) && dir in dirs && TableAt(mem, dir, PdIndex(virt)) != 0
    ensures var t := TableAt(mem, dir, PdIndex(virt)); var u := Unmap(mem, dir, virt);
            u.Done? && forall f: nat, k: Index ::
              u.mem(f, k) ==
              if (f, k) == (dir, PdIndex(virt)) || (f, k) == (t, PtIndex(virt)) then mem(f, k) - mem(f, k) % 2
              else mem(f, k)
  {
    hide ExtractTable, PdIndex, PtIndex;
    UnmapFaults(mem, dirs, tables, dir, virt);
    ClearedEntry(mem(dir, PdIndex(virt)));
    assert SlotOk(mem, tables, dir, PdIndex(virt));
  }

  lemma UnmappedSlot(mem: Memory, dirs: set<nat>, tables: set<nat>, dir: nat, virt: Addr, d: nat, i: Index)
    requires Wf(mem, dirs, tables) && dir in dirs && d in dirs
    ensures if (d, i) == (dir, PdIndex(virt)) then !IsPresent(Unmapped(mem, dir, virt)(d, i))
            else Unmapped(mem, dir, virt)(d, i) == mem(d, i)
    ensures TableAt(Unmapped(mem, dir, virt), d, i) == TableAt(mem, d, i)
  {
    hide ExtractTable, PdIndex, PtIndex;
    var j := PdIndex(virt);
    var m := GivenUp(mem, dir, virt);
    ClearKeeps(mem, dirs, tables, dir, j);
    ClearedEntry(mem(dir, j));
    assert SlotOk(m, tables, dir, j);
  }

  lemma UnmappedShows(mem: Memory, dirs: set<nat>, tables: set<nat>, dir: nat, virt: Addr, d: nat, s: Space)
    requires Wf(mem, dirs, tables) && dir in dirs && d in dirs && Shows(mem, d, s)
    ensures Unmap(mem, dir, virt).Done? ==>
              Shows(Unmap(mem, dir, virt).mem, d, if d == dir then UnmapPage(s, virt) else s)
  {
    hide RightsOf, PdIndex, PtIndex, PageNo, Walk, Look, GoodSpace, Unmapped, Wf, IsPresent;
    var m := Unmapped(mem, dir, virt);
    var s' := if d == dir then UnmapPage(s, virt) else s;
    forall i: Index ensures s'.slots(i) == if IsPresent(m(d, i)) then Some(RightsOf(m(d, i))) else None {
      UnmappedSlot(mem, dirs, tables, dir, virt, d, i);
    }
    forall v: Addr ensures Unmap(mem, dir, virt).Done? ==> Walk(m, d, v) == Look(s', v) {
      UnmappedWalk(mem, dirs, tables, dir, virt, d, v);
      UnmapPageLook(s, virt, v);
    }
    UnmapPageLook(s, virt, 0);
  }

  // ---------- every run of maps and unmaps ----------

  datatype Op =
    | DoMap(dir: nat, phys: nat, virt: Addr, user: Flag, rw: Flag, frame: nat)
    | DoUnmap(dir: nat, virt: Addr)

  datatype State = State(mem: Memory, tables: set<nat>)

  ghost predicate Allowed(s: State, dirs: set<nat>, op: Op) {
    op.dir in dirs &&
    match op
    case DoMap(dir, phys, virt, _, _, frame) => Aligned(phys) ==> CanMap(s.mem, dirs, s.tables, dir, virt, frame)
    case DoUnmap(dir, virt) => Unmap(s.mem, dir, virt).Done?
  }

  // Which calls go on: a map whose new table, if its slot needs one, is a frame
  // of its own, and an unmap in a slot that has a table.
  lemma CallsGoOn(s: State, dirs: set<nat>, op: Op)
    requires Wf(s.mem, dirs, s.tables)
    ensures Allowed(s, dirs, op) <==>
            op.dir in dirs &&
            match op
            case DoMap(dir, phys, virt, _, _, frame) =>
              !Aligned(phys) || IsPresent(s.mem(dir, PdIndex(virt))) || FreshFrame(dirs, s.tables, frame)
            case DoUnmap(dir, virt) => TableAt(s.mem, dir, PdIndex(virt)) != 0
  {
    hide Wf, Unmap, TableAt, FreshFrame, IsPresent, PdIndex;
    if op.dir in dirs && op.DoUnmap? { UnmapFaults(s.mem, dirs, s.tables, op.dir, op.virt); }
  }

  // The tables after one call. A call that faults ends the run.
  function Next(s: State, op: Op): State {
    match op
    case DoMap(dir, phys, virt, user, rw, frame) =>
      if Aligned(phys) then
        State(Mapped(s.mem, dir, phys, virt, user, rw, frame), TablesAfter(s.mem, s.tables, dir, virt, frame))
      else s
    case DoUnmap(dir, virt) =>
      match Unmap(s.mem, dir, virt)
      case Done(mem) => s.(mem := mem)
      case Fault => s
  }

  // What address space d means after one call, without looking at any table.
  function NextSpace(p: Space, d: nat, op: Op): Space {
    if op.dir != d then p
    else
      match op
      case DoMap(_, phys, virt, user, rw, _) =>
        if Aligned(phys) then MapPage(p, phys, virt, FlagRights(user, rw)) else p
      case DoUnmap(_, virt) => UnmapPage(p, virt)
  }

  function After(s: State, ops: seq<Op>): State {
    if ops == [] then s else Next(After(s, ops[..|ops| - 1]), ops[|ops| - 1])
  }

  function SpaceAfter(p: Space, d: nat, ops: seq<Op>): Space {
    if ops == [] then p else NextSpace(SpaceAfter(p, d, ops[..|ops| - 1]), d, ops[|ops| - 1])
  }

  ghost predicate AllAllowed(s: State, dirs: set<nat>, ops: seq<Op>) {
    ops == [] ||
    (AllAllowed(s, dirs, ops[..|ops| - 1]) && Allowed(After(s, ops[..|ops| - 1]), dirs, ops[|ops| - 1]))
  }

  lemma NextShows(s: State, dirs: set<nat>, op: Op, d: nat, p: Space)
    requires Wf(s.mem, dirs, s.tables) && d in dirs && Shows(s.mem, d, p) && Allowed(s, dirs, op)
    ensures Wf(Next(s, op).mem, dirs, Next(s, op).tables) && Shows(Next(s, op).mem, d, NextSpace(p, d, op))
  {
    hide Wf, Shows, Mapped, Unmap, TablesAfter, MapPage, UnmapPage, CanMap, Aligned;
    match op
    case DoMap(dir, phys, virt, user, rw, frame) =>
      if Aligned(phys) {
        MappedKeeps(s.mem, dirs, s.tables, dir, phys, virt, user, rw, frame);
        MappedShows(s.mem, dirs, s.tables, dir, phys, virt, user, rw, frame, d, p);
      }
    case DoUnmap(dir, virt) =>
      UnmappedKeeps(s.mem, dirs, s.tables, dir, virt);
      UnmappedShows(s.mem, dirs, s.tables, dir, virt, d, p);
  }

  // Over every run, in every address space, the two-level walk is the
  // abstract partial map.
  lemma {:induction false} RunShows(s: State, dirs: set<nat>, ops: seq<Op>, d: nat, p: Space)
    requires Wf(s.mem, dirs, s.tables) && d in dirs && Shows(s.mem, d, p) && AllAllowed(s, dirs, ops)
    ensures var s' := After(s, ops); var p' := SpaceAfter(p, d, ops);
            && Wf(s'.mem, dirs, s'.tables) && Shows(s'.mem, d, p')
            && (forall v: Addr :: Walk(s'.mem, d, v) == Look(p', v))
    decreases |ops|
  {
    hide Wf, Next, NextSpace, Allowed, Walk, Look;
    if ops != [] {
      RunShows(s, dirs, ops[..|ops| - 1], d, p);
      NextShows(After(s, ops[..|ops| - 1]), dirs, ops[|ops| - 1], d, SpaceAfter(p, d, ops[..|ops| - 1]));
    }
  }

  // ---------- which unmaps of a run fault ----------

  predicate MapsSlot(op: Op, d: nat, i: Index) {
    op.DoMap? && Aligned(op.phys) && op.dir == d && PdIndex(op.virt) == i
  }

  lemma TableAfter(s: State, dirs: set<nat>, op: Op, d: nat, i: Index)
    requires Wf(s.mem, dirs, s.tables) && d in dirs && Allowed(s, dirs, op)
    ensures TableAt(Next(s, op).mem, d, i) == 0 <==> TableAt(s.mem, d, i) == 0 && !MapsSlot(op, d, i)
    ensures Wf(Next(s, op).mem, dirs, Next(s, op).tables)
  {
    hide ExtractTable, Mapped, Unmapped, TablesAfter, CanMap, Aligned, GivenUp, PdIndex, IsPresent;
    match op
    case DoMap(dir, phys, virt, user, rw, frame) =>
      if Aligned(phys) {
        MappedKeeps(s.mem, dirs, s.tables, dir, phys, virt, user, rw, frame);
        MappedSlot(s.mem, dirs, s.tables, dir, phys, virt, user, rw, frame, d, i);
        assert SlotOk(Next(s, op).mem, Next(s, op).tables, d, i);
      }
    case DoUnmap(dir, virt) =>
      UnmappedKeeps(s.mem, dirs, s.tables, dir, virt);
      UnmappedSlot(s.mem, dirs, s.tables, dir, virt, d, i);
  }

  // After any run a slot has no table, so that unmapping in it faults, exactly
  // if it had none before and nothing was mapped into it since. A slot given up
  // keeps its table and does not fault again.
  lemma {:induction false} FaultsWithoutMap(s: State, dirs: set<nat>, ops: seq<Op>, d: nat, virt: Addr)
    requires Wf(s.mem, dirs, s.tables) && d in dirs && AllAllowed(s, dirs, ops)
    ensures Wf(After(s, ops).mem, dirs, After(s, ops).tables)
    ensures Unmap(After(s, ops).mem, d, virt) == Fault
       <==> Unmap(s.mem, d, virt) == Fault && forall t :: 0 <= t < |ops| ==> !MapsSlot(ops[t], d, PdIndex(virt))
    decreases |ops|
  {
    hide Wf, Next, Allowed, TableAt, MapsSlot, Unmap, PdIndex;
    UnmapFaults(s.mem, dirs, s.tables, d, virt);
    if ops != [] {
      var n := |ops| - 1;
      var s1 := After(s, ops[..n]);
      FaultsWithoutMap(s, dirs, ops[..n], d, virt);
      TableAfter(s1, dirs, ops[n], d, PdIndex(virt));
      UnmapFaults(s1.mem, dirs, s1.tables, d, virt);
      UnmapFaults(After(s, ops).mem, dirs, After(s, ops).tables, d, virt);
    }
  }
}
