// The liballoc heap as a value: page runs ("majors") holding address-ordered
// blocks ("minors"), the best-bet hint, the byte memory and the counters.
// Addresses are numbers of a 32-bit machine; 0 is the null pointer.
module HeapModel {
  import opened Arith
  import opened ByteSeqs

  const ADDRESS_SPACE := TWO_32
  const PAGE_SIZE := 4096
  const MIN_PAGES := 16
  const MAJOR_HEADER := 24
  const MINOR_HEADER := 24
  const ALIGNMENT := 16
  const ALIGN_INFO := 16
  const MAGIC := 0xc001_c0de
  const DEAD := 0xdead_dead

  datatype Block = Block(addr: nat, size: nat, req: nat) {
    // First byte after the header: the raw, unaligned start of the body.
    function Body(): nat { addr + MINOR_HEADER }

    function End(): nat { addr + MINOR_HEADER + size }

    // The pointer handed to the caller.
    function Payload(): nat { Align(Body()) }
  }

  datatype Run = Run(base: nat, pages: nat, blocks: seq<Block>) {
    function Size(): nat { pages * PAGE_SIZE }

    function Limit(): nat { base + Size() }
  }

  datatype Heap = Heap(
    runs: seq<Run>,
    bet: nat,
    mem: seq<Byte>,
    acquired: int,
    inuse: int,
    warnings: nat,
    errors: nat,
    overruns: nat)

  // ---------- alignment ----------

  // ALIGN: skip ALIGN_INFO bytes, then round up to ALIGNMENT.
  function Align(raw: nat): nat {
    var p := raw + ALIGN_INFO;
    if p % ALIGNMENT == 0 then p else p + (ALIGNMENT - p % ALIGNMENT)
  }

  // Where ALIGN leaves its note, and what the note says.
  function TagAddress(b: Block): nat { b.Payload() - ALIGN_INFO }

  function Tag(b: Block): Byte { b.Payload() - b.Body() }

  function Sub32(a: nat, b: nat): (r: nat)
    requires a < ADDRESS_SPACE && b <= ADDRESS_SPACE
  {
    if b <= a then a - b else a + ADDRESS_SPACE - b
  }

  // UNALIGN: follow the note back, if it holds a plausible distance.
  function Unalign(mem: seq<Byte>, p: nat): (r: nat)
    requires |mem| == ADDRESS_SPACE && p < ADDRESS_SPACE
  {
    var diff := mem[Sub32(p, ALIGN_INFO)];
    if diff < ALIGNMENT + ALIGN_INFO then Sub32(p, diff) else p
  }

  // ---------- geometry of one run ----------

  function Used(blocks: seq<Block>): nat {
    if blocks == [] then 0
    else Used(blocks[..|blocks| - 1]) + blocks[|blocks| - 1].size + MINOR_HEADER
  }

  function BodyBytes(blocks: seq<Block>): nat {
    if blocks == [] then 0
    else BodyBytes(blocks[..|blocks| - 1]) + blocks[|blocks| - 1].size
  }

  function Usage(r: Run): nat { MAJOR_HEADER + Used(r.blocks) }

  function FreeSpace(r: Run): int { r.Size() - Usage(r) }

  // Gap k lies before block k; gap |blocks| is the tail of the run.
  function GapStart(r: Run, k: nat): nat
    requires k <= |r.blocks|
  {
    if k == 0 then r.base + MAJOR_HEADER else r.blocks[k - 1].End()
  }

  function GapEnd(r: Run, k: nat): nat
    requires k <= |r.blocks|
  {
    if k == |r.blocks| then r.Limit() else r.blocks[k].addr
  }

  function Gap(r: Run, k: nat): int
    requires k <= |r.blocks|
  {
    GapEnd(r, k) - GapStart(r, k)
  }

  function GapSum(r: Run, n: nat): int
    requires n <= |r.blocks| + 1
  {
    if n == 0 then 0 else GapSum(r, n - 1) + Gap(r, n - 1)
  }

  ghost predicate Packed(blocks: seq<Block>, lo: nat, hi: nat) {
    && (forall k :: 0 <= k < |blocks| ==> lo <= blocks[k].addr && blocks[k].End() <= hi)
    && (forall j, k :: 0 <= j < k < |blocks| ==> blocks[j].End() <= blocks[k].addr)
  }

  ghost predicate GoodRun(r: Run) {
    && 0 < r.base
    && r.base + MAJOR_HEADER <= r.Limit() <= ADDRESS_SPACE
    && Packed(r.blocks, r.base + MAJOR_HEADER, r.Limit())
    && (forall k :: 0 <= k < |r.blocks| ==> r.blocks[k].req + ALIGNMENT + ALIGN_INFO <= r.blocks[k].size)
  }

  ghost predicate Apart(r: Run, s: Run) {
    r.Limit() <= s.base || s.Limit() <= r.base
  }

  ghost predicate GoodRuns(runs: seq<Run>) {
    && (forall i :: 0 <= i < |runs| ==> GoodRun(runs[i]))
    && (forall i, j :: 0 <= i < j < |runs| ==> Apart(runs[i], runs[j]))
  }

  ghost predicate NoneEmpty(runs: seq<Run>) {
    forall i :: 0 <= i < |runs| ==> runs[i].blocks != []
  }

  // ---------- look-up ----------

  function FindBlock(blocks: seq<Block>, a: nat): (k: nat)
    ensures k <= |blocks|
    ensures k < |blocks| ==> blocks[k].addr == a
  {
    if blocks == [] then 0
    else if blocks[0].addr == a then 0
    else FindBlock(blocks[1..], a) + 1
  }

  predicate Holds(r: Run, a: nat) { FindBlock(r.blocks, a) < |r.blocks| }

  // The first run with a block whose header is at a, |runs| if there is none.
  function FindRun(runs: seq<Run>, a: nat): (i: nat)
    ensures i <= |runs|
    ensures i < |runs| ==> Holds(runs[i], a)
  {
    if runs == [] then 0
    else if Holds(runs[0], a) then 0
    else FindRun(runs[1..], a) + 1
  }

  predicate Live(runs: seq<Run>, a: nat) { FindRun(runs, a) < |runs| }

  function BlockAt(runs: seq<Run>, a: nat): (b: Block)
    requires Live(runs, a)
    ensures b.addr == a
  {
    var r := runs[FindRun(runs, a)];
    r.blocks[FindBlock(r.blocks, a)]
  }

  function IndexOf(runs: seq<Run>, base: nat): (i: nat)
    ensures i <= |runs|
    ensures i < |runs| ==> runs[i].base == base
  {
    if runs == [] then 0
    else if runs[0].base == base then 0
    else IndexOf(runs[1..], base) + 1
  }

  // ---------- totals ----------

  function TotalSize(runs: seq<Run>): nat {
    if runs == [] then 0 else TotalSize(runs[..|runs| - 1]) + runs[|runs| - 1].Size()
  }

  function TotalBodies(runs: seq<Run>): nat {
    if runs == [] then 0 else TotalBodies(runs[..|runs| - 1]) + BodyBytes(runs[|runs| - 1].blocks)
  }

  // ---------- the invariant ----------

  ghost predicate Tagged(mem: seq<Byte>, b: Block) {
    TagAddress(b) < |mem| && mem[TagAddress(b)] == Tag(b)
  }

  ghost predicate AllTagged(mem: seq<Byte>, runs: seq<Run>) {
    forall i, k :: 0 <= i < |runs| && 0 <= k < |runs[i].blocks| ==> Tagged(mem, runs[i].blocks[k])
  }

  ghost predicate Valid(h: Heap) {
    && GoodRuns(h.runs)
    && NoneEmpty(h.runs)
    && (h.bet == 0 || IndexOf(h.runs, h.bet) < |h.runs|)
    && |h.mem| == ADDRESS_SPACE
    && AllTagged(h.mem, h.runs)
    && h.acquired == TotalSize(h.runs)
    && h.inuse == TotalBodies(h.runs)
  }

  // ---------- malloc ----------

  function BodySize(req: nat): nat { req + ALIGNMENT + ALIGN_INFO }

  // The largest requests for which no 32-bit sum in malloc wraps.
  predicate Fits32(req: nat) {
    BodySize(req) + MAJOR_HEADER + MINOR_HEADER <= ADDRESS_SPACE - PAGE_SIZE
  }

  function PagesFor(size: nat): nat {
    var st := size + MAJOR_HEADER + MINOR_HEADER;
    var n := if st % PAGE_SIZE == 0 then st / PAGE_SIZE else st / PAGE_SIZE + 1;
    if n < MIN_PAGES then MIN_PAGES else n
  }

  // What the page provider owes: nothing, or a run of its own.
  ghost predicate Granted(runs: seq<Run>, grant: nat, pages: nat) {
    grant == 0 ||
    (grant + pages * PAGE_SIZE <= ADDRESS_SPACE &&
     forall i :: 0 <= i < |runs| ==> Apart(runs[i], Run(grant, pages, [])))
  }

  // The first gap from k on that can take need bytes; |blocks| + 1 if none can.
  function FirstGap(r: Run, need: nat, k: nat): (g: nat)
    requires k <= |r.blocks| + 1
    ensures k <= g <= |r.blocks| + 1
    ensures g <= |r.blocks| ==> Gap(r, g) >= need
    ensures forall j :: k <= j < g ==> Gap(r, j) < need
    decreases |r.blocks| + 1 - k
  {
    if k == |r.blocks| + 1 then k
    else if Gap(r, k) >= need then k
    else FirstGap(r, need, k + 1)
  }

  // The gap malloc takes in a major, |blocks| + 1 if it leaves the major; a
  // major with too little free space in total is left without looking at its gaps.
  function RoomIn(r: Run, need: nat): (g: nat)
    ensures g <= |r.blocks| + 1
  {
    if FreeSpace(r) < need then |r.blocks| + 1 else FirstGap(r, need, 0)
  }

  datatype Outcome =
    | Found(run: nat, gap: nat, hint: nat)
    | Exhausted(hint: nat, best: int, case1: bool)

  // The walk over the majors: the hint is improved on the way, and a walk that
  // began at the hint starts once more from the root before it gives up.
  function Walk(runs: seq<Run>, i: nat, started: bool, bet: nat, best: int, need: nat): (o: Outcome)
    requires i < |runs|
    ensures o.Found? ==> o.run < |runs| && o.gap <= |runs[o.run].blocks|
    decreases started, |runs| - i
  {
    var free := FreeSpace(runs[i]);
    var bet' := if best < free then runs[i].base else bet;
    var best' := if best < free then free else best;
    var g := RoomIn(runs[i], need);
    if g <= |runs[i].blocks| then Found(i, g, bet')
    else if i + 1 < |runs| then Walk(runs, i + 1, started, bet', best', need)
    else if started then Walk(runs, 0, false, bet', best', need)
    else Exhausted(bet', best', free < need)
  }

  function BestSize(h: Heap): int {
    var i := IndexOf(h.runs, h.bet);
    if h.bet != 0 && i < |h.runs| then FreeSpace(h.runs[i]) else 0
  }

  predicate StartsAtBet(h: Heap, need: nat) {
    h.bet != 0 && IndexOf(h.runs, h.bet) < |h.runs| && BestSize(h) > need
  }

  function Search(h: Heap, need: nat): (o: Outcome)
    ensures o.Found? ==> o.run < |h.runs| && o.gap <= |h.runs[o.run].blocks|
  {
    if h.runs == [] then Exhausted(h.bet, BestSize(h), false)
    else
      var started := StartsAtBet(h, need);
      Walk(h.runs, if started then IndexOf(h.runs, h.bet) else 0, started, h.bet, BestSize(h), need)
  }

  function InsertBlock(r: Run, k: nat, b: Block): Run
    requires k <= |r.blocks|
  {
    r.(blocks := r.blocks[..k] + [b] + r.blocks[k..])
  }

  datatype Result = Result(heap: Heap, ptr: nat)

  // A block of the given body size at the start of gap k of run i.
  function NewBlock(h: Heap, i: nat, k: nat, size: nat, req: nat): Block
    requires i < |h.runs| && k <= |h.runs[i].blocks|
  {
    Block(GapStart(h.runs[i], k), size, req)
  }

  function Mark(mem: seq<Byte>, b: Block): (r: seq<Byte>)
    ensures |r| == |mem|
  {
    if TagAddress(b) < |mem| then mem[TagAddress(b) := Tag(b)] else mem
  }

  function Place(h: Heap, i: nat, k: nat, size: nat, req: nat): (r: Result)
    requires i < |h.runs| && k <= |h.runs[i].blocks|
    ensures |r.heap.mem| == |h.mem|
  {
    var b := NewBlock(h, i, k, size, req);
    Result(h.(runs := h.runs[i := InsertBlock(h.runs[i], k, b)], mem := Mark(h.mem, b), inuse := h.inuse + size),
           b.Payload())
  }

  function Grow(h: Heap, grant: nat, pages: nat): Heap {
    h.(runs := h.runs + [Run(grant, pages, [])], acquired := h.acquired + pages * PAGE_SIZE)
  }

  // A run just granted takes the block at its front.
  function PlaceFresh(h: Heap, bet: nat, req: nat, grant: nat): (r: Result)
    ensures |r.heap.mem| == |h.mem|
  {
    Place(Grow(h.(bet := bet), grant, PagesFor(BodySize(req))), |h.runs|, 0, BodySize(req), req)
  }

  // A run requested after CASE 1 is used at once; one requested in CASE 5 is
  // first compared with the hint.
  function FreshHint(o: Outcome, req: nat, grant: nat): nat
    requires o.Exhausted?
  {
    var free := PagesFor(BodySize(req)) * PAGE_SIZE - MAJOR_HEADER;
    if !o.case1 && o.best < free then grant else o.hint
  }

  function Malloc(h: Heap, req: nat, grant: nat): (r: Result)
    ensures |r.heap.mem| == |h.mem|
  {
    var o := Search(h, BodySize(req) + MINOR_HEADER);
    if o.Found? then Place(h.(bet := o.hint), o.run, o.gap, BodySize(req), req)
    else if grant == 0 then Result(h.(bet := o.hint, warnings := h.warnings + 1), 0)
    else PlaceFresh(h, FreshHint(o, req, grant), req, grant)
  }

  // ---------- free ----------

  function RemoveBlock(r: Run, k: nat): Run
    requires k < |r.blocks|
  {
    r.(blocks := r.blocks[..k] + r.blocks[k + 1..])
  }

  // Conversion of an unsigned difference to a C int.
  function Int32(x: int): int {
    var u := x % ADDRESS_SPACE;
    if u < 0x8000_0000 then u else u - ADDRESS_SPACE
  }

  function FreeOf(runs: seq<Run>, base: nat): int {
    var i := IndexOf(runs, base);
    if i < |runs| then FreeSpace(runs[i]) else 0
  }

  function Release(h: Heap, i: nat, k: nat): Heap
    requires i < |h.runs| && k < |h.runs[i].blocks|
  {
    var r := RemoveBlock(h.runs[i], k);
    var h1 := h.(inuse := h.inuse - h.runs[i].blocks[k].size);
    if r.blocks == [] then
      h1.(runs := h.runs[..i] + h.runs[i + 1..],
          bet := if h.bet == r.base then 0 else h.bet,
          acquired := h.acquired - r.Size())
    else
      var runs := h.runs[i := r];
      var better := h.bet != 0 && Int32(FreeSpace(r)) > Int32(FreeOf(runs, h.bet));
      h1.(runs := runs, bet := if better then r.base else h.bet)
  }

  predicate LooksOverrun(magic: nat) {
    || magic % 0x100_0000 == MAGIC % 0x100_0000
    || magic % 0x1_0000 == MAGIC % 0x1_0000
    || magic % 0x100 == MAGIC % 0x100
  }

  lemma LowByte(w: nat, m: nat)
    requires m == 0x1_0000 || m == 0x100_0000
    ensures w % m == MAGIC % m ==> w % 0x100 == 0xde
  {
    var q := w / m;
    if w % m == MAGIC % m {
      assert w == m * q + MAGIC % m;
      if m == 0x1_0000 {
        Divides(w, 0x100, 0x100 * q + 0xc0, 0xde);
      } else {
        Divides(w, 0x100, 0x1_0000 * q + 0x01c0, 0xde);
      }
    }
  }

  // The three comparisons come to the last: a word that agrees in its two or
  // three low bytes agrees in its lowest. A word overwritten in its low bytes
  // only is not recognised, and a dead header never counts.
  lemma OverrunIsLowByte(magic: nat)
    ensures LooksOverrun(magic) <==> magic % 0x100 == 0xde
    ensures !LooksOverrun(DEAD)
  {
    LowByte(magic, 0x100_0000);
    LowByte(magic, 0x1_0000);
  }

  function Complain(h: Heap, magic: nat): Heap {
    h.(errors := h.errors + 1, overruns := h.overruns + (if LooksOverrun(magic) then 1 else 0))
  }

  function HeaderOf(mem: seq<Byte>, p: nat): nat
    requires |mem| == ADDRESS_SPACE && p < ADDRESS_SPACE
  {
    Sub32(Unalign(mem, p), MINOR_HEADER)
  }

  // free goes by the word at the header. If it is the magic though no live
  // block has its header there, free goes astray: it takes whatever bytes are
  // there for a block and unlinks that. The heap is the one it had until then.
  datatype Freeing = Freed(heap: Heap) | Astray(heap: Heap)

  // magic is the word found where the header's magic would be; in the header
  // of a live block that is MAGIC.
  function FreeAt(h: Heap, a: nat, magic: nat): Freeing {
    if Live(h.runs, a) then
      var i := FindRun(h.runs, a);
      Freed(Release(h, i, FindBlock(h.runs[i].blocks, a)))
    else if magic == MAGIC then Astray(h)
    else Freed(Complain(h, magic))
  }

  function FreePtr(h: Heap, p: nat, magic: nat): Freeing
    requires |h.mem| == ADDRESS_SPACE && p < ADDRESS_SPACE
  {
    if p == 0 then Freed(h.(warnings := h.warnings + 1)) else FreeAt(h, HeaderOf(h.mem, p), magic)
  }

  // The page runs that go back to the provider when the block with its header
  // at a is freed, with their numbers of pages.
  function GivenBack(h: Heap, a: nat): seq<(nat, nat)> {
    if Live(h.runs, a) && |h.runs[FindRun(h.runs, a)].blocks| == 1 then
      [(h.runs[FindRun(h.runs, a)].base, h.runs[FindRun(h.runs, a)].pages)]
    else []
  }

  function FreeGives(h: Heap, p: nat): seq<(nat, nat)>
    requires |h.mem| == ADDRESS_SPACE && p < ADDRESS_SPACE
  {
    if p == 0 then [] else GivenBack(h, HeaderOf(h.mem, p))
  }

  // ---------- realloc ----------

  function CopyBytes(mem: seq<Byte>, dst: nat, src: nat, n: nat): (r: seq<Byte>)
    ensures |r| == |mem|
  {
    if dst + n <= |mem| && src + n <= |mem| then mem[..dst] + mem[src..src + n] + mem[dst + n..] else mem
  }

  function SetReq(h: Heap, a: nat, req: nat): Heap
    requires Live(h.runs, a)
  {
    var i := FindRun(h.runs, a);
    var k := FindBlock(h.runs[i].blocks, a);
    h.(runs := h.runs[i := h.runs[i].(blocks := h.runs[i].blocks[k := h.runs[i].blocks[k].(req := req)])])
  }

  // Realloc does not look at what malloc returned: with no memory left it
  // copies to address 0, which faults as soon as there is a byte to copy. Like
  // free it trusts the magic.
  datatype Moved = Returned(heap: Heap, ptr: nat) | Fault(heap: Heap) | Strayed(heap: Heap)

  function AfterFree(f: Freeing, ptr: nat): Moved {
    match f
    case Freed(h) => Returned(h, ptr)
    case Astray(h) => Strayed(h)
  }

  function Realloc(h: Heap, p: nat, size: nat, grant: nat, magic: nat): Moved
    requires |h.mem| == ADDRESS_SPACE && p < ADDRESS_SPACE
  {
    if size == 0 then AfterFree(FreePtr(h, p, magic), 0)
    else if p == 0 then var m := Malloc(h, size, grant); Returned(m.heap, m.ptr)
    else
      var a := HeaderOf(h.mem, p);
      if !Live(h.runs, a) then AfterFree(FreeAt(h, a, magic), 0)
      else
        var oldReq := BlockAt(h.runs, a).req;
        if oldReq >= size then Returned(SetReq(h, a, size), p)
        else
          var m := Malloc(h, size, grant);
          if m.ptr == 0 && oldReq > 0 then Fault(m.heap)
          else
            var copied := m.heap.(mem := CopyBytes(m.heap.mem, m.ptr, p, oldReq));
            AfterFree(FreePtr(copied, p, magic), m.ptr)
  }

  function ReallocGives(h: Heap, p: nat, size: nat, grant: nat): seq<(nat, nat)>
    requires |h.mem| == ADDRESS_SPACE && p < ADDRESS_SPACE
  {
    if size == 0 then FreeGives(h, p)
    else if p == 0 || !Live(h.runs, HeaderOf(h.mem, p)) then []
    else
      var n := BlockAt(h.runs, HeaderOf(h.mem, p)).req;
      var m := Malloc(h, size, grant);
      if n >= size || (m.ptr == 0 && n > 0) then []
      else FreeGives(m.heap.(mem := CopyBytes(m.heap.mem, m.ptr, p, n)), p)
  }
}
