// Space inside one run and across the runs: what gaps, blocks and totals add
// up to, and how inserting and removing a block changes them.
module HeapGeometry {
  import opened ByteSeqs
  import opened HeapModel

  // ---------- sums ----------

  lemma {:induction false} UsedConcat(a: seq<Block>, b: seq<Block>)
    ensures Used(a + b) == Used(a) + Used(b)
    ensures BodyBytes(a + b) == BodyBytes(a) + BodyBytes(b)
    decreases |b|
  {
    if b == [] {
      assert a + b == a;
    } else {
      UsedConcat(a, b[..|b| - 1]);
      assert (a + b)[..|a + b| - 1] == a + b[..|b| - 1];
    }
  }

  lemma UsedOne(b: Block)
    ensures Used([b]) == b.size + MINOR_HEADER && BodyBytes([b]) == b.size
  {
    assert [b][..0] == [];
  }

  lemma UsedInsert(r: Run, k: nat, b: Block)
    requires k <= |r.blocks|
    ensures Usage(InsertBlock(r, k, b)) == Usage(r) + b.size + MINOR_HEADER
    ensures BodyBytes(InsertBlock(r, k, b).blocks) == BodyBytes(r.blocks) + b.size
  {
    var front, back := r.blocks[..k], r.blocks[k..];
    UsedConcat(front, back);
    UsedConcat(front, [b]);
    UsedConcat(front + [b], back);
    UsedOne(b);
    assert front + back == r.blocks;
  }

  lemma InsertRemove(r: Run, k: nat)
    requires k < |r.blocks|
    ensures InsertBlock(RemoveBlock(r, k), k, r.blocks[k]) == r
  {
    assert r.blocks[..k] + [r.blocks[k]] + r.blocks[k + 1..] == r.blocks;
  }

  lemma RemoveInsert(r: Run, k: nat, b: Block)
    requires k <= |r.blocks|
    ensures RemoveBlock(InsertBlock(r, k, b), k) == r
  {
    assert r.blocks[..k] + r.blocks[k..] == r.blocks;
  }

  lemma UsedRemove(r: Run, k: nat)
    requires k < |r.blocks|
    ensures Usage(r) == Usage(RemoveBlock(r, k)) + r.blocks[k].size + MINOR_HEADER
    ensures BodyBytes(r.blocks) == BodyBytes(RemoveBlock(r, k).blocks) + r.blocks[k].size
  {
    InsertRemove(r, k);
    UsedInsert(RemoveBlock(r, k), k, r.blocks[k]);
  }

  lemma {:induction false} TotalsConcat(a: seq<Run>, b: seq<Run>)
    ensures TotalSize(a + b) == TotalSize(a) + TotalSize(b)
    ensures TotalBodies(a + b) == TotalBodies(a) + TotalBodies(b)
    decreases |b|
  {
    if b == [] {
      assert a + b == a;
    } else {
      TotalsConcat(a, b[..|b| - 1]);
      assert (a + b)[..|a + b| - 1] == a + b[..|b| - 1];
    }
  }

  lemma TotalsOne(r: Run)
    ensures TotalSize([r]) == r.Size() && TotalBodies([r]) == BodyBytes(r.blocks)
  {
    assert [r][..0] == [];
  }

  lemma TotalsSplit(runs: seq<Run>, i: nat)
    requires i < |runs|
    ensures TotalSize(runs) == TotalSize(runs[..i]) + runs[i].Size() + TotalSize(runs[i + 1..])
    ensures TotalBodies(runs) == TotalBodies(runs[..i]) + BodyBytes(runs[i].blocks) + TotalBodies(runs[i + 1..])
  {
    hide TotalSize, TotalBodies, BodyBytes, Run.Size;
    TotalsConcat(runs[..i], [runs[i]]);
    TotalsConcat(runs[..i] + [runs[i]], runs[i + 1..]);
    TotalsOne(runs[i]);
    assert runs[..i] + [runs[i]] + runs[i + 1..] == runs;
  }

  lemma TotalsUpdate(runs: seq<Run>, i: nat, r: Run)
    requires i < |runs|
    ensures TotalSize(runs[i := r]) == TotalSize(runs) - runs[i].Size() + r.Size()
    ensures TotalBodies(runs[i := r]) == TotalBodies(runs) - BodyBytes(runs[i].blocks) + BodyBytes(r.blocks)
  {
    TotalsSplit(runs, i);
    TotalsSplit(runs[i := r], i);
    assert runs[i := r][..i] == runs[..i] && runs[i := r][i + 1..] == runs[i + 1..];
  }

  lemma TotalsDrop(runs: seq<Run>, i: nat)
    requires i < |runs|
    ensures TotalSize(runs[..i] + runs[i + 1..]) == TotalSize(runs) - runs[i].Size()
    ensures TotalBodies(runs[..i] + runs[i + 1..]) == TotalBodies(runs) - BodyBytes(runs[i].blocks)
  {
    TotalsSplit(runs, i);
    TotalsConcat(runs[..i], runs[i + 1..]);
  }

  // ---------- gaps ----------

  lemma {:induction false} GapsUpTo(r: Run, n: nat)
    requires n <= |r.blocks|
    ensures GapSum(r, n) == GapStart(r, n) - r.base - MAJOR_HEADER - Used(r.blocks[..n])
  {
    if n > 0 {
      GapsUpTo(r, n - 1);
      assert r.blocks[..n][..n - 1] == r.blocks[..n - 1];
    }
  }

  // size - usage is exactly the sum of the front gap, the middle gaps and the tail.
  lemma FreeIsSumOfGaps(r: Run)
    ensures FreeSpace(r) == GapSum(r, |r.blocks| + 1)
  {
    GapsUpTo(r, |r.blocks|);
    assert r.blocks[..|r.blocks|] == r.blocks;
  }

  lemma {:induction false} GapWithinSum(r: Run, k: nat, n: nat)
    requires GoodRun(r) && n <= |r.blocks| + 1
    ensures GapSum(r, n) >= 0
    ensures k < n ==> Gap(r, k) <= GapSum(r, n)
  {
    if n > 0 {
      GapWithinSum(r, k, n - 1);
      assert Gap(r, n - 1) >= 0;
    }
  }

  // Why a major with too little free space can be skipped without looking at
  // its gaps: no gap is larger than the free space of the whole run.
  lemma NoGapExceedsFree(r: Run, k: nat)
    requires GoodRun(r) && k <= |r.blocks|
    ensures 0 <= Gap(r, k) <= FreeSpace(r)
  {
    FreeIsSumOfGaps(r);
    GapWithinSum(r, k, |r.blocks| + 1);
    assert Gap(r, k) >= 0;
  }

  // ---------- inserting and removing keep a run good ----------

  lemma GoodRunAt(runs: seq<Run>, i: nat)
    requires GoodRuns(runs) && i < |runs|
    ensures GoodRun(runs[i])
  {
  }

  lemma InsertedAt(r: Run, k: nat, b: Block, j: nat)
    requires k <= |r.blocks| && j <= |r.blocks|
    ensures |InsertBlock(r, k, b).blocks| == |r.blocks| + 1
    ensures InsertBlock(r, k, b).blocks[j] == if j < k then r.blocks[j] else if j == k then b else r.blocks[j - 1]
  {
  }

  lemma InsertGood(r: Run, k: nat, b: Block)
    requires GoodRun(r) && k <= |r.blocks|
    requires b.addr == GapStart(r, k) && b.End() <= GapEnd(r, k)
    requires b.req + ALIGNMENT + ALIGN_INFO <= b.size
    ensures GoodRun(InsertBlock(r, k, b))
  {
    var blocks := InsertBlock(r, k, b).blocks;
    forall j | 0 <= j < |blocks|
      ensures && r.base + MAJOR_HEADER <= blocks[j].addr && blocks[j].End() <= r.Limit()
              && blocks[j].req + ALIGNMENT + ALIGN_INFO <= blocks[j].size
              && (j < k ==> blocks[j].End() <= b.addr) && (j > k ==> b.End() <= blocks[j].addr)
    {
      InsertedAt(r, k, b, j);
    }
    forall j, m | 0 <= j < m < |blocks| ensures blocks[j].End() <= blocks[m].addr {
      InsertedAt(r, k, b, j);
      InsertedAt(r, k, b, m);
    }
  }

  lemma RemoveGood(r: Run, k: nat)
    requires GoodRun(r) && k < |r.blocks|
    ensures GoodRun(RemoveBlock(r, k))
  {
  }

  // ---------- look-ups find what is there ----------

  lemma {:induction false} FindBlockBefore(blocks: seq<Block>, k: nat)
    requires k < |blocks|
    ensures FindBlock(blocks, blocks[k].addr) <= k
  {
    if k > 0 {
      FindBlockBefore(blocks[1..], k - 1);
    }
  }

  lemma FindBlockUnique(r: Run, k: nat)
    requires GoodRun(r) && k < |r.blocks|
    ensures FindBlock(r.blocks, r.blocks[k].addr) == k
  {
    FindBlockBefore(r.blocks, k);
  }

  lemma {:induction false} FindRunBefore(runs: seq<Run>, a: nat, i: nat)
    requires i < |runs| && Holds(runs[i], a)
    ensures FindRun(runs, a) <= i
  {
    if i > 0 {
      FindRunBefore(runs[1..], a, i - 1);
    }
  }

  lemma HoldsWhere(r: Run, a: nat)
    requires GoodRun(r) && Holds(r, a)
    ensures r.base < a && a + MINOR_HEADER <= r.Limit()
  {
  }

  lemma FindRunUnique(runs: seq<Run>, i: nat, k: nat)
    requires GoodRuns(runs) && i < |runs| && k < |runs[i].blocks|
    ensures FindRun(runs, runs[i].blocks[k].addr) == i
    ensures FindBlock(runs[i].blocks, runs[i].blocks[k].addr) == k
    ensures Live(runs, runs[i].blocks[k].addr)
    ensures BlockAt(runs, runs[i].blocks[k].addr) == runs[i].blocks[k]
  {
    var a := runs[i].blocks[k].addr;
    FindBlockUnique(runs[i], k);
    FindRunBefore(runs, a, i);
    var j := FindRun(runs, a);
    HoldsWhere(runs[i], a);
    HoldsWhere(runs[j], a);
    assert j < i ==> Apart(runs[j], runs[i]);
  }

  lemma {:induction false} IndexOfBefore(runs: seq<Run>, i: nat)
    requires i < |runs|
    ensures IndexOf(runs, runs[i].base) <= i
  {
    if i > 0 {
      IndexOfBefore(runs[1..], i - 1);
    }
  }

  lemma IndexOfUnique(runs: seq<Run>, i: nat)
    requires GoodRuns(runs) && i < |runs|
    ensures IndexOf(runs, runs[i].base) == i
  {
    IndexOfBefore(runs, i);
    var j := IndexOf(runs, runs[i].base);
    assert j < i ==> Apart(runs[j], runs[i]);
  }

  lemma {:induction false} IndexOfSame(runs: seq<Run>, runs': seq<Run>, base: nat)
    requires |runs| == |runs'| && forall i :: 0 <= i < |runs| ==> runs'[i].base == runs[i].base
    ensures IndexOf(runs', base) == IndexOf(runs, base)
  {
    if runs != [] {
      IndexOfSame(runs[1..], runs'[1..], base);
    }
  }

  // ---------- alignment ----------

  // The caller's pointer is aligned; the note and the requested bytes lie in
  // the block's own body, and the note lies before the requested bytes.
  lemma PayloadInBody(b: Block)
    requires b.req + ALIGNMENT + ALIGN_INFO <= b.size
    ensures b.Payload() % ALIGNMENT == 0
    ensures b.Body() <= TagAddress(b) < b.Payload()
    ensures b.Payload() + b.req < b.End()
    ensures ALIGN_INFO <= Tag(b) < ALIGNMENT + ALIGN_INFO
  {
  }

  // UNALIGN finds the raw address again, so header look-up is exact.
  lemma UnalignInvertsAlign(mem: seq<Byte>, b: Block)
    requires |mem| == ADDRESS_SPACE && Tagged(mem, b) && b.Payload() < ADDRESS_SPACE
    ensures Unalign(mem, b.Payload()) == b.Body()
    ensures HeaderOf(mem, b.Payload()) == b.addr
  {
  }

  // UNALIGN goes back by the note at ptr - 16 if the note is below 32, and leaves
  // the pointer if it is not.
  lemma UnalignByNote(mem: seq<Byte>, p: nat)
    requires |mem| == ADDRESS_SPACE && 32 <= p < ADDRESS_SPACE
    ensures Unalign(mem, p) == if mem[p - 16] < 32 then p - mem[p - 16] else p
  {
  }

  // Differences of addresses are modulo 2^32, and as a C int the representative
  // nearest to 0.
  lemma DifferencesWrap(a: nat, b: nat, x: int)
    requires a < 0x1_0000_0000 && b <= 0x1_0000_0000
    ensures Sub32(a, b) < 0x1_0000_0000 && (a - b - Sub32(a, b)) % 0x1_0000_0000 == 0
    ensures -0x8000_0000 <= Int32(x) < 0x8000_0000 && (x - Int32(x)) % 0x1_0000_0000 == 0
  {
    Modulo(x);
  }

  lemma Modulo(x: int)
    ensures (x - x % ADDRESS_SPACE) % ADDRESS_SPACE == 0
    ensures (x - (x % ADDRESS_SPACE - ADDRESS_SPACE)) % ADDRESS_SPACE == 0
  {
    var q := x / ADDRESS_SPACE;
    assert x == ADDRESS_SPACE * q + x % ADDRESS_SPACE;
    assert (ADDRESS_SPACE * q) % ADDRESS_SPACE == 0;
    assert (ADDRESS_SPACE * (q + 1)) % ADDRESS_SPACE == 0;
  }

  // Different blocks hand out different pointers.
  lemma PayloadsDiffer(b: Block, c: Block)
    requires b.req + ALIGNMENT + ALIGN_INFO <= b.size
    requires b.End() <= c.addr
    ensures b.Payload() + b.req < TagAddress(c)
  {
  }
}
