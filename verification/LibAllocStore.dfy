// The headers liballoc keeps in memory: the two linked lists, the relation to
// the runs they stand for, and what each piece of pointer surgery does.
module LibAllocStore {
  import opened HeapModel
  import opened HeapGeometry
  import opened HeapContents

  datatype Major = Major(prev: nat, next: nat, pages: nat, size: nat, usage: nat, first: nat)

  datatype Minor = Minor(prev: nat, next: nat, block: nat, magic: nat, size: nat, req: nat)

  // ---------- the headers a list of runs calls for ----------

  function RootOf(runs: seq<Run>): nat { if runs == [] then 0 else runs[0].base }

  function FirstOf(blocks: seq<Block>): nat { if blocks == [] then 0 else blocks[0].addr }

  function MajorOf(runs: seq<Run>, i: nat): Major
    requires i < |runs|
  {
    Major(if i == 0 then 0 else runs[i - 1].base,
          if i + 1 == |runs| then 0 else runs[i + 1].base,
          runs[i].pages, runs[i].Size(), Usage(runs[i]), FirstOf(runs[i].blocks))
  }

  function MinorOf(r: Run, k: nat): Minor
    requires k < |r.blocks|
  {
    Minor(if k == 0 then 0 else r.blocks[k - 1].addr,
          if k + 1 == |r.blocks| then 0 else r.blocks[k + 1].addr,
          r.base, MAGIC, r.blocks[k].size, r.blocks[k].req)
  }

  ghost predicate MajorsMatch(majors: map<nat, Major>, runs: seq<Run>) {
    forall i :: 0 <= i < |runs| ==> runs[i].base in majors && majors[runs[i].base] == MajorOf(runs, i)
  }

  ghost predicate MinorsMatch(minors: map<nat, Minor>, runs: seq<Run>) {
    forall i, k :: 0 <= i < |runs| && 0 <= k < |runs[i].blocks| ==>
      runs[i].blocks[k].addr in minors && minors[runs[i].blocks[k].addr] == MinorOf(runs[i], k)
  }

  // A header that carries the magic is the header of a live block.
  ghost predicate MagicMatch(minors: map<nat, Minor>, runs: seq<Run>) {
    forall a :: a in minors && minors[a].magic == MAGIC ==> Live(runs, a)
  }

  ghost predicate Represents(majors: map<nat, Major>, minors: map<nat, Minor>, root: nat, runs: seq<Run>) {
    root == RootOf(runs) && MajorsMatch(majors, runs) && MinorsMatch(minors, runs) && MagicMatch(minors, runs)
  }

  // ---------- addresses name headers uniquely ----------

  lemma BaseDiffers(runs: seq<Run>, i: nat, j: nat)
    requires GoodRuns(runs) && i < |runs| && j < |runs| && i != j
    ensures runs[i].base != runs[j].base
  {
    IndexOfUnique(runs, i);
    IndexOfUnique(runs, j);
  }

  lemma AddrDiffers(runs: seq<Run>, i: nat, k: nat, j: nat, m: nat)
    requires GoodRuns(runs)
    requires i < |runs| && k < |runs[i].blocks| && j < |runs| && m < |runs[j].blocks| && (i, k) != (j, m)
    ensures runs[i].blocks[k].addr != runs[j].blocks[m].addr
  {
    FindRunUnique(runs, i, k);
    FindRunUnique(runs, j, m);
  }

  lemma NotNull(runs: seq<Run>, i: nat)
    requires GoodRuns(runs) && i < |runs|
    ensures runs[i].base != 0
    ensures forall k :: 0 <= k < |runs[i].blocks| ==> runs[i].blocks[k].addr != 0
  {
  }

  // ---------- changing one run ----------

  lemma MajorOfOther(runs: seq<Run>, i: nat, r: Run, j: nat)
    requires i < |runs| && j < |runs| && j != i && r.base == runs[i].base
    ensures MajorOf(runs[i := r], j) == MajorOf(runs, j)
  {
    hide Usage;
  }

  lemma MajorsAfterUpdate(majors: map<nat, Major>, runs: seq<Run>, i: nat, r: Run)
    requires GoodRuns(runs) && MajorsMatch(majors, runs) && i < |runs|
    requires r.base == runs[i].base && r.pages == runs[i].pages
    ensures MajorsMatch(majors[r.base := MajorOf(runs[i := r], i)], runs[i := r])
  {
    hide GoodRuns, Usage, MajorOf;
    var runs' := runs[i := r];
    forall j | 0 <= j < |runs'|
      ensures var m := majors[r.base := MajorOf(runs', i)];
              runs'[j].base in m && m[runs'[j].base] == MajorOf(runs', j)
    {
      if j != i {
        BaseDiffers(runs, i, j);
        MajorOfOther(runs, i, r, j);
      }
    }
  }

  // The header map after b became block k of r', its neighbours told about it.
  function Linked(minors: map<nat, Minor>, r': Run, k: nat): map<nat, Minor>
    requires k < |r'.blocks|
  {
    var m0 := minors[r'.blocks[k].addr := MinorOf(r', k)];
    var m1 := if k > 0 then m0[r'.blocks[k - 1].addr := MinorOf(r', k - 1)] else m0;
    if k + 1 < |r'.blocks| then m1[r'.blocks[k + 1].addr := MinorOf(r', k + 1)] else m1
  }

  lemma BlocksDiffer(r: Run, k: nat, m: nat)
    requires GoodRun(r) && k < |r.blocks| && m < |r.blocks| && k != m
    ensures r.blocks[k].addr != r.blocks[m].addr
  {
    FindBlockUnique(r, k);
    FindBlockUnique(r, m);
  }

  lemma LinkedAt(minors: map<nat, Minor>, r': Run, k: nat, m: nat)
    requires GoodRun(r') && k < |r'.blocks| && m < |r'.blocks|
    ensures k - 1 <= m <= k + 1 ==>
              r'.blocks[m].addr in Linked(minors, r', k) && Linked(minors, r', k)[r'.blocks[m].addr] == MinorOf(r', m)
  {
    hide GoodRun, MinorOf;
    if k > 0 { BlocksDiffer(r', k - 1, k); }
    if k + 1 < |r'.blocks| { BlocksDiffer(r', k, k + 1); }
    if 0 < k && k + 1 < |r'.blocks| { BlocksDiffer(r', k - 1, k + 1); }
  }

  lemma LinkedElsewhere(minors: map<nat, Minor>, r': Run, k: nat, a: nat)
    requires k < |r'.blocks| && a != r'.blocks[k].addr
    requires k > 0 ==> a != r'.blocks[k - 1].addr
    requires k + 1 < |r'.blocks| ==> a != r'.blocks[k + 1].addr
    ensures (a in Linked(minors, r', k) <==> a in minors) && (a in minors ==> Linked(minors, r', k)[a] == minors[a])
  {
  }

  lemma MinorOfInserted(r: Run, k: nat, b: Block, m: nat)
    requires k <= |r.blocks| && m <= |r.blocks| && (m < k - 1 || m > k + 1)
    ensures var m' := if m > k then m - 1 else m;
            && InsertBlock(r, k, b).blocks[m] == r.blocks[m']
            && MinorOf(InsertBlock(r, k, b), m) == MinorOf(r, m')
  {
  }

  lemma MinorAfterInsert(minors: map<nat, Minor>, runs: seq<Run>, i: nat, k: nat, b: Block, j: nat, m: nat)
    requires MinorsMatch(minors, runs) && i < |runs| && k <= |runs[i].blocks|
    requires GoodRuns(runs[i := InsertBlock(runs[i], k, b)])
    requires j < |runs| && m < |runs[i := InsertBlock(runs[i], k, b)][j].blocks|
    requires j != i || m < k - 1 || m > k + 1
    ensures var r' := InsertBlock(runs[i], k, b); var runs' := runs[i := r']; var a := runs'[j].blocks[m].addr;
            a in Linked(minors, r', k) && Linked(minors, r', k)[a] == MinorOf(runs'[j], m)
  {
    hide GoodRuns, Linked, MinorOf;
    var r' := InsertBlock(runs[i], k, b);
    var runs' := runs[i := r'];
    AddrDiffers(runs', i, k, j, m);
    if k > 0 { AddrDiffers(runs', i, k - 1, j, m); }
    if k + 1 < |r'.blocks| { AddrDiffers(runs', i, k + 1, j, m); }
    if j == i { MinorOfInserted(runs[i], k, b, m); }
    LinkedElsewhere(minors, r', k, runs'[j].blocks[m].addr);
  }

  lemma MinorsAfterInsert(minors: map<nat, Minor>, runs: seq<Run>, i: nat, k: nat, b: Block)
    requires MinorsMatch(minors, runs) && i < |runs| && k <= |runs[i].blocks|
    requires GoodRuns(runs[i := InsertBlock(runs[i], k, b)])
    ensures var r' := InsertBlock(runs[i], k, b); MinorsMatch(Linked(minors, r', k), runs[i := r'])
  {
    hide GoodRuns, Linked, MinorOf;
    var r' := InsertBlock(runs[i], k, b);
    var runs' := runs[i := r'];
    assert GoodRun(r') by { assert runs'[i] == r'; GoodRunAt(runs', i); }
    forall j, m | 0 <= j < |runs'| && 0 <= m < |runs'[j].blocks|
      ensures var a := runs'[j].blocks[m].addr;
              a in Linked(minors, r', k) && Linked(minors, r', k)[a] == MinorOf(runs'[j], m)
    {
      if j == i && k - 1 <= m <= k + 1 {
        LinkedAt(minors, r', k, m);
      } else {
        MinorAfterInsert(minors, runs, i, k, b, j, m);
      }
    }
  }

  lemma MagicAfterInsert(minors: map<nat, Minor>, runs: seq<Run>, i: nat, k: nat, b: Block)
    requires MagicMatch(minors, runs) && i < |runs| && k <= |runs[i].blocks|
    requires GoodRuns(runs[i := InsertBlock(runs[i], k, b)])
    ensures var r' := InsertBlock(runs[i], k, b); MagicMatch(Linked(minors, r', k), runs[i := r'])
  {
    hide GoodRuns, Linked, Live;
    var r' := InsertBlock(runs[i], k, b);
    var runs' := runs[i := r'];
    forall a | a in Linked(minors, r', k) && Linked(minors, r', k)[a].magic == MAGIC ensures Live(runs', a) {
      if a == b.addr {
        FindRunUnique(runs', i, k);
      } else if k > 0 && a == r'.blocks[k - 1].addr {
        FindRunUnique(runs', i, k - 1);
      } else if k + 1 < |r'.blocks| && a == r'.blocks[k + 1].addr {
        FindRunUnique(runs', i, k + 1);
      } else {
        LinkedElsewhere(minors, r', k, a);
        InsertStaysLive(runs, i, k, b, a);
      }
    }
  }

  // Linking in a new block.
  lemma RepresentsInsert(majors: map<nat, Major>, minors: map<nat, Minor>, root: nat, runs: seq<Run>,
                         i: nat, k: nat, b: Block)
    requires Represents(majors, minors, root, runs) && GoodRuns(runs) && i < |runs| && k <= |runs[i].blocks|
    requires GoodRuns(runs[i := InsertBlock(runs[i], k, b)])
    ensures var r' := InsertBlock(runs[i], k, b); var runs' := runs[i := r'];
            Represents(majors[r'.base := MajorOf(runs', i)], Linked(minors, r', k), root, runs')
  {
    hide GoodRuns, MajorsMatch, MinorsMatch, MagicMatch, Linked, MajorOf;
    MajorsAfterUpdate(majors, runs, i, InsertBlock(runs[i], k, b));
    MinorsAfterInsert(minors, runs, i, k, b);
    MagicAfterInsert(minors, runs, i, k, b);
  }

  // ---------- unlinking a block ----------

  // The header map after block k of r left: marked dead, its neighbours joined.
  function Unlinked(minors: map<nat, Minor>, r: Run, k: nat): map<nat, Minor>
    requires k < |r.blocks|
  {
    var r' := RemoveBlock(r, k);
    var m0 := minors[r.blocks[k].addr := MinorOf(r, k).(magic := DEAD)];
    var m1 := if k > 0 then m0[r.blocks[k - 1].addr := MinorOf(r', k - 1)] else m0;
    if k + 1 < |r.blocks| then m1[r.blocks[k + 1].addr := MinorOf(r', k)] else m1
  }

  lemma UnlinkedAt(minors: map<nat, Minor>, r: Run, k: nat, m: nat)
    requires GoodRun(r) && k < |r.blocks| && m < |RemoveBlock(r, k).blocks| && k - 1 <= m <= k
    ensures var r' := RemoveBlock(r, k); var a := r'.blocks[m].addr;
            a in Unlinked(minors, r, k) && Unlinked(minors, r, k)[a] == MinorOf(r', m)
  {
    hide GoodRun, MinorOf;
    if k > 0 { BlocksDiffer(r, k - 1, k); }
    if k + 1 < |r.blocks| { BlocksDiffer(r, k, k + 1); }
    if 0 < k && k + 1 < |r.blocks| { BlocksDiffer(r, k - 1, k + 1); }
  }

  lemma UnlinkedElsewhere(minors: map<nat, Minor>, r: Run, k: nat, a: nat)
    requires k < |r.blocks| && a != r.blocks[k].addr
    requires k > 0 ==> a != r.blocks[k - 1].addr
    requires k + 1 < |r.blocks| ==> a != r.blocks[k + 1].addr
    ensures (a in Unlinked(minors, r, k) <==> a in minors) && (a in minors ==> Unlinked(minors, r, k)[a] == minors[a])
  {
  }

  lemma UnlinkedDead(minors: map<nat, Minor>, r: Run, k: nat)
    requires GoodRun(r) && k < |r.blocks|
    ensures r.blocks[k].addr in Unlinked(minors, r, k) && Unlinked(minors, r, k)[r.blocks[k].addr].magic == DEAD
  {
    hide GoodRun;
    if k > 0 { BlocksDiffer(r, k - 1, k); }
    if k + 1 < |r.blocks| { BlocksDiffer(r, k, k + 1); }
  }

  // Block m of run j matches, its place counted in run i without block k.
  ghost predicate StillMatches(u: map<nat, Minor>, runs: seq<Run>, i: nat, k: nat, j: nat, m: nat)
    requires i < |runs| && k < |runs[i].blocks| && j < |runs| && m < |runs[j].blocks| && (j, m) != (i, k)
  {
    var a := runs[j].blocks[m].addr;
    a in u &&
    u[a] == if j != i then MinorOf(runs[j], m) else MinorOf(RemoveBlock(runs[i], k), if m > k then m - 1 else m)
  }

  lemma MinorOfRemoved(r: Run, k: nat, m: nat)
    requires k < |r.blocks| && m < |r.blocks| && (m < k - 1 || m > k + 1)
    ensures var m' := if m > k then m - 1 else m;
            m' < |RemoveBlock(r, k).blocks| && MinorOf(RemoveBlock(r, k), m') == MinorOf(r, m)
  {
  }

  lemma MinorNearRemove(minors: map<nat, Minor>, runs: seq<Run>, i: nat, k: nat, m: nat)
    requires GoodRuns(runs) && i < |runs| && k < |runs[i].blocks| && m < |runs[i].blocks|
    requires m != k && k - 1 <= m <= k + 1
    ensures StillMatches(Unlinked(minors, runs[i], k), runs, i, k, i, m)
  {
    hide GoodRuns, Unlinked, MinorOf;
    GoodRunAt(runs, i);
    UnlinkedAt(minors, runs[i], k, if m > k then m - 1 else m);
  }

  lemma MinorAfterRemove(minors: map<nat, Minor>, runs: seq<Run>, i: nat, k: nat, j: nat, m: nat)
    requires MinorsMatch(minors, runs) && GoodRuns(runs)
    requires i < |runs| && k < |runs[i].blocks| && j < |runs| && m < |runs[j].blocks| && (j, m) != (i, k)
    ensures StillMatches(Unlinked(minors, runs[i], k), runs, i, k, j, m)
  {
    hide GoodRuns, Unlinked, MinorOf;
    if j == i && k - 1 <= m <= k + 1 {
      MinorNearRemove(minors, runs, i, k, m);
    } else {
      AddrDiffers(runs, i, k, j, m);
      if k > 0 { AddrDiffers(runs, i, k - 1, j, m); }
      if k + 1 < |runs[i].blocks| { AddrDiffers(runs, i, k + 1, j, m); }
      UnlinkedElsewhere(minors, runs[i], k, runs[j].blocks[m].addr);
      if j == i { MinorOfRemoved(runs[i], k, m); }
    }
  }

  lemma MagicAfterRemove(minors: map<nat, Minor>, runs: seq<Run>, i: nat, k: nat, a: nat)
    requires MagicMatch(minors, runs) && GoodRuns(runs) && i < |runs| && k < |runs[i].blocks|
    requires a in Unlinked(minors, runs[i], k) && Unlinked(minors, runs[i], k)[a].magic == MAGIC
    ensures Live(runs, a) && a != runs[i].blocks[k].addr
  {
    hide GoodRuns, Unlinked, Live;
    GoodRunAt(runs, i);
    UnlinkedDead(minors, runs[i], k);
    if k > 0 && a == runs[i].blocks[k - 1].addr {
      FindRunUnique(runs, i, k - 1);
    } else if k + 1 < |runs[i].blocks| && a == runs[i].blocks[k + 1].addr {
      FindRunUnique(runs, i, k + 1);
    } else {
      UnlinkedElsewhere(minors, runs[i], k, a);
    }
  }

  lemma RepresentsRemove(majors: map<nat, Major>, minors: map<nat, Minor>, root: nat, runs: seq<Run>, i: nat, k: nat)
    requires Represents(majors, minors, root, runs) && GoodRuns(runs) && i < |runs| && k < |runs[i].blocks|
    requires GoodRuns(runs[i := RemoveBlock(runs[i], k)])
    ensures var r' := RemoveBlock(runs[i], k); var runs' := runs[i := r'];
            Represents(majors[r'.base := MajorOf(runs', i)], Unlinked(minors, runs[i], k), root, runs')
  {
    hide GoodRuns, Unlinked, Live, MajorsMatch, MajorOf, MinorOf;
    var r' := RemoveBlock(runs[i], k);
    var runs' := runs[i := r'];
    MajorsAfterUpdate(majors, runs, i, r');
    forall j, m | 0 <= j < |runs'| && 0 <= m < |runs'[j].blocks|
      ensures var a := runs'[j].blocks[m].addr; var u := Unlinked(minors, runs[i], k);
              a in u && u[a] == MinorOf(runs'[j], m)
    {
      MinorAfterRemove(minors, runs, i, k, j, if j == i && m >= k then m + 1 else m);
    }
    forall a | a in Unlinked(minors, runs[i], k) && Unlinked(minors, runs[i], k)[a].magic == MAGIC
      ensures Live(runs', a)
    {
      MagicAfterRemove(minors, runs, i, k, a);
      RemoveStaysLive(runs, i, k, a);
    }
  }

  // ---------- adding and dropping runs ----------

  // The major map after run i left, its neighbours joined.
  function Joined(majors: map<nat, Major>, runs: seq<Run>, i: nat): map<nat, Major>
    requires i < |runs|
  {
    var rest := runs[..i] + runs[i + 1..];
    var m0 := if i > 0 then majors[runs[i - 1].base := MajorOf(rest, i - 1)] else majors;
    var m1 := if i + 1 < |runs| then m0[runs[i + 1].base := MajorOf(rest, i)] else m0;
    m1 - {runs[i].base}
  }

  lemma MajorOfDropped(runs: seq<Run>, i: nat, j: nat)
    requires i < |runs| && j < |runs| - 1 && j + 1 != i && j != i
    ensures var j' := if j < i then j else j + 1; MajorOf(runs[..i] + runs[i + 1..], j) == MajorOf(runs, j')
  {
  }

  lemma JoinedAt(majors: map<nat, Major>, runs: seq<Run>, i: nat, j: nat)
    requires GoodRuns(runs) && MajorsMatch(majors, runs) && i < |runs| && j < |runs| - 1
    ensures var rest := runs[..i] + runs[i + 1..]; var m := Joined(majors, runs, i);
            rest[j].base in m && m[rest[j].base] == MajorOf(rest, j)
  {
    hide GoodRuns, MajorOf;
    var j' := if j < i then j else j + 1;
    BaseDiffers(runs, i, j');
    if i > 0 && j' != i - 1 { BaseDiffers(runs, i - 1, j'); }
    if i + 1 < |runs| && j' != i + 1 { BaseDiffers(runs, i + 1, j'); }
    if j + 1 != i && j != i { MajorOfDropped(runs, i, j); }
  }

  lemma MajorsAfterDrop(majors: map<nat, Major>, runs: seq<Run>, i: nat)
    requires GoodRuns(runs) && MajorsMatch(majors, runs) && i < |runs|
    ensures MajorsMatch(Joined(majors, runs, i), runs[..i] + runs[i + 1..])
  {
    hide GoodRuns, Joined, MajorOf;
    var rest := runs[..i] + runs[i + 1..];
    var m := Joined(majors, runs, i);
    forall j | 0 <= j < |rest| ensures rest[j].base in m && m[rest[j].base] == MajorOf(rest, j) {
      JoinedAt(majors, runs, i, j);
    }
  }

  lemma RepresentsDrop(majors: map<nat, Major>, minors: map<nat, Minor>, root: nat, runs: seq<Run>, i: nat)
    requires Represents(majors, minors, root, runs) && GoodRuns(runs) && i < |runs| && |runs[i].blocks| == 1
    requires GoodRuns(runs[..i] + runs[i + 1..])
    ensures var rest := runs[..i] + runs[i + 1..];
            Represents(Joined(majors, runs, i), Unlinked(minors, runs[i], 0), RootOf(rest), rest)
  {
    hide GoodRuns, Unlinked, Joined, Live, MajorsMatch, MajorOf, MinorOf;
    var rest := runs[..i] + runs[i + 1..];
    MajorsAfterDrop(majors, runs, i);
    forall j, m | 0 <= j < |rest| && 0 <= m < |rest[j].blocks|
      ensures var a := rest[j].blocks[m].addr; var u := Unlinked(minors, runs[i], 0);
              a in u && u[a] == MinorOf(rest[j], m)
    {
      var j' := if j < i then j else j + 1;
      assert rest[j] == runs[j'];
      MinorAfterRemove(minors, runs, i, 0, j', m);
    }
    forall a | a in Unlinked(minors, runs[i], 0) && Unlinked(minors, runs[i], 0)[a].magic == MAGIC
      ensures Live(rest, a)
    {
      MagicAfterRemove(minors, runs, i, 0, a);
      LiveNotIn(runs, i, a);
      DropStaysLive(runs, i, a);
    }
  }

  lemma LiveNotIn(runs: seq<Run>, i: nat, a: nat)
    requires GoodRuns(runs) && i < |runs| && |runs[i].blocks| == 1
    requires Live(runs, a) && a != runs[i].blocks[0].addr
    ensures FindRun(runs, a) != i
  {
  }

  // The major map after a fresh, still empty run was linked to the end.
  function Appended(majors: map<nat, Major>, runs: seq<Run>, r: Run): map<nat, Major>
    requires r.blocks == []
  {
    var runs' := runs + [r];
    var m0 := if runs != [] then majors[runs[|runs| - 1].base := MajorOf(runs', |runs| - 1)] else majors;
    m0[r.base := MajorOf(runs', |runs|)]
  }

  lemma MajorOfAppended(runs: seq<Run>, r: Run, j: nat)
    requires j + 1 < |runs|
    ensures MajorOf(runs + [r], j) == MajorOf(runs, j)
  {
  }

  lemma MajorsAfterAppend(majors: map<nat, Major>, runs: seq<Run>, r: Run)
    requires MajorsMatch(majors, runs) && r.blocks == [] && GoodRuns(runs + [r])
    ensures MajorsMatch(Appended(majors, runs, r), runs + [r])
  {
    hide GoodRuns, MajorOf;
    var runs' := runs + [r];
    var m := Appended(majors, runs, r);
    forall j | 0 <= j < |runs'| ensures runs'[j].base in m && m[runs'[j].base] == MajorOf(runs', j) {
      if j < |runs| { BaseDiffers(runs', |runs|, j); }
      if j + 1 < |runs| {
        BaseDiffers(runs', |runs| - 1, j);
        MajorOfAppended(runs, r, j);
      }
    }
  }

  lemma RepresentsAppend(majors: map<nat, Major>, minors: map<nat, Minor>, root: nat, runs: seq<Run>, r: Run)
    requires Represents(majors, minors, root, runs) && r.blocks == [] && GoodRuns(runs + [r])
    ensures Represents(Appended(majors, runs, r), minors, RootOf(runs + [r]), runs + [r])
  {
    hide GoodRuns, MajorsMatch, MajorOf, MinorOf, Live, Appended;
    MajorsAfterAppend(majors, runs, r);
    forall a | a in minors && minors[a].magic == MAGIC ensures Live(runs + [r], a) {
      AppendStaysLive(runs, r, a);
    }
  }

  lemma AppendStaysLive(runs: seq<Run>, r: Run, a: nat)
    requires Live(runs, a)
    ensures Live(runs + [r], a)
  {
    var i := FindRun(runs, a);
    FindRunBefore(runs + [r], a, i);
  }

  // ---------- changing a request ----------

  function WithReq(runs: seq<Run>, i: nat, k: nat, req: nat): seq<Run>
    requires i < |runs| && k < |runs[i].blocks|
  {
    runs[i := runs[i].(blocks := runs[i].blocks[k := runs[i].blocks[k].(req := req)])]
  }

  lemma MinorSetReq(r: Run, k: nat, req: nat, m: nat)
    requires k < |r.blocks| && m < |r.blocks|
    ensures var r' := r.(blocks := r.blocks[k := r.blocks[k].(req := req)]);
            && r'.blocks[m].addr == r.blocks[m].addr
            && MinorOf(r', m) == if m == k then MinorOf(r, k).(req := req) else MinorOf(r, m)
  {
  }

  // Shrinking changes one field of one header.
  lemma HeadersSetReq(runs: seq<Run>, i: nat, k: nat, req: nat, j: nat)
    requires i < |runs| && k < |runs[i].blocks| && j < |runs|
    ensures var runs' := WithReq(runs, i, k, req);
            && |runs'| == |runs| && |runs'[j].blocks| == |runs[j].blocks| && runs'[j].base == runs[j].base
            && MajorOf(runs', j) == MajorOf(runs, j)
            && forall m :: 0 <= m < |runs[j].blocks| ==>
                 && runs'[j].blocks[m].addr == runs[j].blocks[m].addr
                 && MinorOf(runs'[j], m) ==
                    if (j, m) == (i, k) then MinorOf(runs[i], k).(req := req) else MinorOf(runs[j], m)
  {
    hide Usage, MinorOf;
    ShrunkUsage(runs[i], k, req);
    forall m | 0 <= m < |runs[i].blocks| { MinorSetReq(runs[i], k, req, m); }
  }

  lemma MajorsSetReq(majors: map<nat, Major>, runs: seq<Run>, i: nat, k: nat, req: nat)
    requires MajorsMatch(majors, runs) && i < |runs| && k < |runs[i].blocks|
    ensures MajorsMatch(majors, WithReq(runs, i, k, req)) && RootOf(WithReq(runs, i, k, req)) == RootOf(runs)
  {
    hide MajorOf, WithReq;
    var runs' := WithReq(runs, i, k, req);
    HeadersSetReq(runs, i, k, req, 0);
    forall j | 0 <= j < |runs'| ensures runs'[j].base in majors && majors[runs'[j].base] == MajorOf(runs', j) {
      HeadersSetReq(runs, i, k, req, j);
    }
  }

  lemma MagicSetReq(minors: map<nat, Minor>, runs: seq<Run>, i: nat, k: nat, req: nat)
    requires MagicMatch(minors, runs) && GoodRuns(runs) && i < |runs| && k < |runs[i].blocks|
    requires req <= runs[i].blocks[k].req
    ensures MagicMatch(minors[runs[i].blocks[k].addr := MinorOf(runs[i], k).(req := req)], WithReq(runs, i, k, req))
  {
    hide GoodRuns, Live;
    var runs' := WithReq(runs, i, k, req);
    ShrunkRunsGood(runs, i, k, req);
    FindRunUnique(runs', i, k);
    forall a | a in minors && minors[a].magic == MAGIC ensures Live(runs', a) {
      SetReqStaysLive(runs, runs', a);
    }
  }

  lemma RepresentsSetReq(majors: map<nat, Major>, minors: map<nat, Minor>, root: nat, runs: seq<Run>,
                         i: nat, k: nat, req: nat)
    requires Represents(majors, minors, root, runs) && GoodRuns(runs) && i < |runs| && k < |runs[i].blocks|
    requires req <= runs[i].blocks[k].req
    ensures Represents(majors, minors[runs[i].blocks[k].addr := MinorOf(runs[i], k).(req := req)], root,
                       WithReq(runs, i, k, req))
  {
    hide GoodRuns, MajorsMatch, MinorsMatch, MagicMatch, WithReq, RootOf, MinorOf;
    MajorsSetReq(majors, runs, i, k, req);
    MinorsSetReq(minors, runs, i, k, req);
    MagicSetReq(minors, runs, i, k, req);
  }

  lemma MinorsSetReq(minors: map<nat, Minor>, runs: seq<Run>, i: nat, k: nat, req: nat)
    requires MinorsMatch(minors, runs) && GoodRuns(runs) && i < |runs| && k < |runs[i].blocks|
    ensures MinorsMatch(minors[runs[i].blocks[k].addr := MinorOf(runs[i], k).(req := req)], WithReq(runs, i, k, req))
  {
    hide GoodRuns, MinorOf, MajorOf, WithReq;
    var runs' := WithReq(runs, i, k, req);
    HeadersSetReq(runs, i, k, req, i);
    forall j, m | 0 <= j < |runs'| && 0 <= m < |runs'[j].blocks|
      ensures var u := minors[runs[i].blocks[k].addr := MinorOf(runs[i], k).(req := req)];
              var a := runs'[j].blocks[m].addr; a in u && u[a] == MinorOf(runs'[j], m)
    {
      HeadersSetReq(runs, i, k, req, j);
      if (j, m) != (i, k) { AddrDiffers(runs, i, k, j, m); }
    }
  }

  lemma ShrunkUsage(r: Run, k: nat, req: nat)
    requires k < |r.blocks|
    ensures Usage(r.(blocks := r.blocks[k := r.blocks[k].(req := req)])) == Usage(r)
  {
    var r' := r.(blocks := r.blocks[k := r.blocks[k].(req := req)]);
    assert RemoveBlock(r', k) == RemoveBlock(r, k);
    UsedRemove(r', k);
    UsedRemove(r, k);
  }

  lemma SetReqStaysLive(runs: seq<Run>, runs': seq<Run>, a: nat)
    requires Live(runs, a) && |runs'| == |runs| && GoodRuns(runs')
    requires forall j :: 0 <= j < |runs| ==> |runs'[j].blocks| == |runs[j].blocks|
    requires forall j, m :: 0 <= j < |runs| && 0 <= m < |runs[j].blocks| ==>
               runs'[j].blocks[m].addr == runs[j].blocks[m].addr
    ensures Live(runs', a)
  {
    hide GoodRuns;
    var j := FindRun(runs, a);
    FindRunUnique(runs', j, FindBlock(runs[j].blocks, a));
  }
}
