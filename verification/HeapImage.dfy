// Why headers may be kept apart from the bytes: in the flat memory of the
// machine they occupy bytes that nothing else of the heap uses.
module HeapImage {
  import opened ByteSeqs
  import opened HeapModel
  import opened HeapGeometry
  import opened HeapSafety
  import opened LibAllocStore

  // ---------- header words, least significant byte first ----------

  function EncodeWord(w: nat): (s: seq<Byte>)
    ensures |s| == 4
  {
    [w % 0x100, w / 0x100 % 0x100, w / 0x100 / 0x100 % 0x100, w / 0x100 / 0x100 / 0x100 % 0x100]
  }

  function DecodeWord(s: seq<Byte>): nat
    requires |s| == 4
  {
    var b0: nat, b1: nat, b2: nat, b3: nat := s[0], s[1], s[2], s[3];
    b0 + 0x100 * b1 + 0x1_0000 * b2 + 0x100_0000 * b3
  }

  lemma WordRoundTrip(w: nat)
    requires w < ADDRESS_SPACE
    ensures DecodeWord(EncodeWord(w)) == w
  {
  }

  // The magic and the dead mark as they stand in memory.
  lemma MagicBytes()
    ensures EncodeWord(MAGIC) == [0xde, 0xc0, 0x01, 0xc0] && EncodeWord(DEAD) == [0xad, 0xde, 0xad, 0xde]
  {
  }

  function EncodeMinor(m: Minor): (s: seq<Byte>)
    ensures |s| == MINOR_HEADER
  {
    EncodeWord(m.prev) + EncodeWord(m.next) + EncodeWord(m.block)
    + EncodeWord(m.magic) + EncodeWord(m.size) + EncodeWord(m.req)
  }

  function DecodeMinor(s: seq<Byte>): Minor
    requires |s| == MINOR_HEADER
  {
    Minor(DecodeWord(s[0..4]), DecodeWord(s[4..8]), DecodeWord(s[8..12]),
          DecodeWord(s[12..16]), DecodeWord(s[16..20]), DecodeWord(s[20..24]))
  }

  function EncodeMajor(m: Major): (s: seq<Byte>)
    ensures |s| == MAJOR_HEADER
  {
    EncodeWord(m.prev) + EncodeWord(m.next) + EncodeWord(m.pages)
    + EncodeWord(m.size) + EncodeWord(m.usage) + EncodeWord(m.first)
  }

  function DecodeMajor(s: seq<Byte>): Major
    requires |s| == MAJOR_HEADER
  {
    Major(DecodeWord(s[0..4]), DecodeWord(s[4..8]), DecodeWord(s[8..12]),
          DecodeWord(s[12..16]), DecodeWord(s[16..20]), DecodeWord(s[20..24]))
  }

  lemma SixWords(a: seq<Byte>, b: seq<Byte>, c: seq<Byte>, d: seq<Byte>, e: seq<Byte>, f: seq<Byte>)
    requires |a| == |b| == |c| == |d| == |e| == |f| == 4
    ensures var s := a + b + c + d + e + f;
            && |s| == 24 && s[0..4] == a && s[4..8] == b && s[8..12] == c
            && s[12..16] == d && s[16..20] == e && s[20..24] == f
  {
  }

  // Every header a valid heap calls for survives being written as bytes.
  lemma HeadersRoundTrip(h: Heap, i: nat, k: nat)
    requires Valid(h) && i < |h.runs| && k < |h.runs[i].blocks|
    ensures DecodeMajor(EncodeMajor(MajorOf(h.runs, i))) == MajorOf(h.runs, i)
    ensures DecodeMinor(EncodeMinor(MinorOf(h.runs[i], k))) == MinorOf(h.runs[i], k)
  {
    MajorWords(h, i);
    MinorWords(h, i, k);
    var m := MajorOf(h.runs, i);
    var n := MinorOf(h.runs[i], k);
    MajorRoundTrip(m);
    MinorRoundTrip(n);
  }

  lemma MajorRoundTrip(m: Major)
    requires m.prev < ADDRESS_SPACE && m.next < ADDRESS_SPACE && m.pages < ADDRESS_SPACE
    requires m.size < ADDRESS_SPACE && m.usage < ADDRESS_SPACE && m.first < ADDRESS_SPACE
    ensures DecodeMajor(EncodeMajor(m)) == m
  {
    hide EncodeWord, DecodeWord;
    SixWords(EncodeWord(m.prev), EncodeWord(m.next), EncodeWord(m.pages), EncodeWord(m.size), EncodeWord(m.usage),
             EncodeWord(m.first));
    WordRoundTrip(m.prev);
    WordRoundTrip(m.next);
    WordRoundTrip(m.pages);
    WordRoundTrip(m.size);
    WordRoundTrip(m.usage);
    WordRoundTrip(m.first);
  }

  lemma MinorRoundTrip(m: Minor)
    requires m.prev < ADDRESS_SPACE && m.next < ADDRESS_SPACE && m.block < ADDRESS_SPACE
    requires m.magic < ADDRESS_SPACE && m.size < ADDRESS_SPACE && m.req < ADDRESS_SPACE
    ensures DecodeMinor(EncodeMinor(m)) == m
  {
    hide EncodeWord, DecodeWord;
    SixWords(EncodeWord(m.prev), EncodeWord(m.next), EncodeWord(m.block), EncodeWord(m.magic), EncodeWord(m.size),
             EncodeWord(m.req));
    WordRoundTrip(m.prev);
    WordRoundTrip(m.next);
    WordRoundTrip(m.block);
    WordRoundTrip(m.magic);
    WordRoundTrip(m.size);
    WordRoundTrip(m.req);
  }

  lemma MinorWords(h: Heap, i: nat, k: nat)
    requires Valid(h) && i < |h.runs| && k < |h.runs[i].blocks|
    ensures var m := MinorOf(h.runs[i], k);
            m.prev < ADDRESS_SPACE && m.next < ADDRESS_SPACE && m.block < ADDRESS_SPACE
            && m.magic < ADDRESS_SPACE && m.size < ADDRESS_SPACE && m.req < ADDRESS_SPACE
  {
    hide AllTagged, NoneEmpty, TotalSize, TotalBodies, IndexOf;
    var r := h.runs[i];
    GoodRunAt(h.runs, i);
    assert r.blocks[k].End() <= r.Limit();
    assert k > 0 ==> r.blocks[k - 1].End() <= r.Limit();
    assert k + 1 < |r.blocks| ==> r.blocks[k + 1].End() <= r.Limit();
  }

  lemma MajorWords(h: Heap, i: nat)
    requires Valid(h) && i < |h.runs|
    ensures var m := MajorOf(h.runs, i);
            m.prev < ADDRESS_SPACE && m.next < ADDRESS_SPACE && m.pages < ADDRESS_SPACE
            && m.size < ADDRESS_SPACE && m.usage < ADDRESS_SPACE && m.first < ADDRESS_SPACE
  {
    hide AllTagged, NoneEmpty, TotalSize, TotalBodies, IndexOf, Usage;
    var r := h.runs[i];
    GoodRunAt(h.runs, i);
    if i > 0 { GoodRunAt(h.runs, i - 1); }
    if i + 1 < |h.runs| { GoodRunAt(h.runs, i + 1); }
    if r.blocks != [] { assert r.blocks[0].End() <= r.Limit(); }
    NoGapExceedsFree(r, 0);
  }

  // ---------- the bytes each part of the heap occupies ----------

  datatype Part = MajorHeader(run: nat) | MinorHeader(run: nat, block: nat) | Body(run: nat, block: nat)

  ghost predicate IsPart(h: Heap, p: Part) {
    p.run < |h.runs| && (!p.MajorHeader? ==> p.block < |h.runs[p.run].blocks|)
  }

  function Start(h: Heap, p: Part): nat
    requires IsPart(h, p)
  {
    match p
    case MajorHeader(i) => h.runs[i].base
    case MinorHeader(i, k) => h.runs[i].blocks[k].addr
    case Body(i, k) => h.runs[i].blocks[k].Body()
  }

  function Stop(h: Heap, p: Part): nat
    requires IsPart(h, p)
  {
    match p
    case MajorHeader(i) => h.runs[i].base + MAJOR_HEADER
    case MinorHeader(i, k) => h.runs[i].blocks[k].Body()
    case Body(i, k) => h.runs[i].blocks[k].End()
  }

  // No byte belongs to two parts.
  lemma PartsApart(h: Heap, p: Part, q: Part)
    requires Valid(h) && IsPart(h, p) && IsPart(h, q) && p != q
    ensures Stop(h, p) <= Start(h, q) || Stop(h, q) <= Start(h, p)
    ensures Start(h, p) <= Stop(h, p) <= ADDRESS_SPACE
  {
    hide AllTagged, NoneEmpty, TotalSize, TotalBodies, IndexOf;
    if p.run != q.run {
      PartInRun(h, p);
      PartInRun(h, q);
      assert p.run < q.run ==> Apart(h.runs[p.run], h.runs[q.run]);
      assert q.run < p.run ==> Apart(h.runs[q.run], h.runs[p.run]);
    } else {
      PartInRun(h, p);
      PartsOfRun(h, p, q);
    }
  }

  lemma PartInRun(h: Heap, p: Part)
    requires Valid(h) && IsPart(h, p)
    ensures var r := h.runs[p.run]; r.base <= Start(h, p) <= Stop(h, p) <= r.Limit() <= ADDRESS_SPACE
  {
    hide AllTagged, NoneEmpty, TotalSize, TotalBodies, IndexOf;
    GoodRunAt(h.runs, p.run);
  }

  lemma PartsOfRun(h: Heap, p: Part, q: Part)
    requires Valid(h) && IsPart(h, p) && IsPart(h, q) && p != q && p.run == q.run
    ensures Stop(h, p) <= Start(h, q) || Stop(h, q) <= Start(h, p)
  {
    hide AllTagged, NoneEmpty, TotalSize, TotalBodies, IndexOf, GoodRuns;
    ValidRuns(h);
    GoodRunAt(h.runs, p.run);
    if !p.MajorHeader? && !q.MajorHeader? && p.block != q.block {
      BlocksApart(h.runs, p.run, p.block, q.run, q.block);
    }
  }

  // ---------- one flat memory ----------

  function Slice(bytes: seq<Byte>, lo: nat, hi: nat): seq<Byte> {
    if lo <= hi <= |bytes| then bytes[lo..hi] else []
  }

  lemma WriteApart(bytes: seq<Byte>, at: nat, data: seq<Byte>, lo: nat, hi: nat)
    requires at + |data| <= |bytes| && lo <= hi <= |bytes|
    ensures var bytes' := bytes[..at] + data + bytes[at + |data|..];
            && |bytes'| == |bytes|
            && (hi <= at || at + |data| <= lo ==> bytes'[lo..hi] == bytes[lo..hi])
            && (lo == at && hi == at + |data| ==> bytes'[lo..hi] == data)
  {
    var bytes' := bytes[..at] + data + bytes[at + |data|..];
    assert forall x :: 0 <= x < at || at + |data| <= x < |bytes| ==> bytes'[x] == bytes[x];
  }

  // Overwriting one part, be it a header or a body, leaves every other part
  // of the heap showing what it showed.
  lemma WriteIsLocal(bytes: seq<Byte>, h: Heap, p: Part, data: seq<Byte>, q: Part)
    requires Valid(h) && |bytes| == ADDRESS_SPACE && IsPart(h, p) && IsPart(h, q)
    requires Start(h, p) + |data| == Stop(h, p) <= ADDRESS_SPACE
    ensures var bytes' := bytes[..Start(h, p)] + data + bytes[Stop(h, p)..];
            && |bytes'| == ADDRESS_SPACE
            && Slice(bytes', Start(h, q), Stop(h, q)) == if q == p then data else Slice(bytes, Start(h, q), Stop(h, q))
  {
    hide Valid, Start, Stop;
    if p != q {
      PartsApart(h, p, q);
      PartsApart(h, q, p);
    }
    WriteApart(bytes, Start(h, p), data, Start(h, q), Stop(h, q));
  }
}
