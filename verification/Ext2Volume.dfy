// Where an ext2 volume keeps its blocks and its inodes.
module Ext2Volume {
  import opened Arith
  import opened ByteSeqs

  const WORD := TWO_32   // uint32_t arithmetic is modulo this
  const SECTOR := 512
  const INODE_BYTES := 128      // sizeof(struct ext2_inode)
  const GROUP_BYTES := 32       // sizeof(struct ext2_bgdt)
  const TABLE_AT := 8           // inode_table in a group descriptor
  const DIRECT := 12
  const SIZE_AT := 4
  const POINTERS_AT := 40
  const SINGLE_AT := 88
  const DOUBLE_AT := 92

  type Sector = s: Bytes | |s| == SECTOR witness Zeros(SECTOR)

  // A mounted volume: the device under it, and what mounting took from the
  // superblock. The block size is a whole number of sectors.
  datatype Volume = Volume(device: nat -> Sector, startLba: nat, sectorsPerBlock: nat,
                           totalBlocks: nat, inodesPerGroup: nat, inodeSize: nat)
  {
    function BlockSize(): nat { SECTOR * sectorsPerBlock }
    function BgdtBlock(): nat { if BlockSize() > 1024 then 1 else 2 }
    // Block sizes are 1024 << k in 32 bits.
    predicate Mounted() {
      2 <= sectorsPerBlock < 0x80_0000 && inodesPerGroup > 0 && 0 < inodeSize <= BlockSize()
    }
  }

  function Le16(s: Bytes, at: nat): (r: nat)
    requires at + 2 <= |s|
    ensures r < 0x1_0000
  {
    var low: int, high: int := s[at], s[at + 1];
    low + 0x100 * high
  }

  function Le32(s: Bytes, at: nat): (r: nat)
    requires at + 4 <= |s|
    ensures r < WORD
  {
    Le16(s, at) + 0x1_0000 * Le16(s, at + 2)
  }

  function PutLe16(x: nat): (s: Bytes)
    requires x < 0x1_0000
    ensures |s| == 2 && Le16(s, 0) == x
  {
    [x % 0x100, x / 0x100]
  }

  function PutLe32(x: nat): (s: Bytes)
    requires x < WORD
    ensures |s| == 4 && Le32(s, 0) == x
  {
    var low, high := PutLe16(x % 0x1_0000), PutLe16(x / 0x1_0000);
    var r := low + high;
    assert Le16(r, 0) == Le16(low, 0) && Le16(r, 2) == Le16(high, 0);
    r
  }

  // ---------- inodes and descriptors as they are written ----------

  type Half = x: int | 0 <= x < 0x1_0000

  type Word = x: int | 0 <= x < WORD

  function Words(ws: seq<Word>): (s: Bytes)
    ensures |s| == 4 * |ws|
  {
    if ws == [] then [] else Words(ws[..|ws| - 1]) + PutLe32(ws[|ws| - 1])
  }

  lemma {:induction false} WordAt(ws: seq<Word>, i: nat)
    requires i < |ws|
    ensures Le32(Words(ws), 4 * i) == ws[i]
  {
    hide Le16, PutLe32;
    var n := |ws| - 1;
    if i < n {
      WordAt(ws[..n], i);
      WordInside(Words(ws[..n]), PutLe32(ws[n]), 4 * i);
    } else {
      WordBehind(Words(ws[..n]), PutLe32(ws[n]), 0);
    }
  }

  lemma WordInside(a: Bytes, b: Bytes, at: nat)
    requires at + 4 <= |a|
    ensures Le32(a + b, at) == Le32(a, at)
  {
  }

  lemma WordBehind(a: Bytes, b: Bytes, at: nat)
    requires at + 4 <= |b|
    ensures Le32(a + b, |a| + at) == Le32(b, at)
  {
  }

  // An inode: type and owner, its size, four times, group and links, three
  // words, the direct pointers, the three indirect ones, seven words.
  datatype StoredInode = StoredInode(kind: Half, owner: Half, size: Word, times: seq<Word>, group: Half, links: Half,
                                     words: seq<Word>, direct: seq<Word>, single: Word, double: Word, triple: Word,
                                     others: seq<Word>)
  {
    predicate Fits() { |times| == 4 && |words| == 3 && |direct| == 12 && |others| == 7 }
  }

  function InodeImage(d: StoredInode): (s: Bytes)
    requires d.Fits()
    ensures |s| == INODE_BYTES
  {
    PutLe16(d.kind) + PutLe16(d.owner) + Words([d.size] + d.times) + PutLe16(d.group) + PutLe16(d.links)
    + Words(d.words + d.direct + [d.single, d.double, d.triple] + d.others)
  }

  // The fields that are read stand where they are read.
  lemma InodeFromImage(d: StoredInode)
    requires d.Fits()
    ensures var s := InodeImage(d);
            && Le32(s, SIZE_AT) == d.size && Le32(s, SINGLE_AT) == d.single && Le32(s, DOUBLE_AT) == d.double
            && forall i :: 0 <= i < DIRECT ==> i < |d.direct| && Le32(s, POINTERS_AT + 4 * i) == d.direct[i]
    ensures |d.direct| == DIRECT
  {
    hide Le16, Le32, PutLe16, Words;
    var (front, times) := (PutLe16(d.kind) + PutLe16(d.owner), [d.size] + d.times);
    var (middle, words) := (PutLe16(d.group) + PutLe16(d.links),
                            d.words + d.direct + [d.single, d.double, d.triple] + d.others);
    var head := front + Words(times) + middle;
    assert InodeImage(d) == head + Words(words) && head == front + (Words(times) + middle);
    WordInside(head, Words(words), 4);
    WordBehind(front, Words(times) + middle, 0);
    WordInside(Words(times), middle, 0);
    WordAt(times, 0);
    forall i | 0 <= i < |words| ensures Le32(InodeImage(d), 28 + 4 * i) == words[i] {
      WordBehind(head, Words(words), 4 * i);
      WordAt(words, i);
    }
    assert words[15] == d.single && words[16] == d.double;
    forall i | 0 <= i < DIRECT ensures Le32(InodeImage(d), POINTERS_AT + 4 * i) == d.direct[i] {
      assert words[3 + i] == d.direct[i];
    }
  }

  // A group descriptor: two bitmaps, the inode table, three counts, 14 bytes.
  datatype Descriptor = Descriptor(blockBitmap: Word, inodeBitmap: Word, table: Word,
                                   free: Half, used: Half, dirs: Half)

  function DescriptorImage(d: Descriptor): (s: Bytes)
    ensures |s| == GROUP_BYTES
  {
    Words([d.blockBitmap, d.inodeBitmap, d.table])
    + PutLe16(d.free) + PutLe16(d.used) + PutLe16(d.dirs) + Zeros(14)
  }

  function DescriptorImages(ds: seq<Descriptor>): (s: Bytes)
    ensures |s| == GROUP_BYTES * |ds|
  {
    if ds == [] then [] else DescriptorImages(ds[..|ds| - 1]) + DescriptorImage(ds[|ds| - 1])
  }

  // In a block of descriptors the table of each group is where it is read.
  lemma {:induction false} TableFromImage(ds: seq<Descriptor>, rest: Bytes, g: nat)
    requires g < |ds|
    ensures Le32(DescriptorImages(ds) + rest, GROUP_BYTES * g + TABLE_AT) == ds[g].table
    decreases |ds|
  {
    hide Le16, Le32, PutLe16, Words;
    var n := |ds| - 1;
    var d := ds[n];
    var front, last := DescriptorImages(ds[..n]), DescriptorImage(d);
    WordInside(front + last, rest, GROUP_BYTES * g + TABLE_AT);
    if g < n {
      WordInside(front, last, GROUP_BYTES * g + TABLE_AT);
      TableFromImage(ds[..n], [], g);
      assert front + [] == front;
    } else {
      var ws := [d.blockBitmap, d.inodeBitmap, d.table];
      var tail := PutLe16(d.free) + PutLe16(d.used) + PutLe16(d.dirs) + Zeros(14);
      assert last == Words(ws) + tail;
      WordBehind(front, last, TABLE_AT);
      WordInside(Words(ws), tail, TABLE_AT);
      WordAt(ws, 2);
    }
  }

  // ---------- blocks ----------

  function FirstSector(v: Volume, block: nat): nat {
    (v.startLba + v.sectorsPerBlock * block) % WORD
  }

  function Sectors(v: Volume, first: nat, n: nat): (r: Bytes)
    ensures |r| == SECTOR * n
  {
    if n == 0 then [] else Sectors(v, first, n - 1) + v.device(first + n - 1)
  }

  function Block(v: Volume, block: nat): (r: Bytes)
    ensures |r| == v.BlockSize()
  {
    Sectors(v, FirstSector(v, block), v.sectorsPerBlock)
  }

  // As long as sector numbers fit in 32 bits, different blocks lie in different
  // sectors.
  lemma BlocksApart(v: Volume, a: nat, b: nat)
    requires a < b && v.startLba + v.sectorsPerBlock * (b + 1) <= WORD
    ensures FirstSector(v, a) + v.sectorsPerBlock <= FirstSector(v, b)
  {
    var n := v.sectorsPerBlock;
    Above(n, a, b);
    assert n * (b + 1) == n * b + n;
    Below(v.startLba + n * b);
    Below(v.startLba + n * a);
  }

  // As long as they do, byte j of a block is where it belongs on the device.
  lemma BlockOnDevice(v: Volume, block: nat, j: nat)
    requires v.startLba + v.sectorsPerBlock * block < WORD && j < v.BlockSize()
    ensures Block(v, block)[j] == DeviceByte(v, SECTOR * v.startLba + v.BlockSize() * block + j)
  {
    hide DeviceByte, Sectors;
    Below(v.startLba + v.sectorsPerBlock * block);
    SectorsAt(v, FirstSector(v, block), v.sectorsPerBlock, j);
    InBytes(v.startLba, v.sectorsPerBlock, block);
  }

  lemma InBytes(start: nat, spb: nat, block: nat)
    ensures SECTOR * (start + spb * block) == SECTOR * start + SECTOR * spb * block
  {
  }

  // The superblock is at byte 1024 of the volume; the descriptors come in the
  // block behind the one that holds it.
  lemma DescriptorsBehindSuperblock(v: Volume)
    requires v.Mounted()
    ensures v.BgdtBlock() == 1024 / v.BlockSize() + 1
  {
    if v.BlockSize() > 1024 { Divides(1024, v.BlockSize(), 0, 1024); }
  }

  lemma Below(x: nat)
    requires x <= WORD
    ensures x < WORD ==> x % WORD == x
  {
  }

  // ---------- inodes ----------

  function Quotient(a: nat, b: nat): nat
    requires b > 0
  {
    a / b
  }

  function Group(v: Volume, inode: nat): nat
    requires inode > 0 && v.inodesPerGroup > 0
  {
    (inode - 1) / v.inodesPerGroup
  }

  function Index(v: Volume, inode: nat): nat
    requires inode > 0 && v.inodesPerGroup > 0
  {
    (inode - 1) % v.inodesPerGroup
  }

  // The block of the group's inode table.
  function TableBlock(v: Volume, inode: nat): nat
    requires inode > 0 && v.Mounted()
  {
    Quotient(Index(v, inode) * v.inodeSize, v.BlockSize())
  }

  function PerBlock(v: Volume): (n: nat)
    requires v.Mounted()
    ensures n > 0
  {
    PositiveQuotient(v.BlockSize(), v.inodeSize);
    v.BlockSize() / v.inodeSize
  }

  lemma PositiveQuotient(a: nat, b: nat)
    requires 0 < b <= a
    ensures a / b > 0
  {
  }

  // The place within that block, counted in inodes.
  function Slot(v: Volume, inode: nat): nat
    requires inode > 0 && v.Mounted()
  {
    Index(v, inode) % PerBlock(v)
  }

  // The descriptor of the inode's group stands in the one descriptor block
  // that is read.
  predicate Described(v: Volume, inode: nat) {
    inode > 0 && v.Mounted() && GROUP_BYTES * (Group(v, inode) + 1) <= v.BlockSize()
    && INODE_BYTES * (Slot(v, inode) + 1) <= v.BlockSize()
  }

  // With inodes of at least 128 bytes that asks for nothing but the descriptor.
  lemma DescribedExactly(v: Volume, inode: nat)
    requires v.Mounted() && v.inodeSize >= INODE_BYTES
    ensures Described(v, inode) <==> inode > 0 && 32 * (Group(v, inode) + 1) <= v.BlockSize()
  {
    if inode > 0 {
      var n := PerBlock(v);
      assert Slot(v, inode) + 1 <= n;
      SlotFits(Slot(v, inode), n, v.inodeSize, v.BlockSize());
    }
  }

  lemma SlotFits(slot: nat, n: nat, size: nat, block: nat)
    requires slot < n && size >= INODE_BYTES && n == block / size
    ensures INODE_BYTES * (slot + 1) <= block
  {
    Above(size, slot, n);
    assert size * n <= block;
    if size > INODE_BYTES { Above(slot + 1, INODE_BYTES, size); }
  }

  function InodeBlock(v: Volume, inode: nat): nat
    requires Described(v, inode)
  {
    (Le32(Block(v, v.BgdtBlock()), GROUP_BYTES * Group(v, inode) + TABLE_AT) + TableBlock(v, inode)) % WORD
  }

  function InodeBytes(v: Volume, inode: nat): (r: Bytes)
    requires Described(v, inode)
    ensures |r| == INODE_BYTES
  {
    var at := INODE_BYTES * Slot(v, inode);
    Block(v, InodeBlock(v, inode))[at..at + INODE_BYTES]
  }

  lemma Scaled(i: nat, per: nat, size: nat)
    requires per > 0 && size > 0
    ensures (i * size) / (per * size) == i / per
    ensures per * size > 0
    ensures i * size == i / per * (per * size) + i % per * size
  {
    var q, r := i / per, i % per;
    assert i == per * q + r;
    calc {
      i * size;
      (per * q + r) * size;
      per * q * size + r * size;
      (per * size) * q + r * size;
    }
    Above(size, r, per);
    Divides(i * size, per * size, q, r * size);
  }

  lemma WholeBlocks(v: Volume)
    requires v.Mounted() && v.BlockSize() % v.inodeSize == 0
    ensures v.BlockSize() == PerBlock(v) * v.inodeSize
  {
  }

  // In a block size the inode size divides, the quotient by the block size is
  // the quotient by the number of inodes in a block.
  lemma TableBlockIs(v: Volume, inode: nat)
    requires inode > 0 && v.Mounted() && v.BlockSize() % v.inodeSize == 0
    ensures TableBlock(v, inode) == Index(v, inode) / PerBlock(v)
    ensures Index(v, inode) * v.inodeSize == TableBlock(v, inode) * v.BlockSize() + Slot(v, inode) * v.inodeSize
  {
    hide Index, PerBlock;
    WholeBlocks(v);
    Scaled(Index(v, inode), PerBlock(v), v.inodeSize);
  }

  // Group, table block and slot say which inode it is ...
  lemma InodeFromPlace(v: Volume, inode: nat)
    requires inode > 0 && v.Mounted() && v.BlockSize() % v.inodeSize == 0
    ensures inode == Group(v, inode) * v.inodesPerGroup + TableBlock(v, inode) * PerBlock(v) + Slot(v, inode) + 1
    ensures Slot(v, inode) < PerBlock(v)
    ensures TableBlock(v, inode) * PerBlock(v) + Slot(v, inode) < v.inodesPerGroup
  {
    TableBlockIs(v, inode);
  }

  // ... and every such place belongs to an inode.
  lemma PlaceFromInode(v: Volume, group: nat, block: nat, slot: nat)
    requires v.Mounted() && v.BlockSize() % v.inodeSize == 0
    requires slot < PerBlock(v) && block * PerBlock(v) + slot < v.inodesPerGroup
    ensures var inode := group * v.inodesPerGroup + block * PerBlock(v) + slot + 1;
            Group(v, inode) == group && TableBlock(v, inode) == block && Slot(v, inode) == slot
  {
    var index := block * PerBlock(v) + slot;
    var inode := group * v.inodesPerGroup + index + 1;
    Divides(inode - 1, v.inodesPerGroup, group, index);
    Divides(index, PerBlock(v), block, slot);
    TableBlockIs(v, inode);
  }

  // ---------- the bytes of an inode on the device ----------

  function DeviceByte(v: Volume, k: nat): Byte { v.device(k / SECTOR)[k % SECTOR] }

  // Where on the device the bytes are that are read for an inode.
  function PlaceOf(v: Volume, inode: nat): nat
    requires Described(v, inode)
  {
    SECTOR * FirstSector(v, InodeBlock(v, inode)) + INODE_BYTES * Slot(v, inode)
  }

  lemma {:induction false} SectorsAt(v: Volume, first: nat, n: nat, k: nat)
    requires k < SECTOR * n
    ensures Sectors(v, first, n)[k] == DeviceByte(v, SECTOR * first + k)
  {
    if k < SECTOR * (n - 1) {
      SectorsAt(v, first, n - 1, k);
    } else {
      var j := k - SECTOR * (n - 1);
      Divides(SECTOR * first + k, SECTOR, first + n - 1, j);
    }
  }

  lemma InodeOnDevice(v: Volume, inode: nat, j: nat)
    requires Described(v, inode) && j < INODE_BYTES
    ensures InodeBytes(v, inode)[j] == DeviceByte(v, PlaceOf(v, inode) + j)
  {
    hide FirstSector, Sectors, InodeBlock, Slot, DeviceByte;
    SectorsAt(v, FirstSector(v, InodeBlock(v, inode)), v.sectorsPerBlock, INODE_BYTES * Slot(v, inode) + j);
  }

  function Table(v: Volume, group: nat): nat
    requires GROUP_BYTES * (group + 1) <= v.BlockSize()
  {
    Le32(Block(v, v.BgdtBlock()), GROUP_BYTES * group + TABLE_AT)
  }

  // The blocks an inode table takes.
  function TableBlocks(v: Volume): nat
    requires v.Mounted()
  {
    (v.inodesPerGroup - 1) / PerBlock(v) + 1
  }

  // The table of an inode's group lies where 32-bit sector numbers reach.
  predicate TableReached(v: Volume, inode: nat)
    requires Described(v, inode)
  {
    v.startLba + v.sectorsPerBlock * (Table(v, Group(v, inode)) + TableBlocks(v)) <= WORD
  }

  // Tables of different groups share no block.
  predicate TablesApart(v: Volume, a: nat, b: nat)
    requires Described(v, a) && Described(v, b)
  {
    var t, u := Table(v, Group(v, a)), Table(v, Group(v, b));
    Group(v, a) != Group(v, b) ==> t + TableBlocks(v) <= u || u + TableBlocks(v) <= t
  }

  lemma FewerSectors(start: nat, spb: nat, n: nat, m: nat)
    requires n <= m && start + spb * m <= WORD && spb >= 2
    ensures start + spb * n <= WORD && n <= WORD
  {
    if n < m { Above(spb, n, m); }
    if n > 0 { Above(n, 0, 1); Above(n, 1, spb); }
  }

  // The block of an inode is one of its group's table.
  lemma BlockInTable(v: Volume, inode: nat)
    requires Described(v, inode) && v.BlockSize() % v.inodeSize == 0 && TableReached(v, inode)
    ensures var t := Table(v, Group(v, inode));
            && InodeBlock(v, inode) == t + TableBlock(v, inode) && TableBlock(v, inode) < TableBlocks(v)
            && v.startLba + v.sectorsPerBlock * (InodeBlock(v, inode) + 1) <= WORD
  {
    hide Le32, Block, Group, PerBlock, TableBlock, Slot;
    var t := Table(v, Group(v, inode));
    TableBlockIs(v, inode);
    DivideMonotone(Index(v, inode), v.inodesPerGroup - 1, PerBlock(v));
    FewerSectors(v.startLba, v.sectorsPerBlock, t + TableBlock(v, inode) + 1, t + TableBlocks(v));
    Below(t + TableBlock(v, inode));
  }

  // Distinct inodes take bytes of their own on the device.
  lemma InodesApart(v: Volume, a: nat, b: nat)
    requires Described(v, a) && Described(v, b) && a != b
    requires v.BlockSize() % v.inodeSize == 0
    requires TableReached(v, a) && TableReached(v, b) && TablesApart(v, a, b)
    ensures PlaceOf(v, a) + INODE_BYTES <= PlaceOf(v, b) || PlaceOf(v, b) + INODE_BYTES <= PlaceOf(v, a)
  {
    hide TableReached, Table, Group, TableBlock, Slot, PerBlock, InodeBlock, FirstSector, TableBlocks;
    BlockInTable(v, a);
    BlockInTable(v, b);
    InodeFromPlace(v, a);
    InodeFromPlace(v, b);
    if InodeBlock(v, a) < InodeBlock(v, b) {
      BlocksApart(v, InodeBlock(v, a), InodeBlock(v, b));
    } else if InodeBlock(v, b) < InodeBlock(v, a) {
      BlocksApart(v, InodeBlock(v, b), InodeBlock(v, a));
    }
  }

  // The table is an array of inodeSize bytes an entry, but slots are taken from
  // it in steps of the structure's 128 bytes: the right bytes are read exactly
  // if the sizes agree or the inode is the first of its block.
  lemma SlotIsEntry(v: Volume, inode: nat)
    requires inode > 0 && v.Mounted() && v.BlockSize() % v.inodeSize == 0
    ensures TableBlock(v, inode) * v.BlockSize() + Slot(v, inode) * INODE_BYTES == Index(v, inode) * v.inodeSize
       <==> v.inodeSize == INODE_BYTES || Slot(v, inode) == 0
  {
    hide Index, TableBlock, Slot;
    TableBlockIs(v, inode);
    Cancel(Slot(v, inode), v.inodeSize, INODE_BYTES);
  }

  // Byte j of entry index of a table, on a device with blocks of so many bytes.
  function EntryByte(start: nat, blockSize: nat, table: nat, index: nat, j: nat): nat {
    SECTOR * start + blockSize * table + 128 * index + j
  }

  // With inodes of 128 bytes what is read for an inode is its entry in its
  // group's table, byte by byte on the device.
  lemma InodeIsTableEntry(v: Volume, inode: nat, j: nat)
    requires Described(v, inode) && v.inodeSize == 128 && v.BlockSize() % 128 == 0 && TableReached(v, inode)
    requires j < 128
    ensures var at := EntryByte(v.startLba, v.BlockSize(), Table(v, Group(v, inode)), Index(v, inode), j);
            InodeBytes(v, inode)[j] == DeviceByte(v, at)
  {
    hide Le32, Block, Group, Index, PerBlock, TableBlock, Slot, Table, TableReached, TableBlocks, DeviceByte;
    var t, b, k := Table(v, Group(v, inode)), TableBlock(v, inode), INODE_BYTES * Slot(v, inode) + j;
    BlockInTable(v, inode);
    SlotIsEntry(v, inode);
    assert v.sectorsPerBlock * (t + b + 1) == v.sectorsPerBlock * (t + b) + v.sectorsPerBlock;
    BlockOnDevice(v, t + b, k);
    assert v.BlockSize() * (t + b) == v.BlockSize() * t + b * v.BlockSize();
  }

  // On a volume with inodes of 256 bytes the second inode is looked for in the
  // middle of the first.
  lemma LargeInodesMissed(device: nat -> Sector)
    ensures var v := Volume(device, 0, 2, 100, 32, 256);
            && v.Mounted() && v.BlockSize() % v.inodeSize == 0
            && TableBlock(v, 2) * v.BlockSize() + Slot(v, 2) * INODE_BYTES == 128
            && Index(v, 2) * v.inodeSize == 256
  {
  }

  lemma Cancel(r: nat, a: nat, b: nat)
    ensures r * a == r * b <==> a == b || r == 0
  {
    if r * a == r * b && r != 0 {
      if a < b { Above(r, a, b); }
      if a > b { Above(r, b, a); }
    }
  }

  // The direct blocks from number i on, up to an invalid pointer.
  function DirectBlocks(v: Volume, inode: Bytes, i: nat): (r: seq<nat>)
    requires |inode| == INODE_BYTES && i <= DIRECT
    ensures i + |r| <= DIRECT
    ensures forall k :: 0 <= k < |r| ==> r[k] == Le32(inode, POINTERS_AT + 4 * (i + k)) && 0 < r[k] <= v.totalBlocks
    ensures i + |r| < DIRECT ==>
              var b := Le32(inode, POINTERS_AT + 4 * (i + |r|)); b == 0 || b > v.totalBlocks
    decreases DIRECT - i
  {
    if i == DIRECT then [] else
      var b := Le32(inode, POINTERS_AT + 4 * i);
      if b == 0 || b > v.totalBlocks then [] else [b] + DirectBlocks(v, inode, i + 1)
  }

  // ---------- reading ----------

  method ReadBlock(v: Volume, block: nat) returns (buf: Bytes)
    ensures buf == Block(v, block)
  {
    var first := (v.startLba + v.sectorsPerBlock * block) % WORD;
    buf := [];
    for i := 0 to v.sectorsPerBlock
      invariant buf == Sectors(v, first, i)
    {
      buf := buf + v.device(first + i);
    }
  }

  method ReadInode(v: Volume, inode: nat) returns (buf: Bytes)
    requires Described(v, inode)
    ensures buf == InodeBytes(v, inode)
  {
    var group := (inode - 1) / v.inodesPerGroup;
    var index := (inode - 1) % v.inodesPerGroup;
    var block := ReadBlock(v, v.BgdtBlock());
    var table := Le32(block, GROUP_BYTES * group + TABLE_AT);
    block := ReadBlock(v, (table + index * v.inodeSize / v.BlockSize()) % WORD);
    var slot := index % PerBlock(v);
    buf := block[INODE_BYTES * slot..INODE_BYTES * slot + INODE_BYTES];
  }
}
