// Reading a whole ext2 file through its direct blocks and its indirect block.
module Ext2File {
  import opened Arith
  import opened ByteSeqs
  import opened CStrings
  import opened Wrappers
  import opened Ext2Volume

  function Entries(v: Volume): nat { v.BlockSize() / 4 }

  // The size in blocks, rounded up in 32 bits.
  function BlocksNeeded(v: Volume, inode: Bytes): nat
    requires |inode| == INODE_BYTES && v.Mounted()
  {
    Quotient((Le32(inode, SIZE_AT) + v.BlockSize() - 1) % WORD, v.BlockSize())
  }

  // Rounding up in 32 bits counts enough blocks for every byte exactly if the
  // sum does not wrap, and never a block too many.
  lemma BlocksCover(v: Volume, inode: Bytes)
    requires |inode| == INODE_BYTES && v.Mounted()
    ensures var size, n := Le32(inode, SIZE_AT), BlocksNeeded(v, inode);
            && ((forall k: nat :: k < size ==> k / v.BlockSize() < n) <==> size + v.BlockSize() - 1 < WORD)
            && (n > 0 ==> v.BlockSize() * (n - 1) < size)
  {
    hide Le32;
    assert v.BlockSize() < WORD;
    hide Volume.BlockSize;
    var size, b, n := Le32(inode, SIZE_AT), v.BlockSize(), BlocksNeeded(v, inode);
    var sum := size + b - 1;
    if sum < WORD {
      RoundedUp(size, b);
      Below(sum);
      forall k: nat | k < size ensures k / b < n {
        DivideMonotone(k, size - 1, b);
      }
    } else {
      WrapsOnce(sum);
      Divides(sum - WORD, b, 0, sum - WORD);
      assert 0 / b == 0 by { Divides(0, b, 0, 0); }
    }
  }

  // On a volume with blocks of 1 KiB a file of 2^32 - 1 bytes has no block.
  lemma LargeFileUnread(device: nat -> Sector)
    ensures var v := Volume(device, 0, 2, 100, 32, 128);
            var inode := Zeros(INODE_BYTES)[4 := 255][5 := 255][6 := 255][7 := 255];
            v.Mounted() && Le32(inode, SIZE_AT) == WORD - 1 && BlocksNeeded(v, inode) == 0 && BlocksRead(v, inode) == []
  {
    hide Zeros, DirectBlocks, Listed, Block;
    var v := Volume(device, 0, 2, 100, 32, 128);
    var inode := Zeros(INODE_BYTES)[4 := 255][5 := 255][6 := 255][7 := 255];
    assert Le32(inode, SIZE_AT) == WORD - 1;
    assert (WORD - 1 + 1024 - 1) % WORD == 1022 && Quotient(1022, 1024) == 0;
    assert DirectRead(v, inode) == [];
  }

  lemma WrapsOnce(x: nat)
    requires WORD <= x < 2 * WORD
    ensures x % WORD == x - WORD
  {
  }

  lemma RoundedUp(size: nat, b: nat)
    requires b > 0
    ensures var n := (size + b - 1) / b;
            if size == 0 then n == 0 else n == (size - 1) / b + 1 && b * (n - 1) < size
  {
    if size == 0 {
      Divides(b - 1, b, 0, b - 1);
    } else {
      var q, r := (size - 1) / b, (size - 1) % b;
      assert size - 1 == b * q + r;
      assert b * (q + 1) == b * q + b;
      Divides(size + b - 1, b, q + 1, r);
    }
  }

  // The block numbers in an indirect block from number i on, up to a zero.
  function Listed(block: Bytes, i: nat): (r: seq<nat>)
    requires i <= |block| / 4
    ensures i + |r| <= |block| / 4
    ensures forall k :: 0 <= k < |r| ==> r[k] == Le32(block, 4 * (i + k)) && r[k] != 0
    ensures i + |r| < |block| / 4 ==> Le32(block, 4 * (i + |r|)) == 0
    decreases |block| - i
  {
    if i == |block| / 4 || Le32(block, 4 * i) == 0 then []
    else [Le32(block, 4 * i)] + Listed(block, i + 1)
  }

  function Take(s: seq<nat>, n: nat): seq<nat> { if n < |s| then s[..n] else s }

  function DirectRead(v: Volume, inode: Bytes): seq<nat>
    requires |inode| == INODE_BYTES && v.Mounted()
  {
    Take(DirectBlocks(v, inode, 0), BlocksNeeded(v, inode))
  }

  predicate UsesSingle(v: Volume, inode: Bytes)
    requires |inode| == INODE_BYTES && v.Mounted()
  {
    Le32(inode, SINGLE_AT) != 0 && |DirectRead(v, inode)| < BlocksNeeded(v, inode)
  }

  // The doubly indirect block is not looked at.
  predicate StopsBeforeDouble(v: Volume, inode: Bytes)
    requires |inode| == INODE_BYTES && v.Mounted()
  {
    || Le32(inode, DOUBLE_AT) == 0
    || |DirectRead(v, inode)| + (if UsesSingle(v, inode) then Entries(v) else 0) >= BlocksNeeded(v, inode)
  }

  // The blocks that are read, in this order.
  function BlocksRead(v: Volume, inode: Bytes): seq<nat>
    requires |inode| == INODE_BYTES && v.Mounted()
  {
    DirectRead(v, inode)
    + if UsesSingle(v, inode) then Listed(Block(v, Le32(inode, SINGLE_AT)), 0) else []
  }

  function Concat(v: Volume, blocks: seq<nat>): (r: Bytes)
    ensures |r| == v.BlockSize() * |blocks|
  {
    if blocks == [] then [] else Concat(v, blocks[..|blocks| - 1]) + Block(v, blocks[|blocks| - 1])
  }

  // Byte k of the blocks in a row is byte k % size of block k / size.
  lemma {:induction false} ConcatAt(v: Volume, blocks: seq<nat>, i: nat, j: nat)
    requires i < |blocks| && j < v.BlockSize()
    ensures v.BlockSize() * i + j < |Concat(v, blocks)|
    ensures Concat(v, blocks)[v.BlockSize() * i + j] == Block(v, blocks[i])[j]
    decreases |blocks|
  {
    var n := |blocks| - 1;
    Above(v.BlockSize(), i, n + 1);
    if i < n {
      ConcatAt(v, blocks[..n], i, j);
    }
  }

  // ---------- the file an inode describes ----------

  // Where block i of the file is; 0 for a hole.
  function Logical(v: Volume, inode: Bytes, i: nat): nat
    requires |inode| == INODE_BYTES && i < DIRECT + Entries(v)
  {
    if i < DIRECT then Le32(inode, POINTERS_AT + 4 * i)
    else if Le32(inode, SINGLE_AT) == 0 then 0
    else Le32(Block(v, Le32(inode, SINGLE_AT)), 4 * (i - DIRECT))
  }

  function LogicalBlocks(v: Volume, inode: Bytes): (r: seq<nat>)
    requires |inode| == INODE_BYTES && v.Mounted() && BlocksNeeded(v, inode) <= DIRECT + Entries(v)
    ensures |r| == BlocksNeeded(v, inode)
    ensures forall i :: 0 <= i < |r| ==> r[i] == Logical(v, inode, i)
  {
    seq(BlocksNeeded(v, inode), i requires 0 <= i < BlocksNeeded(v, inode) => Logical(v, inode, i))
  }

  // The direct blocks are blocks of the volume.
  predicate InVolume(v: Volume, inode: Bytes)
    requires |inode| == INODE_BYTES && v.Mounted()
  {
    forall i :: 0 <= i < DIRECT && i < BlocksNeeded(v, inode) ==> Logical(v, inode, i) <= v.totalBlocks
  }

  // No hole, and nothing listed behind the last block of the file.
  predicate Dense(v: Volume, inode: Bytes)
    requires |inode| == INODE_BYTES && v.Mounted() && BlocksNeeded(v, inode) <= DIRECT + Entries(v)
  {
    var n := BlocksNeeded(v, inode);
    && (forall i :: 0 <= i < n ==> Logical(v, inode, i) != 0)
    && (DIRECT < n < DIRECT + Entries(v) ==> Logical(v, inode, n) == 0)
  }

  // A file is read as the row of its logical blocks exactly if it is dense.
  lemma ReadsTheFile(v: Volume, inode: Bytes)
    requires |inode| == INODE_BYTES && v.Mounted() && BlocksNeeded(v, inode) <= DIRECT + Entries(v)
    requires InVolume(v, inode)
    ensures BlocksRead(v, inode) == LogicalBlocks(v, inode) <==> Dense(v, inode)
    ensures Dense(v, inode) ==> StopsBeforeDouble(v, inode)
  {
    hide Block, Le32, BlocksNeeded;
    if Dense(v, inode) {
      DenseReads(v, inode);
    }
    if BlocksRead(v, inode) == LogicalBlocks(v, inode) {
      ReadIsDense(v, inode);
    }
  }

  // The pointers of an inode, seen as runs of logical blocks.
  lemma Runs(v: Volume, inode: Bytes)
    requires |inode| == INODE_BYTES
    ensures var direct := DirectBlocks(v, inode, 0);
            && |direct| <= DIRECT
            && (forall k :: 0 <= k < |direct| ==> direct[k] == Logical(v, inode, k) && 0 < direct[k] <= v.totalBlocks)
            && (|direct| < DIRECT ==>
                  var b := Logical(v, inode, |direct|); b == 0 || b > v.totalBlocks)
    ensures Le32(inode, SINGLE_AT) != 0 ==>
              var listed := Listed(Block(v, Le32(inode, SINGLE_AT)), 0);
              && |listed| <= Entries(v)
              && (forall i :: DIRECT <= i < DIRECT + |listed| ==>
                    Logical(v, inode, i) == listed[i - DIRECT] && listed[i - DIRECT] != 0)
              && (|listed| < Entries(v) ==> Logical(v, inode, DIRECT + |listed|) == 0)
  {
    hide Block, Le32, DirectBlocks, Listed;
  }

  lemma DenseReads(v: Volume, inode: Bytes)
    requires |inode| == INODE_BYTES && v.Mounted() && BlocksNeeded(v, inode) <= DIRECT + Entries(v)
    requires InVolume(v, inode) && Dense(v, inode)
    ensures BlocksRead(v, inode) == LogicalBlocks(v, inode) && StopsBeforeDouble(v, inode)
  {
    hide Block, Le32, BlocksNeeded, DirectBlocks, Listed, Entries, Volume.BlockSize;
    var n, direct := BlocksNeeded(v, inode), DirectBlocks(v, inode, 0);
    Runs(v, inode);
    assert |direct| >= n || |direct| == DIRECT;
    if n > DIRECT {
      assert Logical(v, inode, DIRECT) != 0;
      var listed := Listed(Block(v, Le32(inode, SINGLE_AT)), 0);
      assert DIRECT + |listed| == n;
    }
  }

  lemma ReadIsDense(v: Volume, inode: Bytes)
    requires |inode| == INODE_BYTES && v.Mounted() && BlocksNeeded(v, inode) <= DIRECT + Entries(v)
    requires InVolume(v, inode) && BlocksRead(v, inode) == LogicalBlocks(v, inode)
    ensures Dense(v, inode)
  {
    hide Block, Le32, BlocksNeeded, DirectBlocks, Listed, Entries, Volume.BlockSize, Logical;
    var n, direct, read := BlocksNeeded(v, inode), DirectBlocks(v, inode, 0), BlocksRead(v, inode);
    Runs(v, inode);
    assert |read| == n;
    forall i | 0 <= i < n ensures Logical(v, inode, i) != 0 {
      assert read[i] == Logical(v, inode, i) && read[i] != 0;
    }
  }

  // Byte k of the file.
  function FileByte(v: Volume, inode: Bytes, k: nat): Byte
    requires |inode| == INODE_BYTES && v.Mounted() && Quotient(k, v.BlockSize()) < DIRECT + Entries(v)
  {
    hide Block, Logical, Quotient, Volume.BlockSize;
    Block(v, Logical(v, inode, Quotient(k, v.BlockSize())))[k % v.BlockSize()]
  }

  // A dense file in the volume whose size rounds up in 32 bits, and which needs
  // no doubly indirect block.
  predicate Plain(v: Volume, inode: Bytes)
    requires |inode| == INODE_BYTES && v.Mounted()
  {
    && Le32(inode, SIZE_AT) + v.BlockSize() - 1 < WORD
    && BlocksNeeded(v, inode) <= DIRECT + Entries(v) && InVolume(v, inode) && Dense(v, inode)
  }

  // Of such a file every byte is read to its place.
  lemma BytesRead(v: Volume, inode: Bytes, k: nat)
    requires |inode| == INODE_BYTES && v.Mounted() && Plain(v, inode) && k < Le32(inode, SIZE_AT)
    ensures Quotient(k, v.BlockSize()) < DIRECT + Entries(v)
    ensures var read := Concat(v, BlocksRead(v, inode)); k < |read| && read[k] == FileByte(v, inode, k)
  {
    hide Block, Le32, BlocksNeeded, Concat, BlocksRead, Dense, InVolume, Entries, Volume.BlockSize, Logical;
    var b, i := v.BlockSize(), Quotient(k, v.BlockSize());
    BlocksCover(v, inode);
    ReadsTheFile(v, inode);
    assert k == b * i + k % b;
    ConcatAt(v, BlocksRead(v, inode), i, k % b);
  }

  // A file of three blocks of which the middle one is a hole: only the first is
  // read.
  lemma HoleEndsReading(device: nat -> Sector)
    ensures var v := Volume(device, 0, 2, 100, 32, 128);
            var inode := Zeros(INODE_BYTES)[SIZE_AT + 1 := 12][POINTERS_AT := 5][POINTERS_AT + 8 := 7];
            && v.Mounted() && InVolume(v, inode) && BlocksNeeded(v, inode) == 3
            && LogicalBlocks(v, inode) == [5, 0, 7] && BlocksRead(v, inode) == [5]
  {
    var v := Volume(device, 0, 2, 100, 32, 128);
    var inode := Zeros(INODE_BYTES)[SIZE_AT + 1 := 12][POINTERS_AT := 5][POINTERS_AT + 8 := 7];
    hide Block, DirectBlocks, Listed, Le32, Zeros, Quotient;
    HolePointers();
    assert BlocksNeeded(v, inode) == 3 by { ThreeBlocks(); }
    var direct := DirectBlocks(v, inode, 0);
    assert |direct| == 1;
  }

  lemma ThreeBlocks()
    ensures Quotient((3072 + 1024 - 1) % WORD, 1024) == 3
  {
  }

  lemma HolePointers()
    ensures var inode := Zeros(INODE_BYTES)[SIZE_AT + 1 := 12][POINTERS_AT := 5][POINTERS_AT + 8 := 7];
            && Le32(inode, SIZE_AT) == 3072 && Le32(inode, SINGLE_AT) == 0
            && Le32(inode, POINTERS_AT) == 5 && Le32(inode, POINTERS_AT + 4) == 0 && Le32(inode, POINTERS_AT + 8) == 7
  {
  }

  // ---------- reading ----------

  method ReadBlockTo(v: Volume, block: nat, buf: array<Byte>, at: nat)
    requires at + v.BlockSize() <= buf.Length
    modifies buf
    ensures buf[..] == old(buf[..at]) + Block(v, block) + old(buf[at + v.BlockSize()..])
  {
    var data := ReadBlock(v, block);
    CopyTo(buf, at, data);
  }

  // Every byte of the file is in its place in the buffer.
  ghost predicate Holds(v: Volume, inode: Bytes, buf: Bytes)
    requires |inode| == INODE_BYTES && v.Mounted()
  {
    forall k: nat :: k < Le32(inode, SIZE_AT) ==> HoldsAt(v, inode, buf, k)
  }

  ghost predicate HoldsAt(v: Volume, inode: Bytes, buf: Bytes, k: nat)
    requires |inode| == INODE_BYTES && v.Mounted()
  {
    Quotient(k, v.BlockSize()) < DIRECT + Entries(v) && k < |buf| && buf[k] == FileByte(v, inode, k)
  }

  lemma FilledHolds(v: Volume, inode: Bytes, now: Bytes, was: Bytes)
    requires |inode| == INODE_BYTES && v.Mounted() && Plain(v, inode)
    requires Filled(v, now, was, BlocksRead(v, inode))
    ensures Holds(v, inode, now)
  {
    hide Le32, Concat, BlocksRead, Plain, Entries, Volume.BlockSize, FileByte, Quotient;
    forall k: nat | k < Le32(inode, SIZE_AT)
      ensures HoldsAt(v, inode, now, k)
    {
      BytesRead(v, inode, k);
    }
  }

  // One more block behind those read so far.
  lemma AppendBlock(v: Volume, blocks: seq<nat>, block: nat)
    ensures Concat(v, blocks + [block]) == Concat(v, blocks) + Block(v, block)
  {
    assert (blocks + [block])[..|blocks|] == blocks;
  }

  // A buffer whose front holds some blocks, and whose rest is as it was.
  ghost predicate Filled(v: Volume, now: Bytes, was: Bytes, blocks: seq<nat>) {
    v.BlockSize() * |blocks| <= |was| && now == Concat(v, blocks) + was[v.BlockSize() * |blocks|..]
  }

  method ReadNext(v: Volume, block: nat, buf: array<Byte>, at: nat, ghost was: Bytes, ghost blocks: seq<nat>)
    requires at == v.BlockSize() * |blocks| && at + v.BlockSize() <= buf.Length
    requires Filled(v, buf[..], was, blocks)
    modifies buf
    ensures Filled(v, buf[..], was, blocks + [block])
  {
    hide Block, Concat, Volume.BlockSize;
    AppendBlock(v, blocks, block);
    ReadBlockTo(v, block, buf, at);
    assert v.BlockSize() * |blocks + [block]| == at + v.BlockSize();
    assert was[at..][v.BlockSize()..] == was[at + v.BlockSize()..];
  }

  lemma Rows(size: nat, n: nat, i: nat)
    ensures size * n + i * size == size * (n + i)
  {
  }

  lemma RoomFor(size: nat, n: nat, all: nat, room: nat)
    requires n < all && size * all <= room
    ensures size * n + size <= room
  {
    Above(size, n, all);
  }

  // ext2_read_slink: at is where the first block goes.
  method ReadSingle(v: Volume, block: nat, buf: array<Byte>, at: nat, ghost was: Bytes, ghost direct: seq<nat>)
    requires at == v.BlockSize() * |direct| && Filled(v, buf[..], was, direct)
    requires v.BlockSize() * |direct + Listed(Block(v, block), 0)| <= buf.Length
    modifies buf
    ensures Filled(v, buf[..], was, direct + Listed(Block(v, block), 0))
  {
    hide Block, Concat, Le32, Filled, Listed, Volume.BlockSize;
    var list := ReadBlock(v, block);
    ghost var all := Listed(list, 0);
    var i := 0;
    assert direct + all[..0] == direct;
    while i < |list| / 4
      invariant 0 <= i <= |all| && (i == |list| / 4 ==> i == |all|)
      invariant Filled(v, buf[..], was, direct + all[..i])
    {
      var b := Le32(list, 4 * i);
      assert i < |all| ==> all[i] == b && b != 0;
      if b == 0 {
        break;
      }
      assert (direct + all[..i]) + [b] == direct + all[..i + 1];
      RoomFor(v.BlockSize(), |direct| + i, |direct| + |all|, buf.Length);
      Rows(v.BlockSize(), |direct|, i);
      ReadNext(v, b, buf, at + i * v.BlockSize(), was, direct + all[..i]);
      i := i + 1;
    }
    assert i == |all| && all[..|all|] == all;
  }

  // The loop over the direct blocks.
  method ReadDirect(v: Volume, inode: Bytes, total: nat, buf: array<Byte>) returns (read: nat)
    requires |inode| == INODE_BYTES && v.Mounted() && total == BlocksNeeded(v, inode)
    requires v.BlockSize() * |DirectRead(v, inode)| <= buf.Length
    modifies buf
    ensures read == |DirectRead(v, inode)|
    ensures Filled(v, buf[..], old(buf[..]), DirectRead(v, inode))
  {
    hide Block, Concat, Le32, Filled, DirectBlocks, BlocksNeeded, Volume.BlockSize;
    ghost var was := buf[..];
    ghost var direct := DirectRead(v, inode);
    ghost var pointers := DirectBlocks(v, inode, 0);
    read := 0;
    NothingFilled(v, was);
    while read < DIRECT && read < total
      invariant read <= |direct| && (read == DIRECT || read == total ==> read == |direct|)
      invariant Filled(v, buf[..], was, direct[..read])
    {
      var block := Le32(inode, POINTERS_AT + 4 * read);
      assert read < |pointers| ==> pointers[read] == block && 0 < block <= v.totalBlocks;
      if block == 0 || block > v.totalBlocks {
        break;
      }
      assert direct[..read] + [block] == direct[..read + 1];
      RoomFor(v.BlockSize(), read, |direct|, buf.Length);
      ReadNext(v, block, buf, read * v.BlockSize(), was, direct[..read]);
      read := read + 1;
    }
    assert read == |direct| && direct[..read] == direct;
  }

  // What reading leaves in the caller's buffer: the blocks in their order.
  method ReadFile(v: Volume, number: nat, buf: array<Byte>) returns (rc: Status)
    requires v.Mounted()
    requires number != 0 ==> Described(v, number) && StopsBeforeDouble(v, InodeBytes(v, number))
    requires number != 0 ==> v.BlockSize() * |BlocksRead(v, InodeBytes(v, number))| <= buf.Length
    modifies buf
    ensures rc == if number == 0 then Invalid else Success
    ensures number == 0 ==> buf[..] == old(buf[..])
    ensures number != 0 ==> Filled(v, buf[..], old(buf[..]), BlocksRead(v, InodeBytes(v, number)))
    ensures number != 0 && Plain(v, InodeBytes(v, number)) ==> Holds(v, InodeBytes(v, number), buf[..])
  {
    hide Block, Concat, Le32, Filled, InodeBytes, Listed, DirectRead, Described, BlocksNeeded, Volume.BlockSize,
      Plain, Holds;
    if number == 0 {
      return Invalid;
    }
    var inode := ReadInode(v, number);
    ghost var direct := DirectRead(v, inode);
    var total := BlocksNeeded(v, inode);
    RoomForFewer(v.BlockSize(), |direct|, |BlocksRead(v, inode)|, buf.Length);
    var read := ReadDirect(v, inode, total, buf);
    var single := Le32(inode, SINGLE_AT);
    if single != 0 && read < total {
      ReadSingle(v, single, buf, read * v.BlockSize(), old(buf[..]), direct);
    } else {
      assert BlocksRead(v, inode) == direct;
    }
    if Plain(v, inode) { FilledHolds(v, inode, buf[..], old(buf[..])); }
    return Success;
  }

  lemma RoomForFewer(size: nat, n: nat, all: nat, room: nat)
    requires n <= all && size * all <= room
    ensures size * n <= room
  {
    if n < all { Above(size, n, all); }
  }

  lemma NothingFilled(v: Volume, was: Bytes)
    ensures Filled(v, was, was, [])
  {
  }
}
