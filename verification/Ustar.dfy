// The ustar reader: records found by walking from header to header ("ustar
// Interchange Format", pax utility, IEEE Std 1003.1).
module Ustar {
  import opened ByteSeqs
  import opened CStrings
  import opened Wrappers

  const BLOCK := 512
  const MAGIC_AT := 257
  const SIZE_AT := 124
  const SIZE_DIGITS := 11
  const INT_LIMIT := 0x8000_0000

  const MAGIC: seq<Byte> := [117, 115, 116, 97, 114]

  // ---------- octal numbers ----------

  // The digit a character stands for, as C subtracts '0'.
  function Digit(c: Byte): int { (c as int) - 48 }

  function OctValue(s: seq<Byte>): int {
    if s == [] then 0 else 8 * OctValue(s[..|s| - 1]) + Digit(s[|s| - 1])
  }

  // v in the given number of octal digits, most significant first.
  function Octal(v: nat, digits: nat): (s: seq<Byte>)
    ensures |s| == digits
  {
    if digits == 0 then [] else Octal(v / 8, digits - 1) + [48 + v % 8]
  }

  function Pow8(n: nat): nat { if n == 0 then 1 else 8 * Pow8(n - 1) }

  lemma {:induction false} OctalRoundTrip(v: nat, digits: nat)
    requires v < Pow8(digits)
    ensures OctValue(Octal(v, digits)) == v
  {
    if digits > 0 {
      OctalRoundTrip(v / 8, digits - 1);
      var s := Octal(v, digits);
      assert s[..|s| - 1] == Octal(v / 8, digits - 1);
    }
  }

  method Oct2Bin(str: seq<Byte>, size: nat) returns (n: int)
    requires size <= |str|
    ensures n == OctValue(str[..size])
  {
    n := 0;
    var left, i := size, 0;
    while left > 0
      invariant 0 <= left <= size && i == size - left && n == OctValue(str[..i])
    {
      assert str[..i + 1][..i] == str[..i];
      n := n * 8;
      n := n + Digit(str[i]);
      left := left - 1;
      i := i + 1;
    }
  }

  // ---------- archives ----------

  datatype File = File(header: seq<Byte>, data: seq<Byte>)

  // A header block: the magic, and the size in octal, small enough for the
  // walk's int sums (see StepFits).
  ghost predicate GoodFile(f: File) {
    && |f.header| == BLOCK
    && f.header[MAGIC_AT..MAGIC_AT + |MAGIC|] == MAGIC
    && |f.data| + 2 * BLOCK <= INT_LIMIT
    && f.header[SIZE_AT..SIZE_AT + SIZE_DIGITS] == Octal(|f.data|, SIZE_DIGITS)
  }

  ghost predicate GoodFiles(files: seq<File>) { forall i :: 0 <= i < |files| ==> GoodFile(files[i]) }

  // Padding to the next block.
  function Pad(n: nat): nat { (BLOCK - n % BLOCK) % BLOCK }

  function Record(f: File): seq<Byte> { f.header + f.data + Zeros(Pad(|f.data|)) }

  function Records(files: seq<File>): seq<Byte> {
    if files == [] then [] else Records(files[..|files| - 1]) + Record(files[|files| - 1])
  }

  // Where the header of file i starts; for i == |files|, where the records end.
  function HeaderAt(files: seq<File>, i: nat): nat
    requires i <= |files|
  {
    |Records(files[..i])|
  }

  // An archive in memory: its records, and two zero blocks.
  ghost predicate IsArchive(tar: seq<Byte>, files: seq<File>) {
    GoodFiles(files) && tar == Records(files) + Zeros(2 * BLOCK)
  }

  // One step of the walk.
  function Step(filesize: int): int { ((filesize + BLOCK - 1) / BLOCK + 1) * BLOCK }

  // The two sums of a step are ints exactly for sizes up to two blocks less
  // than their limit.
  lemma StepFits(filesize: nat)
    ensures filesize + BLOCK - 1 < INT_LIMIT && Step(filesize) < INT_LIMIT <==> filesize + 2 * BLOCK <= INT_LIMIT
  {
  }

  lemma RecordLength(f: File)
    requires |f.header| == BLOCK
    ensures |Record(f)| == Step(|f.data|)
  {
    var q, r := |f.data| / BLOCK, |f.data| % BLOCK;
    assert |f.data| == BLOCK * q + r;
    assert (BLOCK * q + r + BLOCK - 1) / BLOCK == if r == 0 then q else q + 1;
  }

  lemma {:induction false} RecordsPrefix(files: seq<File>, i: nat)
    requires i <= |files|
    ensures Records(files[..i]) <= Records(files)
    decreases |files|
  {
    if i < |files| {
      var n := |files| - 1;
      assert files[..n][..i] == files[..i];
      RecordsPrefix(files[..n], i);
    } else {
      assert files[..i] == files;
    }
  }

  lemma RecordsNext(files: seq<File>, i: nat)
    requires i < |files|
    ensures Records(files[..i + 1]) == Records(files[..i]) + Record(files[i])
  {
    assert files[..i + 1][..i] == files[..i];
  }

  // At its place in the archive stand the header and the data of file i, and
  // the next header is one step further.
  lemma FileInPlace(tar: seq<Byte>, files: seq<File>, i: nat)
    requires IsArchive(tar, files) && i < |files|
    ensures var p := HeaderAt(files, i); var f := files[i];
            && HeaderAt(files, i + 1) == p + Step(|f.data|)
            && p + BLOCK + |f.data| + BLOCK <= |tar|
            && tar[p..p + BLOCK] == f.header
            && tar[p + BLOCK..p + BLOCK + |f.data|] == f.data
  {
    var p, f := HeaderAt(files, i), files[i];
    assert GoodFile(f);
    RecordLength(f);
    RecordsNext(files, i);
    RecordsPrefix(files, i + 1);
    var upTo := Records(files[..i + 1]);
    assert upTo <= tar;
    assert upTo == Records(files[..i]) + f.header + f.data + Zeros(Pad(|f.data|));
    assert upTo[p..p + BLOCK] == f.header;
    assert upTo[p + BLOCK..p + BLOCK + |f.data|] == f.data;
    assert tar[..|upTo|] == upTo;
    assert tar[p..p + BLOCK] == upTo[p..p + BLOCK];
    assert tar[p + BLOCK..p + BLOCK + |f.data|] == upTo[p + BLOCK..p + BLOCK + |f.data|];
  }

  // Behind the last record there is no magic.
  lemma EndInPlace(tar: seq<Byte>, files: seq<File>)
    requires IsArchive(tar, files)
    ensures var p := HeaderAt(files, |files|);
            p + 2 * BLOCK == |tar| && tar[p + MAGIC_AT] == 0
  {
    assert files[..|files|] == files;
  }

  // ---------- what a name finds ----------

  function Name(f: File): seq<Byte>
    requires |f.header| == BLOCK
  {
    CStr(f.header[1..])
  }

  // Names are compared by strcmp with the name asked for first: a record
  // matches if that is a prefix of the record's name.
  predicate Matches(fn: seq<Byte>, f: File) { |f.header| == BLOCK && fn <= Name(f) }

  // The number of the first matching file, |files| if there is none.
  function FirstMatch(files: seq<File>, fn: seq<Byte>): (k: nat)
    ensures k <= |files|
    ensures k < |files| ==> Matches(fn, files[k])
    ensures forall j :: 0 <= j < k ==> !Matches(fn, files[j])
  {
    if files == [] then 0 else if Matches(fn, files[0]) then 0 else FirstMatch(files[1..], fn) + 1
  }

  // The number of the first file of exactly that name, |files| if there is none.
  ghost function FirstNamed(files: seq<File>, fn: seq<Byte>): (k: nat)
    requires GoodFiles(files)
    ensures k <= |files| && (k < |files| ==> Name(files[k]) == fn)
    ensures forall j :: 0 <= j < k ==> Name(files[j]) != fn
  {
    if files == [] then 0 else
      assert GoodFile(files[0]);
      if Name(files[0]) == fn then 0 else FirstNamed(files[1..], fn) + 1
  }

  // The look-up finds the file of that name, and nothing for a name no file
  // has, exactly if no earlier record's name merely begins with it.
  lemma ExactLookup(files: seq<File>, fn: seq<Byte>)
    requires GoodFiles(files)
    ensures FirstMatch(files, fn) == FirstNamed(files, fn)
       <==> forall j :: 0 <= j < FirstNamed(files, fn) ==> !(fn < Name(files[j]))
  {
    var k, e := FirstMatch(files, fn), FirstNamed(files, fn);
    assert e < |files| ==> Matches(fn, files[e]);
    if k < e { assert fn < Name(files[k]); }
    forall j | 0 <= j < e && fn < Name(files[j]) ensures Matches(fn, files[j]) {}
  }

  // A name no file has is reported missing exactly if none begins with it.
  lemma MissingLookup(files: seq<File>, fn: seq<Byte>)
    requires GoodFiles(files) && forall j :: 0 <= j < |files| ==> Name(files[j]) != fn
    ensures FirstMatch(files, fn) == |files| <==> forall j :: 0 <= j < |files| ==> !(fn < Name(files[j]))
  {
    assert FirstNamed(files, fn) == |files|;
    ExactLookup(files, fn);
  }

  // ---------- archives as they are written ----------

  const FIELD_DIGITS := 7

  function Header(path: seq<Byte>, mode: nat, uid: nat, gid: nat, size: nat): seq<Byte>
    requires |path| < 100
  {
    path + Zeros(100 - |path|) + Octal(mode, FIELD_DIGITS) + [0] + Octal(uid, FIELD_DIGITS) + [0]
    + Octal(gid, FIELD_DIGITS) + [0] + Octal(size, SIZE_DIGITS) + Zeros(122) + MAGIC + Zeros(250)
  }

  lemma HeaderFields(path: seq<Byte>, mode: nat, uid: nat, gid: nat, size: nat)
    requires 0 < |path| < 100
    ensures var h := Header(path, mode, uid, gid, size);
            && |h| == BLOCK
            && h[100..107] == Octal(mode, FIELD_DIGITS) && h[108..115] == Octal(uid, FIELD_DIGITS)
            && h[116..123] == Octal(gid, FIELD_DIGITS)
            && h[SIZE_AT..SIZE_AT + SIZE_DIGITS] == Octal(size, SIZE_DIGITS)
            && h[MAGIC_AT..MAGIC_AT + |MAGIC|] == MAGIC
  {
    hide Octal;
  }

  lemma HeaderName(path: seq<Byte>, mode: nat, uid: nat, gid: nat, size: nat)
    requires 0 < |path| < 100
    ensures var h := Header(path, mode, uid, gid, size); |h| == BLOCK && path[1..] + [0] <= h[1..]
  {
    hide Octal;
    var h := Header(path, mode, uid, gid, size);
    assert h[|path|] == 0;
    assert h[..|path|] == path;
    assert forall i :: 1 <= i < |path| ==> h[i] == h[..|path|][i];
    assert h[1..][..|path|] == path[1..] + [0];
  }

  // What is put into an archive under a path is found there with its mode, its
  // owner and its size, by the path without its first byte.
  lemma WrittenFile(path: seq<Byte>, mode: nat, uid: nat, gid: nat, data: seq<Byte>, files: seq<File>, k: nat)
    requires 0 < |path| < 100 && NoNul(path) && |data| + 2 * BLOCK <= INT_LIMIT
    requires mode < Pow8(FIELD_DIGITS) && uid < Pow8(FIELD_DIGITS) && gid < Pow8(FIELD_DIGITS)
    requires k < |files| && files[k] == File(Header(path, mode, uid, gid, |data|), data)
    ensures GoodFile(files[k]) && Name(files[k]) == path[1..]
    ensures var i := InodeOf(files, k);
            i.mode == mode && i.uid == uid && i.gid == gid && i.number == k && i.length == |data|
  {
    hide CStr, Octal, OctValue, HeaderAt, Header;
    var h := Header(path, mode, uid, gid, |data|);
    HeaderFields(path, mode, uid, gid, |data|);
    HeaderName(path, mode, uid, gid, |data|);
    OctalRoundTrip(mode, FIELD_DIGITS);
    OctalRoundTrip(uid, FIELD_DIGITS);
    OctalRoundTrip(gid, FIELD_DIGITS);
    CStrOf(path[1..], h[1..]);
  }

  // An archive with the one file "ab", asked for "a", which it does not have.
  lemma LongerNameAnswers()
    ensures var f := File(Header([46, 97, 98], 0, 0, 0, 0), []);
            GoodFiles([f]) && FirstMatch([f], [97]) == 0 && FirstNamed([f], [97]) == 1
  {
    hide Header;
    var f := File(Header([46, 97, 98], 0, 0, 0, 0), []);
    WrittenFile([46, 97, 98], 0, 0, 0, [], [f], 0);
    assert Name(f) == [97, 98];
    assert Matches([97], f);
  }

  // What the walk reads in the header of file i.
  lemma HeaderInPlace(tar: seq<Byte>, files: seq<File>, i: nat, fn: seq<Byte>)
    requires IsArchive(tar, files) && i < |files| && NoNul(fn) && |fn| < BLOCK
    ensures var p := HeaderAt(files, i); var f := files[i];
            && p + BLOCK < |tar|
            && tar[p + MAGIC_AT..][..|MAGIC|] == MAGIC
            && OctValue(tar[p + SIZE_AT..][..SIZE_DIGITS]) == |f.data|
            && (fn <= CStr(tar[p + 1..]) <==> Matches(fn, f))
            && tar[p + 100..][..7] == f.header[100..107]
            && tar[p + 108..][..7] == f.header[108..115]
            && tar[p + 116..][..7] == f.header[116..123]
  {
    hide Records, Octal, OctValue, CStr;
    FileInPlace(tar, files, i);
    var p, f := HeaderAt(files, i), files[i];
    assert GoodFile(f);
    Slice(tar, p, f.header, MAGIC_AT, |MAGIC|);
    Slice(tar, p, f.header, SIZE_AT, SIZE_DIGITS);
    Slice(tar, p, f.header, 100, 7);
    Slice(tar, p, f.header, 108, 7);
    Slice(tar, p, f.header, 116, 7);
    Slice(tar, p, f.header, 1, |fn|);
    assert Pow8(SIZE_DIGITS) == 0x2_0000_0000;
    OctalRoundTrip(|f.data|, SIZE_DIGITS);
    PrefixOfCStr(fn, tar[p + 1..]);
    PrefixOfCStr(fn, f.header[1..]);
    assert fn <= tar[p + 1..] <==> fn == tar[p + 1..][..|fn|];
    assert fn <= f.header[1..] <==> fn == f.header[1..][..|fn|];
    assert f.header[1..][..|fn|] == f.header[1..1 + |fn|];
  }

  lemma Slice(tar: seq<Byte>, p: nat, header: seq<Byte>, at: nat, n: nat)
    requires p + |header| <= |tar| && tar[p..p + |header|] == header && at + n <= |header|
    ensures tar[p + at..][..n] == header[at..at + n]
  {
    var got := tar[p + at..][..n];
    forall k | 0 <= k < n ensures got[k] == header[at + k] {
      assert got[k] == tar[p + at + k] == tar[p..p + |header|][at + k];
    }
  }

  // The test that keeps the walk going: there is a header where file i starts,
  // and none behind the last record.
  method AtHeader(tar: seq<Byte>, ptr: nat, ghost files: seq<File>, ghost i: nat) returns (more: bool)
    requires IsArchive(tar, files) && i <= |files| && ptr == HeaderAt(files, i)
    ensures more <==> i < |files|
    ensures more ==> ptr + BLOCK < |tar|
  {
    hide Records, GoodFiles, GoodFile, CStr, OctValue;
    if i < |files| { HeaderInPlace(tar, files, i, []); } else { EndInPlace(tar, files); }
    var cmp := MemCmp(tar[ptr + MAGIC_AT..], MAGIC, |MAGIC|);
    assert MAGIC[..|MAGIC|] == MAGIC;
    if i == |files| {
      assert tar[ptr + MAGIC_AT..][..|MAGIC|][0] == 0;
    }
    more := cmp == 0;
  }

  datatype Inode = Inode(mode: int, uid: int, gid: int, number: nat, length: int, at: nat)

  datatype Found = Found(inode: Inode) | Missing

  function InodeOf(files: seq<File>, k: nat): Inode
    requires k < |files| && |files[k].header| == BLOCK
  {
    var h := files[k].header;
    Inode(OctValue(h[100..107]), OctValue(h[108..115]), OctValue(h[116..123]), k, |files[k].data|, HeaderAt(files, k))
  }

  // namei: the walk goes over exactly the headers, in order, and stops at the
  // first match or behind the last record.
  method Namei(tar: seq<Byte>, fn: seq<Byte>, ghost files: seq<File>) returns (r: Found)
    requires IsArchive(tar, files) && NoNul(fn) && |fn| < BLOCK
    ensures var k := FirstMatch(files, fn);
            r == if k < |files| then Found(InodeOf(files, k)) else Missing
    ensures r.Found? ==>
              var (k, i, f) := (FirstMatch(files, fn), r.inode, files[FirstMatch(files, fn)]);
              && i.number == k && i.length == |f.data|
              && i.at + BLOCK + |f.data| <= |tar|
              && tar[i.at..i.at + BLOCK] == f.header && tar[i.at + BLOCK..i.at + BLOCK + |f.data|] == f.data
  {
    hide Records, GoodFiles, GoodFile, IsArchive, CStr, OctValue, Matches, HeaderAt, Step;
    var ptr := 0;
    var inodeNum: nat := 0;
    StartOfWalk(files);
    var more := AtHeader(tar, ptr, files, 0);
    while more
      invariant inodeNum <= |files| && ptr == HeaderAt(files, inodeNum)
      invariant more <==> inodeNum < |files|
      invariant forall j :: 0 <= j < inodeNum ==> !Matches(fn, files[j])
      decreases |files| - inodeNum
    {
      HeaderInPlace(tar, files, inodeNum, fn);
      FileInPlace(tar, files, inodeNum);
      var filesize := Oct2Bin(tar[ptr + SIZE_AT..], SIZE_DIGITS);
      var diff := StrCmp(fn, tar[ptr + 1..]);
      if diff == 0 {
        var mode := Oct2Bin(tar[ptr + 100..], 7);
        var uid := Oct2Bin(tar[ptr + 108..], 7);
        var gid := Oct2Bin(tar[ptr + 116..], 7);
        return Found(Inode(mode, uid, gid, inodeNum, filesize, ptr));
      }
      ptr := ptr + Step(filesize);
      inodeNum := inodeNum + 1;
      more := AtHeader(tar, ptr, files, inodeNum);
    }
    return Missing;
  }

  lemma StartOfWalk(files: seq<File>)
    ensures HeaderAt(files, 0) == 0
  {
    assert files[..0] == [];
  }

  // What a read of sz bytes from fpos on, of file k, is to give.
  function Span(tar: seq<Byte>, files: seq<File>, k: nat, fpos: nat, sz: nat): seq<Byte>
    requires k < |files| && HeaderAt(files, k) + BLOCK + fpos + sz <= |tar|
  {
    var at := HeaderAt(files, k) + BLOCK + fpos;
    tar[at..at + sz]
  }

  // Within the file that is the file's own slice, however the archive goes on.
  lemma SpanIsData(tar: seq<Byte>, files: seq<File>, k: nat, fpos: nat, sz: nat)
    requires IsArchive(tar, files) && k < |files| && fpos + sz <= |files[k].data|
    ensures HeaderAt(files, k) + BLOCK + fpos + sz <= |tar|
    ensures Span(tar, files, k, fpos, sz) == files[k].data[fpos..fpos + sz]
  {
    hide Records;
    FileInPlace(tar, files, k);
    var data := files[k].data;
    var buf := HeaderAt(files, k) + BLOCK;
    SubSlice(tar, buf, buf + |data|, fpos, fpos + sz);
  }

  // read: the walk is made again, by the name kept in the file, so it ends at
  // the record namei found; sz bytes from fpos on are copied from behind its
  // header. Nothing is checked against the size of the file.
  method ReadFile(tar: seq<Byte>, name: seq<Byte>, fpos: nat, buffer: array<Byte>, sz: nat, ghost files: seq<File>)
      returns (rc: Status)
    requires IsArchive(tar, files) && NoNul(name) && |name| < BLOCK && sz <= buffer.Length
    requires var k := FirstMatch(files, name);
             k < |files| ==> HeaderAt(files, k) + BLOCK + fpos + sz <= |tar|
    modifies buffer
    ensures var k := FirstMatch(files, name);
            if k < |files| then
              rc == Success && buffer[..] == Span(tar, files, k, fpos, sz) + old(buffer[sz..])
            else
              rc == NoEntry && buffer[..] == old(buffer[..])
  {
    hide Records, GoodFiles, GoodFile, IsArchive, CStr, OctValue, Matches, HeaderAt, Step;
    var ptr := 0;
    ghost var i: nat := 0;
    StartOfWalk(files);
    var more := AtHeader(tar, ptr, files, 0);
    while more
      invariant i <= |files| && ptr == HeaderAt(files, i)
      invariant more <==> i < |files|
      invariant forall j :: 0 <= j < i ==> !Matches(name, files[j])
      invariant buffer[..] == old(buffer[..])
      decreases |files| - i
    {
      HeaderInPlace(tar, files, i, name);
      FileInPlace(tar, files, i);
      var filesize := Oct2Bin(tar[ptr + SIZE_AT..], SIZE_DIGITS);
      var diff := StrCmp(name, tar[ptr + 1..]);
      if diff == 0 {
        var buf := ptr + BLOCK;
        CopyTo(buffer, 0, tar[buf + fpos..buf + fpos + sz]);
        return Success;
      }
      ptr := ptr + Step(filesize);
      i := i + 1;
      more := AtHeader(tar, ptr, files, i);
    }
    return NoEntry;
  }
}
