// Finding an ext2 inode by path.
module Ext2Dir {
  import opened ByteSeqs
  import opened CStrings
  import opened Ext2Volume

  const SLASH: Byte := 47
  const ROOT := 2
  const ENTRY_HEADER := 8
  const MAX_NAME := 255

  // ---------- paths ----------

  // index_of('/', fn)
  function SlashAt(fn: Bytes): (k: nat)
    ensures k <= |fn| && SLASH !in fn[..k]
    ensures k < |fn| ==> fn[k] == SLASH
  {
    if fn == [] || fn[0] == SLASH then 0 else SlashAt(fn[1..]) + 1
  }

  function Rest(fn: Bytes): Bytes {
    var k := SlashAt(fn);
    if k == |fn| then [] else fn[k + 1..]
  }

  function Components(fn: Bytes): seq<Bytes>
    decreases |fn|
  {
    if fn == [] then [] else [fn[..SlashAt(fn)]] + Components(Rest(fn))
  }

  function Join(names: seq<Bytes>): Bytes {
    if names == [] then [] else if |names| == 1 then names[0] else names[0] + [SLASH] + Join(names[1..])
  }

  lemma {:induction false} SlashAfter(name: Bytes, rest: Bytes)
    requires SLASH !in name
    ensures SlashAt(name + [SLASH] + rest) == |name| && SlashAt(name) == |name|
  {
    if name != [] {
      SlashAfter(name[1..], rest);
      assert (name + [SLASH] + rest)[1..] == name[1..] + [SLASH] + rest;
    }
  }

  // A path joined from names falls into these names again.
  lemma {:induction false} ComponentsOfJoin(names: seq<Bytes>)
    requires forall i :: 0 <= i < |names| ==> SLASH !in names[i]
    requires names != [] ==> names[|names| - 1] != []
    ensures Components(Join(names)) == names
  {
    if |names| == 1 {
      SlashAfter(names[0], []);
      assert names[0][..|names[0]|] == names[0];
      assert Rest(names[0]) == [] && Components([]) == [];
      assert Components(names[0]) == [names[0]] + Components([]) == names;
    } else if |names| > 1 {
      var name, rest := names[0], Join(names[1..]);
      SlashAfter(name, rest);
      ComponentsOfJoin(names[1..]);
      var fn := name + [SLASH] + rest;
      assert fn[..|name|] == name && fn[|name| + 1..] == rest;
    }
  }

  // ---------- directories ----------

  datatype Entry = Entry(inode: nat, name: Bytes)

  // The header of an entry and its name lie inside the block.
  predicate EntryFits(block: Bytes, at: nat) {
    && at + ENTRY_HEADER <= |block|
    && at + ENTRY_HEADER + block[at + 6] as int <= |block|
  }

  // Whether there is an entry in use.
  predicate Used(block: Bytes, at: nat)
    requires at < |block| ==> at + 4 <= |block|
  {
    at < |block| && Le32(block, at) != 0
  }

  function EntryAt(block: Bytes, at: nat): Entry
    requires EntryFits(block, at)
  {
    var name := at + ENTRY_HEADER;
    Entry(Le32(block, at), CStr(block[name..name + block[at + 6] as int]))
  }

  // Going from entry to entry, all that is read lies inside the block. An entry
  // of size 0 leads back to itself.
  predicate Readable(block: Bytes, at: nat)
    decreases |block| - at
  {
    && (at < |block| ==> at + 4 <= |block|)
    && (Used(block, at) ==>
          EntryFits(block, at) && (Le16(block, at + 4) > 0 ==> Readable(block, at + Le16(block, at + 4))))
  }

  // The entries from one on, up to an unused one, one of size 0 or the end of
  // the block.
  function EntriesFrom(block: Bytes, at: nat): seq<Entry>
    requires Readable(block, at)
    decreases |block| - at
  {
    if !Used(block, at) then []
    else
      [EntryAt(block, at)]
      + if Le16(block, at + 4) == 0 then [] else EntriesFrom(block, at + Le16(block, at + 4))
  }

  // ---------- when a search ends ----------

  // The search for a component comes to an entry in use that does not match and
  // has size 0.
  predicate Stuck(block: Bytes, at: nat, component: Bytes)
    requires Readable(block, at)
    decreases |block| - at
  {
    && Used(block, at) && !(EntryAt(block, at).name <= component)
    && (Le16(block, at + 4) == 0 || Stuck(block, at + Le16(block, at + 4), component))
  }

  datatype Search = Looking(at: nat) | Over(found: nat)

  // The search after so many rounds of its loop.
  function After(block: Bytes, at: nat, component: Bytes, rounds: nat): Search
    requires Readable(block, at)
    decreases rounds
  {
    if rounds == 0 then Looking(at)
    else if !Used(block, at) then Over(0)
    else if EntryAt(block, at).name <= component then Over(Le32(block, at))
    else After(block, at + Le16(block, at + 4), component, rounds - 1)
  }

  lemma {:induction false} StuckForever(block: Bytes, at: nat, component: Bytes, rounds: nat)
    requires Readable(block, at) && Stuck(block, at, component)
    ensures After(block, at, component, rounds).Looking?
    decreases rounds
  {
    if rounds > 0 { StuckForever(block, at + Le16(block, at + 4), component, rounds - 1); }
  }

  lemma {:induction false} EndsInTime(block: Bytes, at: nat, component: Bytes, rounds: nat)
    requires Readable(block, at) && !Stuck(block, at, component) && rounds > |block| - at && rounds > 0
    ensures After(block, at, component, rounds) == Over(Find(EntriesFrom(block, at), component))
    decreases |block| - at
  {
    if Used(block, at) && !(EntryAt(block, at).name <= component) {
      var next := at + Le16(block, at + 4);
      assert EntriesFrom(block, at)[1..] == EntriesFrom(block, next);
      EndsInTime(block, next, component, rounds - 1);
    }
  }

  // The search of a block ends if and only if it comes to no such entry, and
  // then after no more rounds than the block has bytes, and one.
  lemma SearchEnds(block: Bytes, component: Bytes)
    requires Readable(block, 0)
    ensures (exists rounds: nat :: After(block, 0, component, rounds).Over?) <==> !Stuck(block, 0, component)
    ensures !Stuck(block, 0, component) ==>
              After(block, 0, component, |block| + 1) == Over(Find(EntriesFrom(block, 0), component))
  {
    if Stuck(block, 0, component) {
      forall rounds: nat ensures !After(block, 0, component, rounds).Over? {
        StuckForever(block, 0, component, rounds);
      }
    } else {
      EndsInTime(block, 0, component, |block| + 1);
    }
  }

  // A block with the one entry "b" of size 0, searched for "a", is searched for
  // ever; one that is all zero is searched at once.
  lemma LoopingBlock()
    ensures var block := Zeros(1024)[0 := 5][6 := 1][ENTRY_HEADER := 98];
            && Readable(block, 0) && Stuck(block, 0, [97])
            && forall rounds: nat :: After(block, 0, [97], rounds).Looking?
    ensures Readable(Zeros(1024), 0) && EntriesFrom(Zeros(1024), 0) == []
  {
    hide Zeros;
    var block := Zeros(1024)[0 := 5][6 := 1][ENTRY_HEADER := 98];
    assert block[8..9] == [98];
    forall rounds: nat ensures After(block, 0, [97], rounds).Looking? { StuckForever(block, 0, [97], rounds); }
  }

  // ---------- blocks as they are written ----------

  // An entry with the room it takes and its type byte.
  datatype Stored = Stored(entry: Entry, size: nat, kind: Byte)

  predicate Storable(s: Stored) {
    && 0 < s.entry.inode < WORD && |s.entry.name| <= MAX_NAME && NoNul(s.entry.name)
    && ENTRY_HEADER + |s.entry.name| <= s.size < 0x1_0000
  }

  function Image(s: Stored): (r: Bytes)
    requires Storable(s)
    ensures |r| == s.size
  {
    PutLe32(s.entry.inode) + PutLe16(s.size) + [|s.entry.name|, s.kind] + s.entry.name
    + Zeros(s.size - ENTRY_HEADER - |s.entry.name|)
  }

  function BlockImage(entries: seq<Stored>): Bytes
    requires forall s :: s in entries ==> Storable(s)
  {
    if entries == [] then [] else Image(entries[0]) + BlockImage(entries[1..])
  }

  function Plain(entries: seq<Stored>): seq<Entry> {
    if entries == [] then [] else [entries[0].entry] + Plain(entries[1..])
  }

  lemma EntryFromImage(block: Bytes, at: nat, s: Stored)
    requires Storable(s) && at + s.size <= |block| && block[at..at + s.size] == Image(s)
    ensures EntryFits(block, at) && EntryAt(block, at) == s.entry
    ensures Le32(block, at) == s.entry.inode && Le16(block, at + 4) == s.size
  {
    hide CStr;
    var image, n := Image(s), |s.entry.name|;
    var inode, size := PutLe32(s.entry.inode), PutLe16(s.size);
    assert forall k :: 0 <= k < s.size ==> image[k] == block[at..at + s.size][k] == block[at + k];
    assert image[0] == inode[0] && image[1] == inode[1] && image[2] == inode[2] && image[3] == inode[3];
    assert image[4] == size[0] && image[5] == size[1] && image[6] as int == n;
    assert block[at + 6] as int == n;
    assert image[8..8 + n] == s.entry.name;
    assert block[at + 8..at + 8 + n] == s.entry.name;
    WholeCStr(s.entry.name);
  }

  // A block holds the entries that were put into it.
  lemma {:induction false} EntriesFromImage(block: Bytes, at: nat, entries: seq<Stored>)
    requires forall s :: s in entries ==> Storable(s)
    requires at <= |block| && block[at..] == BlockImage(entries)
    ensures Readable(block, at) && EntriesFrom(block, at) == Plain(entries)
    decreases |entries|
  {
    hide EntryFits, EntryAt, Image, Le16, Le32;
    if entries != [] {
      var s, rest := entries[0], BlockImage(entries[1..]);
      assert s in entries;
      var image, tail := Image(s), block[at..];
      assert tail == image + rest;
      assert tail[..s.size] == image && tail[s.size..] == rest;
      SubSlice(block, at, |block|, 0, s.size);
      SubSlice(block, at, |block|, s.size, |tail|);
      EntryFromImage(block, at, s);
      EntriesFromImage(block, at + s.size, entries[1..]);
    }
  }

  predicate GoodBlocks(v: Volume, blocks: seq<nat>) {
    forall i :: 0 <= i < |blocks| ==> Readable(Block(v, blocks[i]), 0)
  }

  // The search gets stuck in one of the blocks, with no match in those before.
  predicate StuckIn(v: Volume, blocks: seq<nat>, component: Bytes)
    requires GoodBlocks(v, blocks)
  {
    && blocks != []
    && (Stuck(Block(v, blocks[0]), 0, component)
        || (Find(EntriesFrom(Block(v, blocks[0]), 0), component) == 0 && StuckIn(v, blocks[1..], component)))
  }

  function EntriesOf(v: Volume, blocks: seq<nat>): seq<Entry>
    requires GoodBlocks(v, blocks)
  {
    if blocks == [] then [] else EntriesFrom(Block(v, blocks[0]), 0) + EntriesOf(v, blocks[1..])
  }

  // A directory that can be read: its inode and its blocks are in order.
  predicate GoodDirectory(v: Volume, inode: nat) {
    Described(v, inode) && GoodBlocks(v, DirectBlocks(v, InodeBytes(v, inode), 0))
  }

  function Directory(v: Volume, inode: nat): seq<Entry>
    requires GoodDirectory(v, inode)
  {
    EntriesOf(v, DirectBlocks(v, InodeBytes(v, inode), 0))
  }

  // The search of the directory for the component ends.
  predicate Searchable(v: Volume, inode: nat, component: Bytes) {
    GoodDirectory(v, inode) && !StuckIn(v, DirectBlocks(v, InodeBytes(v, inode), 0), component)
  }

  // The inode of the first entry whose name is a prefix of the component; 0 if
  // there is none.
  function Find(entries: seq<Entry>, component: Bytes): nat {
    if entries == [] then 0
    else if entries[0].name <= component then entries[0].inode
    else Find(entries[1..], component)
  }

  lemma {:induction false} FindAppend(a: seq<Entry>, b: seq<Entry>, component: Bytes)
    requires forall e :: e in a ==> e.inode != 0
    ensures Find(a + b, component) == if Find(a, component) != 0 then Find(a, component) else Find(b, component)
  {
    if a == [] {
      assert a + b == b;
    } else {
      assert a[0] in a;
      FindAppend(a[1..], b, component);
      assert (a + b)[1..] == a[1..] + b;
    }
  }

  lemma {:induction false} EntriesUsed(block: Bytes, at: nat)
    requires Readable(block, at)
    ensures forall e :: e in EntriesFrom(block, at) ==> e.inode != 0
    decreases |block| - at
  {
    if Used(block, at) && Le16(block, at + 4) > 0 {
      EntriesUsed(block, at + Le16(block, at + 4));
    }
  }

  // The place of the first entry of exactly that name.
  function FirstNamed(entries: seq<Entry>, name: Bytes): (k: nat)
    ensures k <= |entries| && (k < |entries| ==> entries[k].name == name)
    ensures forall i :: 0 <= i < k ==> entries[i].name != name
  {
    if entries == [] || entries[0].name == name then 0 else FirstNamed(entries[1..], name) + 1
  }

  // What looking up a name is to find: that entry's inode, or nothing.
  function FindNamed(entries: seq<Entry>, name: Bytes): nat {
    var k := FirstNamed(entries, name);
    if k < |entries| then entries[k].inode else 0
  }

  // No entry that comes before the one asked for has a name the component
  // merely begins with.
  predicate Unshadowed(entries: seq<Entry>, component: Bytes) {
    forall i :: 0 <= i < FirstNamed(entries, component) ==> !(entries[i].name < component)
  }

  // Such an entry is no second link to what is asked for.
  predicate NoShorterLink(entries: seq<Entry>, component: Bytes) {
    forall i :: 0 <= i < FirstNamed(entries, component) && entries[i].name < component ==>
      entries[i].inode != FindNamed(entries, component)
  }

  // A search finds what the name stands for, and nothing for a name no entry
  // has, exactly if the component is not shadowed.
  lemma {:induction false} FindExact(entries: seq<Entry>, component: Bytes)
    requires forall e :: e in entries ==> e.inode != 0
    ensures Unshadowed(entries, component) ==> Find(entries, component) == FindNamed(entries, component)
    ensures NoShorterLink(entries, component) ==>
              (Find(entries, component) == FindNamed(entries, component) <==> Unshadowed(entries, component))
  {
    if entries != [] && entries[0].name != component {
      var rest, k := entries[1..], FirstNamed(entries, component);
      assert entries[0] in entries;
      assert forall i :: 0 <= i < k - 1 ==> rest[i] == entries[i + 1];
      assert forall i :: 1 <= i < k ==> entries[i] == rest[i - 1];
      FindExact(rest, component);
    }
  }

  // A name no entry has is reported missing exactly if none is a prefix of it.
  lemma FindMissing(entries: seq<Entry>, component: Bytes)
    requires forall e :: e in entries ==> e.inode != 0 && e.name != component
    ensures Find(entries, component) == 0 <==> forall e :: e in entries ==> !(e.name < component)
  {
    assert FirstNamed(entries, component) == |entries|;
    FindExact(entries, component);
  }

  // An entry "a" in front of "ab" answers for "ab", and also if there is no "ab".
  lemma PrefixShadows()
    ensures Find([Entry(11, [97]), Entry(12, [97, 98])], [97, 98]) == 11
    ensures Find([Entry(11, [97])], [97, 98]) == 11 && FindNamed([Entry(11, [97])], [97, 98]) == 0
  {
  }

  // ---------- resolving ----------

  // Every directory on the way can be read, and its search ends.
  predicate GoodWay(v: Volume, dir: nat, names: seq<Bytes>)
    decreases |names|
  {
    names != [] ==>
      Searchable(v, dir, names[0]) &&
      var next := Find(Directory(v, dir), names[0]);
      next != 0 ==> Described(v, next) && GoodWay(v, next, names[1..])
  }

  function Resolve(v: Volume, dir: nat, names: seq<Bytes>): nat
    requires GoodWay(v, dir, names)
    decreases |names|
  {
    if names == [] then dir else
      var next := Find(Directory(v, dir), names[0]);
      if next == 0 then 0 else Resolve(v, next, names[1..])
  }

  // A way in two parts is resolved part by part.
  lemma {:induction false} ResolveAppend(v: Volume, dir: nat, a: seq<Bytes>, b: seq<Bytes>)
    requires dir != 0 && GoodWay(v, dir, a + b)
    ensures GoodWay(v, dir, a)
    ensures Resolve(v, dir, a) != 0 ==> GoodWay(v, Resolve(v, dir, a), b)
    ensures Resolve(v, dir, a + b) ==
            if Resolve(v, dir, a) == 0 then 0 else Resolve(v, Resolve(v, dir, a), b)
    decreases |a|
  {
    hide GoodDirectory, Directory, Find, Described;
    if a == [] {
      assert a + b == b;
    } else {
      assert (a + b)[1..] == a[1..] + b && (a + b)[0] == a[0];
      var next := Find(Directory(v, dir), a[0]);
      if next != 0 {
        ResolveAppend(v, next, a[1..], b);
      }
    }
  }

  // ---------- resolving by exact names ----------

  predicate GoodNamedWay(v: Volume, dir: nat, names: seq<Bytes>)
    decreases |names|
  {
    names != [] ==>
      Searchable(v, dir, names[0]) &&
      var next := FindNamed(Directory(v, dir), names[0]);
      next != 0 ==> Described(v, next) && GoodNamedWay(v, next, names[1..])
  }

  function ResolveNamed(v: Volume, dir: nat, names: seq<Bytes>): nat
    requires GoodNamedWay(v, dir, names)
    decreases |names|
  {
    if names == [] then dir else
      var next := FindNamed(Directory(v, dir), names[0]);
      if next == 0 then 0 else ResolveNamed(v, next, names[1..])
  }

  // In no directory on the way is the component asked for shadowed.
  predicate ClearWay(v: Volume, dir: nat, names: seq<Bytes>)
    requires GoodNamedWay(v, dir, names)
    decreases |names|
  {
    names != [] ==>
      Unshadowed(Directory(v, dir), names[0]) &&
      var next := FindNamed(Directory(v, dir), names[0]);
      next != 0 ==> ClearWay(v, next, names[1..])
  }

  lemma {:induction false} DirectoryUsed(v: Volume, blocks: seq<nat>)
    requires GoodBlocks(v, blocks)
    ensures forall e :: e in EntriesOf(v, blocks) ==> e.inode != 0
  {
    if blocks != [] {
      EntriesUsed(Block(v, blocks[0]), 0);
      DirectoryUsed(v, blocks[1..]);
    }
  }

  // On a clear way the walk ends where the names lead, and reports a path as
  // missing exactly if one of its names is.
  lemma {:induction false} ResolveExact(v: Volume, dir: nat, names: seq<Bytes>)
    requires GoodNamedWay(v, dir, names) && ClearWay(v, dir, names)
    ensures GoodWay(v, dir, names) && Resolve(v, dir, names) == ResolveNamed(v, dir, names)
    decreases |names|
  {
    hide Find, FindNamed, Unshadowed, NoShorterLink, Described, EntriesOf, DirectBlocks, InodeBytes, Block;
    if names != [] {
      var next := FindNamed(Directory(v, dir), names[0]);
      DirectoryUsed(v, DirectBlocks(v, InodeBytes(v, dir), 0));
      FindExact(Directory(v, dir), names[0]);
      if next != 0 { ResolveExact(v, next, names[1..]); }
    }
  }

  // The inodes gone through, the last one 0 if a name is missing.
  function Trail(v: Volume, dir: nat, names: seq<Bytes>): seq<nat>
    requires GoodWay(v, dir, names)
    decreases |names|
  {
    if names == [] then [] else
      var next := Find(Directory(v, dir), names[0]);
      [next] + if next == 0 then [] else Trail(v, next, names[1..])
  }

  function NamedTrail(v: Volume, dir: nat, names: seq<Bytes>): seq<nat>
    requires GoodNamedWay(v, dir, names)
    decreases |names|
  {
    if names == [] then [] else
      var next := FindNamed(Directory(v, dir), names[0]);
      [next] + if next == 0 then [] else NamedTrail(v, next, names[1..])
  }

  predicate NoShorterLinks(v: Volume, dir: nat, names: seq<Bytes>)
    requires GoodNamedWay(v, dir, names)
    decreases |names|
  {
    names != [] ==>
      NoShorterLink(Directory(v, dir), names[0]) &&
      var next := FindNamed(Directory(v, dir), names[0]);
      next != 0 ==> NoShorterLinks(v, next, names[1..])
  }

  // Second links under shorter names aside, the walk takes the way the names
  // lead exactly if that way is clear.
  lemma {:induction false} TrailExact(v: Volume, dir: nat, names: seq<Bytes>)
    requires GoodWay(v, dir, names) && GoodNamedWay(v, dir, names) && NoShorterLinks(v, dir, names)
    ensures Trail(v, dir, names) == NamedTrail(v, dir, names) <==> ClearWay(v, dir, names)
    decreases |names|
  {
    hide Find, FindNamed, Unshadowed, NoShorterLink, Described, EntriesOf, DirectBlocks, InodeBytes, Block;
    if names != [] {
      var next, named := Find(Directory(v, dir), names[0]), FindNamed(Directory(v, dir), names[0]);
      DirectoryUsed(v, DirectBlocks(v, InodeBytes(v, dir), 0));
      FindExact(Directory(v, dir), names[0]);
      assert Trail(v, dir, names)[0] == next && NamedTrail(v, dir, names)[0] == named;
      if next == named && next != 0 {
        TrailExact(v, next, names[1..]);
        assert Trail(v, dir, names)[1..] == Trail(v, next, names[1..]);
        assert NamedTrail(v, dir, names)[1..] == NamedTrail(v, next, names[1..]);
      }
    }
  }

  // ---------- paths ----------

  // Where the walk of a path starts, and which names it goes through.
  function Start(fn: Bytes, dir: nat): nat { if fn != [] && fn[0] == SLASH then ROOT else dir }

  function Names(fn: Bytes): seq<Bytes> { Components(if fn != [] && fn[0] == SLASH then fn[1..] else fn) }

  // A path joined from names that starts with a slash is walked from inode 2
  // through these names; one whose first name is not empty, from the directory
  // passed in.
  lemma NamesOfJoin(names: seq<Bytes>, dir: nat)
    requires forall i :: 0 <= i < |names| ==> SLASH !in names[i]
    requires names != [] ==> names[|names| - 1] != []
    ensures Names([SLASH] + Join(names)) == names && Start([SLASH] + Join(names), dir) == 2
    ensures names == [] || names[0] != [] ==> Names(Join(names)) == names && Start(Join(names), dir) == dir
  {
    hide Components;
    ComponentsOfJoin(names);
    assert ([SLASH] + Join(names))[1..] == Join(names);
    if |names| > 1 { assert Join(names) == names[0] + [SLASH] + Join(names[1..]); }
  }

  lemma SplitAt(fn: Bytes, k: nat)
    requires k < |fn|
    ensures fn == fn[..k] + [fn[k]] + fn[k + 1..]
    ensures k + 1 < |fn| ==> fn[k + 1..] != [] && Last(fn[k + 1..]) == Last(fn)
  {
  }

  function Last(s: Bytes): Byte
    requires s != []
  {
    s[|s| - 1]
  }

  lemma {:induction false} ComponentsSlashFree(fn: Bytes)
    ensures forall i :: 0 <= i < |Components(fn)| ==> SLASH !in Components(fn)[i]
    decreases |fn|
  {
    if fn != [] {
      ComponentsSlashFree(Rest(fn));
      assert Components(fn) == [fn[..SlashAt(fn)]] + Components(Rest(fn));
    }
  }

  function LastSlash(fn: Bytes): Bytes { if fn != [] && Last(fn) == SLASH then [SLASH] else [] }

  lemma Regrouped(a: Bytes, b: Bytes, c: Bytes, d: Bytes)
    ensures a + b + (c + d) == a + b + c + d
  {
  }

  // No byte of a path but a last slash is lost in taking it apart.
  lemma {:induction false} JoinOfComponents(fn: Bytes)
    ensures fn == Join(Components(fn)) + LastSlash(fn)
    decreases |fn|
  {
    if fn != [] {
      var k, rest := SlashAt(fn), Rest(fn);
      var names := Components(rest);
      assert Components(fn) == [fn[..k]] + names && (rest != [] <==> names != []);
      JoinFirst(fn[..k], names);
      if k == |fn| {
        hide Components, Join, SlashAt;
        assert fn[..k] == fn;
        assert Last(fn) in fn[..k];
      } else {
        hide Components, Join, SlashAt;
        SplitAt(fn, k);
        JoinOfComponents(rest);
        if rest == [] {
          assert Last(fn) == SLASH;
        } else {
          assert LastSlash(fn) == LastSlash(rest);
          hide LastSlash;
          Regrouped(fn[..k], [SLASH], Join(names), LastSlash(rest));
        }
      }
    }
  }

  lemma JoinFirst(name: Bytes, names: seq<Bytes>)
    ensures Join([name] + names) == if names == [] then name else name + [SLASH] + Join(names)
  {
    assert ([name] + names)[1..] == names;
  }

  // "/", "/b" and "a/b", byte by byte.
  lemma PathExamples(dir: nat)
    ensures Names([47]) == [] && Start([47], dir) == 2
    ensures Names([47, 98]) == [[98]] && Start([47, 98], dir) == 2
    ensures Names([97, 47, 98]) == [[97], [98]] && Start([97, 47, 98], dir) == dir
    ensures Names([]) == [] && Start([], dir) == dir
  {
    hide Components;
    NamesOfJoin([], dir);
    NamesOfJoin([[98]], dir);
    NamesOfJoin([[97], [98]], dir);
    assert [SLASH] + Join([]) == [47] && [SLASH] + Join([[98]]) == [47, 98];
    assert [[97], [98]][1..] == [[98]];
    assert Join([[97], [98]]) == [97, 47, 98];
  }

  // ---------- the walk ----------

  // strcmp(name, cfn): cfn is a buffer with a terminated string and leftovers
  // of earlier ones.
  method SameName(name: Bytes, cfn: Bytes, ghost component: Bytes) returns (same: bool)
    requires NoNul(component) && component + [0] <= cfn && |component| + 1 + MAX_NAME <= |cfn| && |name| <= MAX_NAME
    ensures same <==> CStr(name) <= component
  {
    var ret := StrCmp(CStr(name), cfn);
    CStrOf(component, cfn);
    same := ret == 0;
  }

  // ---------- when the search of a directory ends ----------

  // The search gets stuck in the first of the blocks, from a place in it on, or
  // in one behind it.
  predicate StuckFrom(v: Volume, blocks: seq<nat>, at: nat, component: Bytes)
    requires GoodBlocks(v, blocks) && (blocks != [] ==> Readable(Block(v, blocks[0]), at))
  {
    && blocks != []
    && (Stuck(Block(v, blocks[0]), at, component)
        || (Find(EntriesFrom(Block(v, blocks[0]), at), component) == 0 && StuckIn(v, blocks[1..], component)))
  }

  // The search of the blocks, from a place in the first of them on, after so
  // many rounds of its two loops.
  function AfterAll(v: Volume, blocks: seq<nat>, at: nat, component: Bytes, rounds: nat): Search
    requires GoodBlocks(v, blocks) && (blocks != [] ==> Readable(Block(v, blocks[0]), at))
    decreases rounds
  {
    if rounds == 0 then Looking(at)
    else if blocks == [] then Over(0)
    else
      var block := Block(v, blocks[0]);
      if !Used(block, at) then
        assert blocks[1..] != [] ==> blocks[1..][0] == blocks[1];
        AfterAll(v, blocks[1..], 0, component, rounds - 1)
      else if EntryAt(block, at).name <= component then Over(Le32(block, at))
      else AfterAll(v, blocks, at + Le16(block, at + 4), component, rounds - 1)
  }

  lemma {:induction false} StuckAllAlong(v: Volume, blocks: seq<nat>, at: nat, component: Bytes, rounds: nat)
    requires GoodBlocks(v, blocks) && (blocks != [] ==> Readable(Block(v, blocks[0]), at))
    requires StuckFrom(v, blocks, at, component)
    ensures AfterAll(v, blocks, at, component, rounds).Looking?
    decreases rounds
  {
    hide Block, EntryAt, Le32, Le16, Find, EntriesFrom, Stuck, StuckIn, Readable, Used;
    if rounds > 0 {
      var block := Block(v, blocks[0]);
      FindEnd(block, at, component);
      UsedInside(block, at);
      if Used(block, at) {
        EntryDecides(block, at, component);
        StuckAllAlong(v, blocks, at + Le16(block, at + 4), component, rounds - 1);
      } else {
        RestReadable(v, blocks, component);
        StuckAllAlong(v, blocks[1..], 0, component, rounds - 1);
      }
    }
  }

  // An entry that does not match leaves the search to those behind it.
  lemma EntryDecides(block: Bytes, at: nat, component: Bytes)
    requires Readable(block, at) && Used(block, at)
    ensures EntryAt(block, at).name <= component ==>
              Find(EntriesFrom(block, at), component) == Le32(block, at) != 0 && !Stuck(block, at, component)
    ensures EntryFits(block, at) && Readable(block, at + Le16(block, at + 4))
    ensures EntryAt(block, at).name <= component ==> !Stuck(block, at, component)
    ensures !(EntryAt(block, at).name <= component) && Le16(block, at + 4) == 0 ==> Stuck(block, at, component)
    ensures !(EntryAt(block, at).name <= component) && Le16(block, at + 4) > 0 ==>
              var next := at + Le16(block, at + 4);
              && Find(EntriesFrom(block, at), component) == Find(EntriesFrom(block, next), component)
              && (Stuck(block, at, component) <==> Stuck(block, next, component))
  {
    if Le16(block, at + 4) > 0 { assert EntriesFrom(block, at)[1..] == EntriesFrom(block, at + Le16(block, at + 4)); }
  }

  lemma {:induction false} OverAtLast(v: Volume, blocks: seq<nat>, at: nat, component: Bytes) returns (rounds: nat)
    requires GoodBlocks(v, blocks) && (blocks != [] ==> Readable(Block(v, blocks[0]), at))
    requires !StuckFrom(v, blocks, at, component)
    ensures AfterAll(v, blocks, at, component, rounds) == Over(
              if blocks == [] then 0
              else if Find(EntriesFrom(Block(v, blocks[0]), at), component) != 0 then
                Find(EntriesFrom(Block(v, blocks[0]), at), component)
              else Find(EntriesOf(v, blocks[1..]), component))
    decreases |blocks|, if blocks == [] then 0 else |Block(v, blocks[0])| - at
  {
    hide Block, EntryAt, Le32, Le16, Find, EntriesFrom, EntriesOf, Stuck, StuckIn, Readable, Used;
    if blocks == [] {
      rounds := 1;
    } else {
      var block := Block(v, blocks[0]);
      FindEnd(block, at, component);
      UsedInside(block, at);
      if !Used(block, at) {
        var rest := blocks[1..];
        RestReadable(v, blocks, component);
        rounds := OverAtLast(v, rest, 0, component);
        rounds := rounds + 1;
        if rest == [] { NoBlocks(v, component); } else { FirstBlock(v, rest, component); }
      } else {
        EntryDecides(block, at, component);
        if EntryAt(block, at).name <= component {
          rounds := 1;
        } else {
          rounds := OverAtLast(v, blocks, at + Le16(block, at + 4), component);
          rounds := rounds + 1;
        }
      }
    }
  }

  lemma RestReadable(v: Volume, blocks: seq<nat>, component: Bytes)
    requires blocks != [] && GoodBlocks(v, blocks)
    ensures GoodBlocks(v, blocks[1..])
    ensures blocks[1..] != [] ==> Readable(Block(v, blocks[1..][0]), 0)
    ensures StuckIn(v, blocks[1..], component) <==> StuckFrom(v, blocks[1..], 0, component)
  {
    hide Block, EntriesFrom, Stuck, Find;
    assert forall k :: 0 <= k < |blocks| - 1 ==> blocks[1..][k] == blocks[k + 1];
  }

  lemma FirstBlock(v: Volume, blocks: seq<nat>, component: Bytes)
    requires blocks != [] && GoodBlocks(v, blocks)
    ensures Readable(Block(v, blocks[0]), 0) && GoodBlocks(v, blocks[1..])
    ensures var found := Find(EntriesFrom(Block(v, blocks[0]), 0), component);
            Find(EntriesOf(v, blocks), component) ==
            if found != 0 then found else Find(EntriesOf(v, blocks[1..]), component)
  {
    hide Block, EntriesFrom, Readable, Find;
    var buf := Block(v, blocks[0]);
    assert Readable(buf, 0);
    assert forall k :: 0 <= k < |blocks| - 1 ==> blocks[1..][k] == blocks[k + 1];
    EntriesUsed(buf, 0);
    FindAppend(EntriesFrom(buf, 0), EntriesOf(v, blocks[1..]), component);
  }

  // The search of a directory that can be read ends if and only if it does not
  // get stuck, and then with what its entries hold.
  lemma DirectoryEnds(v: Volume, dir: nat, component: Bytes)
    requires GoodDirectory(v, dir)
    ensures var blocks := DirectBlocks(v, InodeBytes(v, dir), 0);
            && (blocks != [] ==> Readable(Block(v, blocks[0]), 0))
            && ((exists rounds: nat :: AfterAll(v, blocks, 0, component, rounds).Over?)
                <==> Searchable(v, dir, component))
            && (Searchable(v, dir, component) ==>
                  exists rounds: nat ::
                    AfterAll(v, blocks, 0, component, rounds) == Over(Find(Directory(v, dir), component)))
  {
    hide Block, Described, InodeBytes, DirectBlocks, Readable, EntriesFrom, Find, Stuck;
    var blocks := DirectBlocks(v, InodeBytes(v, dir), 0);
    assert blocks != [] ==> Readable(Block(v, blocks[0]), 0);
    if StuckIn(v, blocks, component) {
      forall rounds: nat ensures !AfterAll(v, blocks, 0, component, rounds).Over? {
        StuckAllAlong(v, blocks, 0, component, rounds);
      }
    } else {
      var rounds := OverAtLast(v, blocks, 0, component);
      NoBlocks(v, component);
      if blocks != [] { FirstBlock(v, blocks, component); }
      assert AfterAll(v, blocks, 0, component, rounds) == Over(Find(Directory(v, dir), component));
    }
  }

  // ---------- the loops ----------

  // The entry at a place decides the search, or leaves it to those behind it.
  lemma FindStep(buf: Bytes, add: nat, component: Bytes)
    requires Readable(buf, add) && Used(buf, add) && !Stuck(buf, add, component)
    ensures EntryFits(buf, add)
    ensures var next := add + Le16(buf, add + 4);
            && Readable(buf, next)
            && if EntryAt(buf, add).name <= component then
                 Find(EntriesFrom(buf, add), component) == Le32(buf, add)
               else
                 && next > add && !Stuck(buf, next, component)
                 && Find(EntriesFrom(buf, add), component) == Find(EntriesFrom(buf, next), component)
  {
    var entries := EntriesFrom(buf, add);
    assert entries[0] == EntryAt(buf, add);
    if Le16(buf, add + 4) > 0 { assert entries[1..] == EntriesFrom(buf, add + Le16(buf, add + 4)); }
  }

  // The loop over the entries of one block.
  method SearchBlock(buf: Bytes, cfn: Bytes, ghost component: Bytes) returns (found: nat)
    requires Readable(buf, 0) && !Stuck(buf, 0, component)
    requires NoNul(component) && component + [0] <= cfn && |component| + 1 + MAX_NAME <= |cfn|
    ensures found == Find(EntriesFrom(buf, 0), component)
  {
    hide Le16, Le32, CStr, Find, EntriesFrom, Readable, Stuck, Used;
    found := 0;
    var add := 0;
    FindEnd(buf, add, component);
    while Used(buf, add) && found == 0
      invariant 0 <= add && Readable(buf, add) && (add < |buf| ==> add + 4 <= |buf|)
      invariant found == 0 ==> !Stuck(buf, add, component)
      invariant found == 0 && !Used(buf, add) ==> Find(EntriesFrom(buf, add), component) == 0
      invariant Find(EntriesFrom(buf, 0), component) ==
                if found != 0 then found else Find(EntriesFrom(buf, add), component)
      decreases if found == 0 then 1 else 0, |buf| - add
    {
      FindStep(buf, add, component);
      UsedInside(buf, add);
      var length: int := buf[add + 6];
      var at := add + ENTRY_HEADER;
      var same := SameName(buf[at..at + length], cfn, component);
      if same {
        found := Le32(buf, add);
      }
      add := add + Le16(buf, add + 4);
      FindEnd(buf, add, component);
    }
  }

  lemma FindEnd(buf: Bytes, add: nat, component: Bytes)
    requires Readable(buf, add)
    ensures add < |buf| ==> add + 4 <= |buf|
    ensures !Used(buf, add) ==> Find(EntriesFrom(buf, add), component) == 0 && !Stuck(buf, add, component)
  {
  }

  lemma UsedInside(buf: Bytes, add: nat)
    requires add < |buf| ==> add + 4 <= |buf|
    ensures Used(buf, add) ==> add < |buf| && Le32(buf, add) != 0
  {
  }

  // The first block decides the search, or leaves it to those behind it.
  lemma BlockStep(v: Volume, blocks: seq<nat>, component: Bytes)
    requires blocks != [] && GoodBlocks(v, blocks) && !StuckIn(v, blocks, component)
    ensures Readable(Block(v, blocks[0]), 0) && !Stuck(Block(v, blocks[0]), 0, component)
    ensures GoodBlocks(v, blocks[1..])
    ensures var found := Find(EntriesFrom(Block(v, blocks[0]), 0), component);
            && Find(EntriesOf(v, blocks), component) ==
               (if found != 0 then found else Find(EntriesOf(v, blocks[1..]), component))
            && (found == 0 ==> !StuckIn(v, blocks[1..], component))
  {
    hide Block, EntriesFrom, Readable, Stuck, Find;
    FirstBlock(v, blocks, component);
  }

  // The pointer at a place, and those behind it.
  lemma PointerStep(v: Volume, inode: Bytes, i: nat)
    requires |inode| == INODE_BYTES && i < DIRECT
    ensures var blocks := DirectBlocks(v, inode, i); var b := Le32(inode, POINTERS_AT + 4 * i);
            if b == 0 || b > v.totalBlocks then blocks == []
            else blocks != [] && blocks[0] == b && blocks[1..] == DirectBlocks(v, inode, i + 1)
  {
    hide Le32;
  }

  lemma NoPointers(v: Volume, inode: Bytes)
    requires |inode| == INODE_BYTES
    ensures DirectBlocks(v, inode, DIRECT) == []
  {
  }

  lemma NoBlocks(v: Volume, component: Bytes)
    ensures GoodBlocks(v, []) && Find(EntriesOf(v, []), component) == 0
  {
  }

  // The loop over the direct blocks of a directory.
  method SearchDirectory(v: Volume, dir: nat, cfn: Bytes, ghost component: Bytes) returns (found: nat, inode: Bytes)
    requires Searchable(v, dir, component)
    requires var next := Find(Directory(v, dir), component); next != 0 ==> Described(v, next)
    requires NoNul(component) && component + [0] <= cfn && |component| + 1 + MAX_NAME <= |cfn|
    ensures found == Find(Directory(v, dir), component)
    ensures inode == InodeBytes(v, if found != 0 then found else dir)
  {
    hide Block, EntriesFrom, EntriesOf, Readable, Stuck, StuckIn, Find, GoodBlocks, Described, InodeBytes, Le32, CStr,
      DirectBlocks, Volume.BlockSize;
    inode := ReadInode(v, dir);
    ghost var blocks := DirectBlocks(v, inode, 0);
    assert Directory(v, dir) == EntriesOf(v, blocks);
    NoBlocks(v, component);
    found := 0;
    var i := 0;
    while i < DIRECT && found == 0
      invariant 0 <= i <= DIRECT
      invariant found == 0 ==> inode == InodeBytes(v, dir)
      invariant found == 0 ==>
        GoodBlocks(v, DirectBlocks(v, inode, i)) && !StuckIn(v, DirectBlocks(v, inode, i), component)
      invariant found == 0 ==>
        Find(EntriesOf(v, blocks), component) == Find(EntriesOf(v, DirectBlocks(v, inode, i)), component)
      invariant found != 0 ==> found == Find(EntriesOf(v, blocks), component) && inode == InodeBytes(v, found)
    {
      var block := Le32(inode, POINTERS_AT + 4 * i);
      ghost var left := DirectBlocks(v, inode, i);
      PointerStep(v, inode, i);
      if block == 0 || block > v.totalBlocks {
        break;
      }
      BlockStep(v, left, component);
      var buf := ReadBlock(v, block);
      found := SearchBlock(buf, cfn, component);
      if found != 0 {
        inode := ReadInode(v, found);
      }
      i := i + 1;
    }
    if i == DIRECT { NoPointers(v, inode); }
  }

  // One round of the walk.
  lemma WalkStep(v: Volume, dir: nat, fn: Bytes)
    requires NoNul(fn) && fn != [] && GoodWay(v, dir, Components(fn))
    ensures var component := fn[..SlashAt(fn)];
            && NoNul(component)
            && Searchable(v, dir, component)
            && var next := Find(Directory(v, dir), component);
            && (next == 0 ==> Resolve(v, dir, Components(fn)) == 0)
            && (next != 0 ==>
                  && Described(v, next) && GoodWay(v, next, Components(Rest(fn)))
                  && Resolve(v, dir, Components(fn)) == Resolve(v, next, Components(Rest(fn))))
  {
    hide Described, GoodDirectory, StuckIn, Directory, Find, CStr;
    var names := Components(fn);
    assert names[0] == fn[..SlashAt(fn)] && names[1..] == Components(Rest(fn));
  }

  // _ext2_namei. cfn is the buffer for one component at a time, with the memory
  // a comparison may look at behind it; what stands there does not matter.
  method Namei(v: Volume, path: Bytes, dir: nat, memory: Bytes, unread: Bytes) returns (r: nat, inode: Bytes)
    requires NoNul(path) && dir != 0 && |path| + 1 + MAX_NAME <= |memory|
    requires GoodWay(v, Start(path, dir), Names(path))
    ensures r == Resolve(v, Start(path, dir), Names(path))
    ensures GoodNamedWay(v, Start(path, dir), Names(path)) && ClearWay(v, Start(path, dir), Names(path)) ==>
              r == ResolveNamed(v, Start(path, dir), Names(path))
    ensures Names(path) == [] ==> inode == unread
    ensures Names(path) != [] && r != 0 ==> Described(v, r) && inode == InodeBytes(v, r)
  {
    hide Described, GoodDirectory, StuckIn, Searchable, Directory, Find, InodeBytes, Resolve, GoodWay, SlashAt,
      CStr, Le32, ResolveNamed, GoodNamedWay, ClearWay;
    if GoodNamedWay(v, Start(path, dir), Names(path)) && ClearWay(v, Start(path, dir), Names(path)) {
      ResolveExact(v, Start(path, dir), Names(path));
    }
    var fn, at := path, dir;
    if fn != [] && fn[0] == SLASH {
      fn := fn[1..];
      at := ROOT;
    }
    r, inode := at, unread;
    ResolveHere(v, r);
    if fn == [] {
      return;
    }
    var cfn := memory;
    ghost var start, whole, names := at, fn, Components(fn);
    assert names == Names(path) && |names| > 0;
    while fn != []
      invariant NoNul(fn) && |fn| <= |whole| <= |path| && |cfn| == |memory|
      invariant r == 0 ==> fn == [] && Resolve(v, start, names) == 0
      invariant r != 0 ==> GoodWay(v, r, Components(fn)) && Resolve(v, start, names) == Resolve(v, r, Components(fn))
      invariant r != 0 && |fn| < |whole| ==> Described(v, r) && inode == InodeBytes(v, r)
      decreases |fn|
    {
      WalkStep(v, r, fn);
      var k := IndexOf(fn);
      var component := fn[..k];
      cfn := component + [0] + cfn[k + 1..];
      ghost var rest := Rest(fn);
      fn := fn[if k == |fn| then k else k + 1..];
      assert fn == rest;
      var found, last := SearchDirectory(v, r, cfn, component);
      r, inode := found, last;
      if r == 0 {
        fn := [];
      }
    }
    assert fn == [] && Components(fn) == [];
    ResolveHere(v, r);
  }

  lemma ResolveHere(v: Volume, dir: nat)
    ensures GoodWay(v, dir, []) && Resolve(v, dir, []) == dir
  {
  }

  method IndexOf(str: Bytes) returns (i: nat)
    ensures i == SlashAt(str)
  {
    i := 0;
    while i < |str|
      invariant 0 <= i <= |str| && SlashAt(str) == i + SlashAt(str[i..])
    {
      if str[i] == SLASH {
        return;
      }
      assert str[i..][1..] == str[i + 1..];
      i := i + 1;
    }
  }
}
