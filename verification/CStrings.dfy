// Bytes, C strings, and the kernel's way of comparing them.
module CStrings {
  import opened ByteSeqs

  predicate NoNul(s: seq<Byte>) { 0 !in s }

  // The string that starts a block of bytes: up to the first NUL, or all of it.
  function CStr(s: seq<Byte>): (r: seq<Byte>)
    ensures NoNul(r) && r <= s
    ensures |r| < |s| ==> s[|r|] == 0
  {
    if s == [] || s[0] == 0 then [] else [s[0]] + CStr(s[1..])
  }

  // memcpy of a block of bytes into a buffer.
  method CopyTo(buffer: array<Byte>, at: nat, src: seq<Byte>)
    requires at + |src| <= buffer.Length
    modifies buffer
    ensures buffer[..] == old(buffer[..at]) + src + old(buffer[at + |src|..])
  {
    for i := 0 to |src|
      invariant buffer[..at] == old(buffer[..at])
      invariant buffer[at..at + i] == src[..i]
      invariant buffer[at + i..] == old(buffer[at + i..])
    {
      buffer[at + i] := src[i];
    }
  }

  // memcmp: the number of places where the first count bytes differ.
  method MemCmp(a: seq<Byte>, b: seq<Byte>, count: nat) returns (ret: nat)
    requires count <= |a| && count <= |b|
    ensures ret == 0 <==> a[..count] == b[..count]
  {
    ret := 0;
    for i := 0 to count
      invariant ret == 0 <==> a[..i] == b[..i]
    {
      assert a[..i + 1] == a[..i] + [a[i]] && b[..i + 1] == b[..i] + [b[i]];
      ret := ret + if a[i] != b[i] then 1 else 0;
    }
  }

  // strcmp compares as many bytes as its first argument has: it finds no
  // difference exactly if the first string is a prefix of the second.
  method StrCmp(s: seq<Byte>, block: seq<Byte>) returns (ret: nat)
    requires NoNul(s) && |s| <= |block|
    ensures ret == 0 <==> s <= block
    ensures ret == 0 <==> s <= CStr(block)
  {
    ret := MemCmp(s, block, |s|);
    assert s[..|s|] == s;
    PrefixOfCStr(s, block);
  }

  lemma {:induction false} PrefixOfCStr(s: seq<Byte>, block: seq<Byte>)
    requires NoNul(s)
    ensures s <= block <==> s <= CStr(block)
  {
    if s != [] && block != [] && s[0] == block[0] {
      PrefixOfCStr(s[1..], block[1..]);
      assert s <= block <==> s[1..] <= block[1..];
    }
  }

  lemma {:induction false} CStrOf(s: Bytes, block: Bytes)
    requires NoNul(s) && s + [0] <= block
    ensures CStr(block) == s
  {
    if s == [] {
      assert block[0] == (s + [0])[0];
    } else {
      assert block[0] == (s + [0])[0];
      assert (s + [0])[1..] == s[1..] + [0];
      assert s[1..] + [0] <= block[1..];
      CStrOf(s[1..], block[1..]);
    }
  }

  lemma {:induction false} WholeCStr(s: Bytes)
    requires NoNul(s)
    ensures CStr(s) == s
  {
    if s != [] { WholeCStr(s[1..]); }
  }
}
