// The words of page directories and page tables: how an address is split into
// indices and what the bits of an entry say.
module PageEntries {
  import opened Arith
  import opened ByteSeqs
  import opened Wrappers

  // Physical memory by page frame: the frame's base address and the index of
  // one of its 1024 words. Directories and tables are frames like any other.
  type Memory = (nat, Index) -> nat

  // An index into a directory or table, and a 32-bit address.
  type Index = x: int | 0 <= x < ENTRIES

  type Addr = x: int | 0 <= x < SPACE

  // A flag byte, uint8_t in the source.
  type Flag = x: int | 0 <= x < 0x100

  function Put(mem: Memory, f: nat, i: Index, e: nat): Memory {
    (g: nat, j: Index) => if g == f && j == i then e else mem(g, j)
  }

  function ZeroFrame(mem: Memory, f: nat): Memory {
    (g: nat, j: Index) => if g == f then 0 else mem(g, j)
  }

  // ---------- bit fields ----------

  const SPACE := TWO_32
  const PAGE := 0x1000
  const ENTRIES := 1024

  const PRESENT := 1
  const PWT := 8

  function PdIndex(v: Addr): Index { v / 0x40_0000 }

  function PtIndex(v: Addr): Index { v / PAGE % ENTRIES }

  function PageNo(v: Addr): nat { v / PAGE }

  function SlotOfPage(p: nat): nat { p / ENTRIES }

  function Offset(v: nat): nat { v % PAGE }

  predicate Aligned(a: nat) { a % PAGE == 0 }

  function BitOr(a: nat, b: nat): nat {
    if a == 0 then b else (if a % 2 == 1 || b % 2 == 1 then 1 else 0) + 2 * BitOr(a / 2, b / 2)
  }

  // addr | present | rw << 1 | user << 2 | pwt. The mask applied to it in the
  // source has all 32 bits set (see MaskClearsNothing).
  function CreateEntry(addr: nat, user: Flag, rw: Flag): nat {
    BitOr(BitOr(BitOr(BitOr(addr, PRESENT), rw * 2), user * 4), PWT)
  }

  function ExtractTable(e: nat): nat { e - e % PAGE }

  predicate IsPresent(e: nat) { e % 2 == 1 }

  // e with its present bit cleared.
  function NotPresent(e: nat): nat { e - e % 2 }

  datatype Rights = Rights(user: bool, write: bool)

  function RightsOf(e: nat): Rights { Rights(e / 4 % 2 == 1, e / 2 % 2 == 1) }

  // The rights an entry made from two flag bytes carries: bit 1 of rw lands on
  // the user bit.
  function FlagRights(user: Flag, rw: Flag): Rights {
    Rights(user % 2 == 1 || rw / 2 % 2 == 1, rw % 2 == 1)
  }

  predicate WriteThrough(e: nat) { e / 8 % 2 == 1 }

  // Bits 9 to 11, which the processor leaves to software.
  function IgnoredBits(e: nat): nat { e / 512 % 8 }

  function Both(r: Rights, s: Rights): Rights { Rights(r.user && s.user, r.write && s.write) }

  // The source means to clear bits 9 to 11, but ors the three complements.
  lemma MaskClearsNothing(e: bv32)
    ensures e & (!(1 << 9) | !(1 << 10) | !(1 << 11)) == e
  {
  }

  // The n lowest bits of a are zero; b has no other bits than those.
  predicate LowZero(a: nat, n: nat) { n == 0 || (a % 2 == 0 && LowZero(a / 2, n - 1)) }

  predicate OnlyLow(b: nat, n: nat) { if n == 0 then b == 0 else OnlyLow(b / 2, n - 1) }

  // Joining numbers without common bits is adding them.
  lemma {:induction false} OrBelow(a: nat, b: nat, n: nat)
    requires LowZero(a, n) && OnlyLow(b, n)
    ensures BitOr(a, b) == a + b
  {
    if n == 0 {
      OrZero(a);
    } else if a != 0 {
      OrBelow(a / 2, b / 2, n - 1);
    }
  }

  lemma {:induction false} OrZero(a: nat)
    ensures BitOr(a, 0) == a
  {
    if a != 0 { OrZero(a / 2); }
  }

  lemma {:induction false} OrOnlyLow(a: nat, b: nat, n: nat)
    requires OnlyLow(a, n) && OnlyLow(b, n)
    ensures OnlyLow(BitOr(a, b), n)
  {
    if a != 0 && n > 0 { OrOnlyLow(a / 2, b / 2, n - 1); }
  }

  function Pow2(n: nat): nat { if n == 0 then 1 else 2 * Pow2(n - 1) }

  lemma {:induction false} LowZeroMultiple(q: nat, n: nat)
    ensures LowZero(Pow2(n) * q, n)
  {
    if n > 0 {
      LowZeroMultiple(q, n - 1);
      assert Pow2(n) * q == 2 * (Pow2(n - 1) * q);
    }
  }

  lemma {:induction false} OnlyLowBelow(b: nat, n: nat)
    ensures OnlyLow(b, n) <==> b < Pow2(n)
  {
    if n > 0 { OnlyLowBelow(b / 2, n - 1); }
  }

  lemma PowTwelve()
    ensures Pow2(12) == PAGE
  {
    assert Pow2(4) == 16;
    assert Pow2(8) == 256;
  }

  // Twelve bits: page alignment and the flags below it.
  lemma TwelveLowZero(a: nat)
    requires Aligned(a)
    ensures LowZero(a, 12)
  {
    hide LowZero;
    PowTwelve();
    LowZeroMultiple(a / PAGE, 12);
  }

  lemma TwelveOnlyLow(b: nat)
    ensures OnlyLow(b, 12) <==> b < PAGE
  {
    hide OnlyLow;
    PowTwelve();
    OnlyLowBelow(b, 12);
  }

  lemma {:induction false} OrAssoc(a: nat, b: nat, c: nat)
    ensures BitOr(BitOr(a, b), c) == BitOr(a, BitOr(b, c))
  {
    if a != 0 {
      OrAssoc(a / 2, b / 2, c / 2);
      OrBits(a, b);
      OrBits(b, c);
    }
  }

  lemma OrBits(a: nat, b: nat)
    ensures BitOr(a, b) / 2 == BitOr(a / 2, b / 2)
    ensures BitOr(a, b) % 2 == 1 <==> a % 2 == 1 || b % 2 == 1
    ensures BitOr(a, b) == 0 <==> a == 0 && b == 0
  {
    OrZeroBoth(a, b);
  }

  lemma {:induction false} OrZeroBoth(a: nat, b: nat)
    ensures BitOr(a, b) == 0 <==> a == 0 && b == 0
  {
    if a != 0 { OrZeroBoth(a / 2, b / 2); }
  }

  function Flags(user: Flag, rw: Flag): nat {
    BitOr(PRESENT, BitOr(rw * 2, BitOr(user * 4, PWT)))
  }

  lemma FlagBits(user: Flag, rw: Flag)
    ensures var f := Flags(user, rw); f < PAGE && IsPresent(f) && RightsOf(f) == FlagRights(user, rw)
  {
    hide BitOr;
    var u := BitOr(user * 4, PWT);
    var w := BitOr(rw * 2, u);
    UserBits(user);
    WriteBits(rw, u);
    OrBits(PRESENT, w);
    OrBits(0, w / 2);
    OrNone(w / 2);
    TwelveOnlyLow(user * 4);
    TwelveOnlyLow(PWT);
    OrOnlyLow(user * 4, PWT, 12);
    TwelveOnlyLow(rw * 2);
    OrOnlyLow(rw * 2, u, 12);
    TwelveOnlyLow(PRESENT);
    OrOnlyLow(PRESENT, w, 12);
    TwelveOnlyLow(BitOr(PRESENT, w));
  }

  lemma OrNone(b: nat)
    ensures BitOr(0, b) == b
  {
  }

  lemma UserBits(user: Flag)
    ensures var u := BitOr(user * 4, PWT); u % 2 == 0 && u / 2 % 2 == 0 && (u / 4 % 2 == 1 <==> user % 2 == 1)
  {
    hide BitOr;
    OrBits(user * 4, PWT);
    OrBits(user * 2, 4);
    OrBits(user, 2);
    assert user * 4 / 2 == user * 2 && user * 2 / 2 == user;
  }

  lemma WriteBits(rw: Flag, u: nat)
    requires u % 2 == 0 && u / 2 % 2 == 0
    ensures var w := BitOr(rw * 2, u);
            && w % 2 == 0 && (w / 2 % 2 == 1 <==> rw % 2 == 1)
            && (w / 4 % 2 == 1 <==> rw / 2 % 2 == 1 || u / 4 % 2 == 1)
  {
    hide BitOr;
    OrBits(rw * 2, u);
    OrBits(rw, u / 2);
    OrBits(rw / 2, u / 2 / 2);
    assert rw * 2 / 2 == rw;
  }

  lemma {:induction false} ThroughBit(a: nat, b: nat)
    ensures WriteThrough(BitOr(a, b)) <==> WriteThrough(a) || WriteThrough(b)
  {
    hide BitOr;
    OrBits(a, b);
    OrBits(a / 2, b / 2);
    OrBits(a / 2 / 2, b / 2 / 2);
    OrBits(a / 2 / 2 / 2, b / 2 / 2 / 2);
  }

  lemma FlagThrough(user: Flag, rw: Flag)
    ensures WriteThrough(Flags(user, rw))
  {
    hide BitOr;
    ThroughBit(user * 4, PWT);
    ThroughBit(rw * 2, BitOr(user * 4, PWT));
    ThroughBit(PRESENT, BitOr(rw * 2, BitOr(user * 4, PWT)));
  }

  lemma EntryIsSum(addr: nat, user: Flag, rw: Flag)
    ensures CreateEntry(addr, user, rw) == BitOr(addr, Flags(user, rw))
  {
    hide BitOr;
    OrAssoc(addr, PRESENT, rw * 2);
    OrAssoc(addr, BitOr(PRESENT, rw * 2), user * 4);
    OrAssoc(addr, BitOr(BitOr(PRESENT, rw * 2), user * 4), PWT);
    OrAssoc(PRESENT, rw * 2, user * 4);
    OrAssoc(PRESENT, BitOr(rw * 2, user * 4), PWT);
    OrAssoc(rw * 2, user * 4, PWT);
  }

  // The fields of the low twelve bits f of a number are f's.
  lemma LowBits(q: nat, f: nat)
    requires f < 4096
    ensures (4096 * q + f) % 2 == f % 2 && (4096 * q + f) % 4096 == f
  {
    Divides(4096 * q + f, 2, 2048 * q + f / 2, f % 2);
    Divides(4096 * q + f, 4096, q, f);
  }

  lemma SecondBit(q: nat, f: nat)
    ensures (4096 * q + f) / 2 % 2 == f / 2 % 2
  {
    Divides(4096 * q + f, 2, 2048 * q + f / 2, f % 2);
    Divides(2048 * q + f / 2, 2, 1024 * q + f / 2 / 2, f / 2 % 2);
  }

  lemma ThirdBit(q: nat, f: nat)
    ensures (4096 * q + f) / 4 % 2 == f / 4 % 2
  {
    Divides(4096 * q + f, 4, 1024 * q + f / 4, f % 4);
    Divides(1024 * q + f / 4, 2, 512 * q + f / 4 / 2, f / 4 % 2);
  }

  lemma FourthBit(q: nat, f: nat)
    ensures (4096 * q + f) / 8 % 2 == f / 8 % 2
  {
    Divides(4096 * q + f, 8, 512 * q + f / 8, f % 8);
    Divides(512 * q + f / 8, 2, 256 * q + f / 8 / 2, f / 8 % 2);
  }

  lemma HighBits(q: nat, f: nat)
    ensures (4096 * q + f) / 512 % 8 == f / 512 % 8
  {
    Divides(4096 * q + f, 512, 8 * q + f / 512, f % 512);
    Divides(8 * q + f / 512, 8, q + f / 512 / 8, f / 512 % 8);
  }

  lemma SumFields(addr: nat, f: nat)
    requires Aligned(addr) && f < PAGE
    ensures var e := addr + f;
            && (IsPresent(e) <==> IsPresent(f)) && ExtractTable(e) == addr && RightsOf(e) == RightsOf(f)
            && IgnoredBits(e) == IgnoredBits(f) && (WriteThrough(e) <==> WriteThrough(f))
  {
    var q := addr / PAGE;
    assert addr == 4096 * q;
    LowBits(q, f);
    SecondBit(q, f);
    ThirdBit(q, f);
    FourthBit(q, f);
    HighBits(q, f);
  }

  // What create_pde and create_pte make of an aligned address and two flag bytes.
  lemma EntryBits(addr: nat, user: Flag, rw: Flag)
    requires Aligned(addr)
    ensures var e := CreateEntry(addr, user, rw);
            IsPresent(e) && WriteThrough(e) && ExtractTable(e) == addr && RightsOf(e) == FlagRights(user, rw)
  {
    hide CreateEntry, Flags, Aligned, IsPresent, WriteThrough, ExtractTable, RightsOf, FlagRights;
    EntryIsSum(addr, user, rw);
    FlagThrough(user, rw);
    FlagBits(user, rw);
    TwelveLowZero(addr);
    TwelveOnlyLow(Flags(user, rw));
    OrBelow(addr, Flags(user, rw), 12);
    SumFields(addr, Flags(user, rw));
  }

  lemma {:induction false} OrBelowBoth(a: nat, b: nat, n: nat)
    ensures OnlyLow(BitOr(a, b), n) <==> OnlyLow(a, n) && OnlyLow(b, n)
  {
    OrZeroBoth(a, b);
    if n > 0 {
      OrBits(a, b);
      OrBelowBoth(a / 2, b / 2, n - 1);
    } else if a == 0 {
      OrNone(b);
    }
  }

  // The mask clears nothing, so the ignored bits of an entry are clear exactly
  // if bit 7 of the user flag, which lands on bit 9, is. kvm_map and uvm_map
  // pass 0 and 1.
  lemma IgnoredBitsClear(addr: nat, user: Flag, rw: Flag)
    requires Aligned(addr)
    ensures IgnoredBits(CreateEntry(addr, user, rw)) == 0 <==> user < 128
  {
    hide BitOr, Aligned, OnlyLow, Flags, CreateEntry, IgnoredBits;
    var f, w := Flags(user, rw), BitOr(user * 4, PWT);
    EntryIsSum(addr, user, rw);
    FlagBits(user, rw);
    TwelveLowZero(addr);
    TwelveOnlyLow(f);
    OrBelow(addr, f, 12);
    SumFields(addr, f);
    NineOnlyLow(user * 4);
    NineOnlyLow(rw * 2);
    NineOnlyLow(PWT);
    NineOnlyLow(PRESENT);
    OrBelowBoth(user * 4, PWT, 9);
    OrBelowBoth(rw * 2, w, 9);
    OrBelowBoth(PRESENT, BitOr(rw * 2, w), 9);
    NineOnlyLow(f);
    assert f == BitOr(PRESENT, BitOr(rw * 2, w)) by { FlagsAre(user, rw); }
    assert IgnoredBits(f) == 0 <==> f < 512 by { IgnoredOfLow(f); }
  }

  lemma FlagsAre(user: Flag, rw: Flag)
    ensures Flags(user, rw) == BitOr(PRESENT, BitOr(rw * 2, BitOr(user * 4, PWT)))
  {
  }

  lemma IgnoredOfLow(f: nat)
    requires f < PAGE
    ensures IgnoredBits(f) == 0 <==> f < 512
  {
  }

  lemma NineOnlyLow(b: nat)
    ensures OnlyLow(b, 9) <==> b < 512
  {
    hide OnlyLow;
    assert Pow2(4) == 16;
    assert Pow2(9) == 512;
    OnlyLowBelow(b, 9);
  }

  lemma ClearedEntry(e: nat)
    ensures !IsPresent(NotPresent(e)) && ExtractTable(NotPresent(e)) == ExtractTable(e) && Aligned(ExtractTable(e))
  {
    var q, r := e / PAGE, e % PAGE;
    assert e == PAGE * q + r;
    assert r % 2 == e % 2;
    assert (PAGE * q + (r - r % 2)) % PAGE == r - r % 2;
    assert PAGE * q % PAGE == 0;
  }

  // The two indices pick the same entry exactly for addresses of one page.
  lemma IndicesArePage(v: Addr, w: Addr)
    ensures PageNo(v) == PageNo(w) <==> PdIndex(v) == PdIndex(w) && PtIndex(v) == PtIndex(w)
    ensures SlotOfPage(PageNo(v)) == PdIndex(v)
  {
    PageParts(v);
    PageParts(w);
  }

  lemma PageParts(v: Addr)
    ensures PageNo(v) == ENTRIES * PdIndex(v) + PtIndex(v) && PdIndex(v) == PageNo(v) / ENTRIES
  {
    var q, r := v / PAGE, v % PAGE;
    var a, b := q / ENTRIES, q % ENTRIES;
    assert v == 0x40_0000 * a + (PAGE * b + r);
    assert PAGE * b + r < 0x40_0000;
    assert v / 0x40_0000 == a;
  }
}
