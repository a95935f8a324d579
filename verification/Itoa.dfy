// Number to text in both of the repository's versions, and back.
module Itoa {

  const INT_MIN := -0x8000_0000
  const INT_MAX := 0x7fff_ffff

  type Int32 = x: int | INT_MIN <= x <= INT_MAX

  // ---------- C division ----------

  function Abs(v: int): nat { if v < 0 then -v else v }

  // Division truncates towards zero; the remainder takes the dividend's sign.
  function DivC(v: int, r: int): int
    requires r > 0
  {
    if v < 0 then -(-v / r) else v / r
  }

  function ModC(v: int, r: int): int
    requires r > 0
  {
    v - r * DivC(v, r)
  }

  lemma DivModC(v: int, r: int)
    requires r > 0
    ensures Abs(DivC(v, r)) == Abs(v) / r && Abs(ModC(v, r)) == Abs(v) % r
    ensures -r < ModC(v, r) < r
  {
    var a := Abs(v);
    assert a == r * (a / r) + a % r;
  }

  // ---------- digits ----------

  function Digit(d: nat): char
    requires d < 36
  {
    if d < 10 then '0' + d as char else 'a' + (d - 10) as char
  }

  const TABLE: string := LETTERS_DOWN + DIGITS + LETTERS_UP
  const LETTERS_DOWN: string := "zyxwvutsrqponmlkjihgfedcba"
  const DIGITS: string := "9876543210123456789"
  const LETTERS_UP: string := "abcdefghijklmnopqrstuvwxyz"

  lemma Down(i: nat)
    requires i < 26
    ensures |LETTERS_DOWN| == 26 && LETTERS_DOWN[i] == Digit(35 - i)
  {
  }

  lemma Up(i: nat)
    requires i < 26
    ensures |LETTERS_UP| == 26 && LETTERS_UP[i] == Digit(10 + i)
  {
  }

  lemma Middle(i: nat)
    requires i < 19
    ensures |DIGITS| == 19 && DIGITS[i] == Digit(Abs(i - 9))
  {
  }

  // Indexed from its middle, the table gives the digit of a remainder of
  // either sign.
  lemma TableIsDigit(m: int)
    requires -36 < m < 36
    ensures |TABLE| == 71 && TABLE[35 + m] == Digit(Abs(m))
  {
    hide Digit;
    Down(0);
    Up(0);
    Middle(0);
    if m < -9 {
      Down(35 + m);
    } else if m <= 9 {
      Middle(9 + m);
    } else {
      Up(m - 10);
    }
  }

  // The digits of v, least significant first.
  function Low(v: nat, radix: nat): (s: seq<char>)
    requires 2 <= radix <= 36
    ensures |s| >= 1
  {
    if v < radix then [Digit(v)] else [Digit(v % radix)] + Low(v / radix, radix)
  }

  function Reversed(s: seq<char>): (r: seq<char>)
    ensures |r| == |s|
  {
    if s == [] then [] else Reversed(s[1..]) + [s[0]]
  }

  lemma {:induction false} ReversedAt(s: seq<char>, k: nat)
    requires k < |s|
    ensures Reversed(s)[k] == s[|s| - 1 - k]
  {
    if k < |s| - 1 { ReversedAt(s[1..], k); }
  }

  // What both versions are to write: a sign in radix 10 only, then the digits.
  function Text(value: Int32, radix: int): seq<char> {
    if radix < 2 || radix > 36 then []
    else (if value < 0 && radix == 10 then ['-'] else []) + Reversed(Low(Abs(value), radix))
  }

  // ---------- what the text means ----------

  function DigitValue(c: char): int {
    if '0' <= c <= '9' then (c - '0') as int else if 'a' <= c <= 'z' then (c - 'a') as int + 10 else -1
  }

  // The positional value of digits, most significant first.
  function Value(s: seq<char>, radix: nat): int {
    if s == [] then 0 else radix * Value(s[..|s| - 1], radix) + DigitValue(s[|s| - 1])
  }

  lemma DigitMeans(d: nat)
    requires d < 36
    ensures DigitValue(Digit(d)) == d && Digit(d) != '-' && Digit(d) != '\0'
  {
  }

  // One division step, with its quotient and remainder.
  lemma LowStep(v: nat, radix: nat) returns (q: nat, r: nat)
    requires 2 <= radix <= 36 && v >= radix
    ensures 0 < q < v && r < radix && v == radix * q + r
    ensures Low(v, radix) == [Digit(r)] + Low(q, radix)
  {
    q, r := v / radix, v % radix;
    DivFacts(v, radix);
  }

  lemma MulAtLeast(a: nat, b: nat)
    requires a >= 2
    ensures a * b >= 2 * b
  {
  }

  lemma DivFacts(v: nat, radix: nat)
    requires 2 <= radix <= v
    ensures 0 < v / radix < v && v == radix * (v / radix) + v % radix
  {
    MulAtLeast(radix, v / radix);
  }

  // Digits of the radix only, and no leading zero.
  lemma {:induction false} LowDigits(v: nat, radix: nat)
    requires 2 <= radix <= 36
    ensures forall k :: 0 <= k < |Low(v, radix)| ==>
              0 <= DigitValue(Low(v, radix)[k]) < radix && Low(v, radix)[k] != '-' && Low(v, radix)[k] != '\0'
    ensures v > 0 ==> DigitValue(Low(v, radix)[|Low(v, radix)| - 1]) > 0
    ensures v == 0 ==> Low(v, radix) == ['0']
  {
    hide DigitValue, Digit;
    if v < radix {
      DigitMeans(v);
      assert Digit(0) == '0' by { ZeroDigit(); }
    } else {
      var q, r := LowStep(v, radix);
      DigitMeans(r);
      LowDigits(q, radix);
    }
  }

  lemma ZeroDigit()
    ensures Digit(0) == '0'
  {
  }

  lemma ReversedSnoc(s: seq<char>)
    requires s != []
    ensures Reversed(s)[..|s| - 1] == Reversed(s[1..]) && Reversed(s)[|s| - 1] == s[0]
  {
  }

  // The text of a number reads back as the number.
  lemma {:induction false} DigitsMean(v: nat, radix: nat)
    requires 2 <= radix <= 36
    ensures Value(Reversed(Low(v, radix)), radix) == v
  {
    hide DigitValue, Digit, Reversed;
    var s := Low(v, radix);
    ReversedSnoc(s);
    if v < radix {
      DigitMeans(v);
      assert s[1..] == [] && Reversed([]) == [] by { ReversedEmpty(); }
    } else {
      var q, r := LowStep(v, radix);
      DigitMeans(r);
      DigitsMean(q, radix);
      assert s[1..] == Low(q, radix);
    }
  }

  lemma ReversedEmpty()
    ensures Reversed([]) == []
  {
  }

  lemma {:induction false} ReversedConcat(a: seq<char>, b: seq<char>)
    ensures Reversed(a + b) == Reversed(b) + Reversed(a)
  {
    if a == [] {
      assert a + b == b;
    } else {
      ReversedConcat(a[1..], b);
      assert (a + b)[1..] == a[1..] + b;
    }
  }

  // ---------- in place ----------

  // str is reversed outside the part from start to end, which is untouched.
  ghost predicate HalfReversed(now: seq<char>, was: seq<char>, start: int, end: int) {
    && |now| == |was|
    && 0 <= start && start + end == |was| - 1 && start <= end + 2
    && (forall k :: 0 <= k < start ==> now[k] == was[|was| - 1 - k])
    && (forall k :: end < k < |was| ==> now[k] == was[|was| - 1 - k])
    && (forall k :: start <= k <= end ==> now[k] == was[k])
  }

  lemma HalvesMeet(now: seq<char>, was: seq<char>, start: int, end: int)
    requires HalfReversed(now, was, start, end) && start >= end
    ensures now == Reversed(was)
  {
    forall k | 0 <= k < |was| ensures now[k] == Reversed(was)[k] { ReversedAt(was, k); }
  }

  lemma HalfStart(s: seq<char>)
    ensures HalfReversed(s, s, 0, |s| - 1)
  {
  }

  lemma SwapStep(now: seq<char>, was: seq<char>, start: int, end: int)
    requires HalfReversed(now, was, start, end) && start < end
    ensures 0 <= start && end < |now|
    ensures HalfReversed(now[start := now[end]][end := now[start]], was, start + 1, end - 1)
  {
  }

  // reverse of the kernel: two indices moving towards each other.
  method Reverse(str: array<char>, sz: nat)
    requires sz <= str.Length
    modifies str
    ensures str[..sz] == Reversed(old(str[..sz]))
    ensures forall k :: sz <= k < str.Length ==> str[k] == old(str[k])
  {
    hide HalfReversed, Reversed;
    HalfStart(str[..sz]);
    ghost var was := str[..sz];
    var start, end := 0, sz - 1;
    while start < end
      invariant HalfReversed(str[..sz], was, start, end)
      invariant forall k :: sz <= k < str.Length ==> str[k] == old(str[k])
      decreases end - start
    {
      SwapStep(str[..sz], was, start, end);
      ghost var now := str[..sz];
      var temp := str[start];
      str[start] := str[end];
      str[end] := temp;
      assert str[..sz] == now[start := now[end]][end := now[start]];
      end := end - 1;
      start := start + 1;
    }
    HalvesMeet(str[..sz], was, start, end);
  }

  // str holds the text, ended by a zero byte.
  ghost predicate Holds(str: array<char>, text: seq<char>)
    reads str
  {
    |text| < str.Length && str[..|text|] == text && str[|text|] == '\0' && '\0' !in text
  }

  method StrLen(str: array<char>, ghost text: seq<char>) returns (n: nat)
    requires Holds(str, text)
    ensures n == |text|
  {
    n := 0;
    assert forall k :: 0 <= k < |text| ==> str[k] == text[k] && text[k] != '\0';
    while str[n] != '\0'
      invariant n <= |text|
      decreases |text| - n
    {
      n := n + 1;
    }
  }

  // The do-while loop both versions share: digits of value from at on, least
  // significant first.
  method PutDigits(value: Int32, str: array<char>, radix: nat, at: nat) returns (ptr: nat)
    requires 2 <= radix <= 36 && at + |Low(Abs(value), radix)| <= str.Length
    modifies str
    ensures ptr == at + |Low(Abs(value), radix)|
    ensures str[..at] == old(str[..at]) && str[at..ptr] == Low(Abs(value), radix)
  {
    hide Low, Digit, DivC, ModC, TABLE;
    ghost var all := Low(Abs(value), radix);
    var v: int := value;
    ptr := at;
    while true
      invariant at <= ptr && ptr + |Low(Abs(v), radix)| == at + |all|
      invariant str[..at] == old(str[..at])
      invariant str[at..ptr] + Low(Abs(v), radix) == all
      decreases Abs(v)
    {
      DivModC(v, radix);
      TableIsDigit(ModC(v, radix));
      ghost var done := str[at..ptr];
      LowTail(Abs(v), radix);
      str[ptr] := TABLE[35 + ModC(v, radix)];
      ptr := ptr + 1;
      assert str[at..ptr] == done + [Digit(Abs(v) % radix)];
      v := DivC(v, radix);
      if v == 0 {
        break;
      }
    }
  }

  lemma LowTail(v: nat, radix: nat)
    requires 2 <= radix <= 36
    ensures v % radix < 36
    ensures Low(v, radix) == [Digit(v % radix)] + (if v / radix == 0 then [] else Low(v / radix, radix))
    ensures v / radix > 0 ==> v / radix < v
  {
    if v >= radix {
      DivFacts(v, radix);
    } else {
      SmallDiv(v, radix);
    }
  }

  lemma SmallDiv(v: nat, radix: nat)
    requires v < radix
    ensures v / radix == 0 && v % radix == v
  {
  }

  // The kernel's itoa: digits, sign, then the whole string reversed.
  method ItoaKernel(value: Int32, str: array<char>, radix: int)
    requires |Text(value, radix)| < str.Length
    modifies str
    ensures Holds(str, Text(value, radix))
  {
    hide Low, Reversed;
    if radix < 2 || radix > 36 {
      str[0] := '\0';
      return;
    }
    ghost var low := Low(Abs(value), radix);
    ghost var sign := if value < 0 && radix == 10 then ['-'] else [];
    LowDigits(Abs(value), radix);
    ReversedConcat(low, sign);
    ReversedShort();
    var ptr := PutDigits(value, str, radix, 0);
    assert str[0..ptr] == str[..ptr];
    if value < 0 && radix == 10 {
      str[ptr] := '-';
      ptr := ptr + 1;
    }
    str[ptr] := '\0';
    assert str[..ptr] == low + sign;
    var n := StrLen(str, low + sign);
    Reverse(str, n);
    TextPlain(value, radix);
  }

  lemma ReversedShort()
    ensures Reversed([]) == [] && Reversed(['-']) == ['-']
  {
  }

  lemma TextPlain(value: Int32, radix: int)
    ensures '\0' !in Text(value, radix)
  {
    if 2 <= radix <= 36 {
      LowDigits(Abs(value), radix);
      var low := Low(Abs(value), radix);
      forall k | 0 <= k < |low| ensures Reversed(low)[k] != '\0' { ReversedAt(low, k); }
    }
  }

  // The user library's reversal: two pointers moving towards each other.
  method ReverseBetween(str: array<char>, first: nat, last: nat)
    requires first < last <= str.Length
    modifies str
    ensures str[first..last] == Reversed(old(str[first..last]))
    ensures str[..first] == old(str[..first])
    ensures forall k :: last <= k < str.Length ==> str[k] == old(str[k])
  {
    hide HalfReversed, Reversed;
    HalfStart(str[first..last]);
    ghost var was := str[first..last];
    var low, ptr := first, last - 1;
    while low < ptr
      invariant first <= low && HalfReversed(str[first..last], was, low - first, ptr - first)
      invariant str[..first] == old(str[..first])
      invariant forall k :: last <= k < str.Length ==> str[k] == old(str[k])
      decreases ptr - low
    {
      SwapStep(str[first..last], was, low - first, ptr - first);
      ghost var now, l, p := str[first..last], low - first, ptr - first;
      var tmp := str[low];
      str[low] := str[ptr];
      low := low + 1;
      str[ptr] := tmp;
      assert str[first..last] == now[l := now[p]][p := now[l]];
      ptr := ptr - 1;
    }
    HalvesMeet(str[first..last], was, low - first, ptr - first);
  }

  // The user library's itoa: sign, digits, then only the digits reversed.
  method ItoaUser(value: Int32, str: array<char>, radix: int)
    requires |Text(value, radix)| < str.Length
    modifies str
    ensures Holds(str, Text(value, radix))
  {
    hide Low, Reversed;
    if radix < 2 || radix > 36 {
      str[0] := '\0';
      return;
    }
    var ptr := 0;
    if value < 0 && radix == 10 {
      str[ptr] := '-';
      ptr := ptr + 1;
    }
    var low := ptr;
    ghost var sign := str[..low];
    ptr := PutDigits(value, str, radix, low);
    str[ptr] := '\0';
    assert str[low..ptr] == Low(Abs(value), radix) && str[..low] == sign;
    ReverseBetween(str, low, ptr);
    assert str[..ptr] == str[..low] + str[low..ptr];
    TextPlain(value, radix);
  }

  // The text of a number: a sign exactly for negative numbers in radix 10, and
  // behind it digits below the radix whose positional value is the absolute
  // value, with no leading zero. A radix out of range gives no text.
  lemma TextMeans(value: Int32, radix: int)
    ensures radix < 2 || radix > 36 ==> Text(value, radix) == []
    ensures 2 <= radix <= 36 ==>
              var t := Text(value, radix); var signed := value < 0 && radix == 10;
              && t != [] && (t[0] == '-' <==> signed)
              && var digits := if signed then t[1..] else t;
                 && Value(digits, radix) == Abs(value)
                 && (forall k :: 0 <= k < |digits| ==> 0 <= DigitValue(digits[k]) < radix)
                 && (value != 0 ==> digits != [] && digits[0] != '0') && (value == 0 ==> digits == ['0'])
  {
    hide Low, Value, Reversed, DigitValue;
    if 2 <= radix <= 36 {
      var low := Low(Abs(value), radix);
      var digits := Reversed(low);
      LowDigits(Abs(value), radix);
      DigitsMean(Abs(value), radix);
      forall k | 0 <= k < |low|
        ensures digits[k] == low[|low| - 1 - k] && 0 <= DigitValue(digits[k]) < radix && digits[k] != '-'
      {
        ReversedAt(low, k);
      }
      assert digits[0] == low[|low| - 1];
      assert DigitValue('0') == 0 by { DigitMeans(0); ZeroDigit(); }
      if value < 0 && radix == 10 {
        assert Text(value, radix)[1..] == digits;
      } else {
        assert Text(value, radix) == digits;
      }
    }
  }

  // ---------- atoi ----------

  predicate AllDigits(s: seq<char>) { forall k :: 0 <= k < |s| ==> '0' <= s[k] <= '9' }

  function AtoiOf(s: seq<char>): int { if AllDigits(s) then Value(s, 10) else -1 }

  // The sum must stay an int at every step, or C leaves the result open.
  method Atoi(str: array<char>, ghost text: seq<char>) returns (ret: int)
    requires Holds(str, text)
    requires forall k :: 0 <= k <= |text| && AllDigits(text[..k]) ==> Value(text[..k], 10) <= INT_MAX
    ensures ret == AtoiOf(text)
  {
    ret := 0;
    var i := 0;
    while str[i] != '\0'
      invariant 0 <= i <= |text| && AllDigits(text[..i]) && ret == Value(text[..i], 10)
      decreases |text| - i
    {
      assert str[i] == text[i];
      if !('0' <= str[i] <= '9') {
        return -1;
      }
      assert text[..i + 1][..i] == text[..i];
      ret := ret * 10;
      ret := ret + (str[i] - '0') as int;
      i := i + 1;
    }
    assert text[..i] == text;
  }

  // atoi takes the digits one by one, and answers -1 exactly to a string with a
  // character that is none.
  lemma AtoiDigits(s: seq<char>, c: char)
    ensures AtoiOf([]) == 0
    ensures AtoiOf(s) == -1 <==> exists k :: 0 <= k < |s| && !('0' <= s[k] <= '9')
    ensures AtoiOf(s) >= 0 && '0' <= c <= '9' ==> AtoiOf(s + [c]) == 10 * AtoiOf(s) + (c - '0') as int
  {
    hide Value;
    assert Value([], 10) == 0 by { ValueStep([], '0'); }
    ValueStep(s, c);
    if AllDigits(s) {
      ValueOfDigits(s);
      assert '0' <= c <= '9' ==> AllDigits(s + [c]);
    }
  }

  lemma ValueStep(s: seq<char>, c: char)
    ensures Value(s + [c], 10) == 10 * Value(s, 10) + DigitValue(c) && Value([], 10) == 0
  {
    assert (s + [c])[..|s|] == s;
  }

  lemma {:induction false} ValueOfDigits(s: seq<char>)
    requires AllDigits(s)
    ensures Value(s, 10) >= 0
  {
    if s != [] { ValueOfDigits(s[..|s| - 1]); }
  }

  // atoi inverts itoa on the numbers from 0 on, and by accident on -1: a sign
  // is no digit, and -1 is the answer to anything that is not a number.
  lemma AtoiInverts(v: Int32)
    ensures AtoiOf(Text(v, 10)) == v <==> v >= -1
    ensures v < 0 ==> AtoiOf(Text(v, 10)) == -1
  {
    hide Low, Value, Reversed;
    var low := Low(Abs(v), 10);
    if v < 0 {
      assert Text(v, 10)[0] == '-';
    } else {
      LowDigits(v, 10);
      DigitsMean(v, 10);
      assert Text(v, 10) == Reversed(low);
      forall k | 0 <= k < |low| ensures '0' <= Reversed(low)[k] <= '9' { ReversedAt(low, k); }
    }
  }
}
