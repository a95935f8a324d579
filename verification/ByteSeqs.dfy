// Bytes, runs of bytes, and the size of a 32-bit word.
module ByteSeqs {

  const TWO_32 := 0x1_0000_0000

  // What is left of a sum in 32 bits.
  function Wrap(x: nat): (r: nat)
    ensures r < TWO_32
  {
    x % TWO_32
  }

  type Byte = x: int | 0 <= x < 256

  type Bytes = seq<Byte>

  function Zeros(n: nat): (s: Bytes)
    ensures |s| == n && forall i :: 0 <= i < n ==> s[i] == 0
  {
    seq(n, _ => 0)
  }

  lemma SubSlice(s: Bytes, lo: nat, hi: nat, a: nat, b: nat)
    requires lo <= hi <= |s| && a <= b <= hi - lo
    ensures s[lo..hi][a..b] == s[lo + a..lo + b]
  {
    var t := s[lo..hi];
    assert forall k :: 0 <= k < |t| ==> t[k] == s[lo + k];
  }
}
