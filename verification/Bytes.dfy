/** Bytes, fixed-width words, and the little-endian layout both hosts use. */
module Bytes {

  type byte = b: int | 0 <= b < 256

  const TWO64: int := 0x1_0000_0000_0000_0000

  type u64 = v: int | 0 <= v < 0x1_0000_0000_0000_0000

  /** 256^n: how many values n bytes can hold. */
  function Pow256(n: nat): (p: nat)
    ensures p > 0
  {
    if n == 0 then 1 else 256 * Pow256(n - 1)
  }

  lemma Pow256Values()
    ensures Pow256(1) == 0x100 && Pow256(2) == 0x1_0000
    ensures Pow256(4) == 0x1_0000_0000 && Pow256(8) == TWO64
  {
    assert Pow256(3) == 0x100_0000;
    assert Pow256(5) == 0x100_0000_0000;
    assert Pow256(6) == 0x1_0000_0000_0000;
    assert Pow256(7) == 0x100_0000_0000_0000;
  }

  /** The low n bytes of v, least significant first. */
  function ToLE(v: nat, n: nat): (s: seq<byte>)
    ensures |s| == n
  {
    if n == 0 then [] else [v % 256] + ToLE(v / 256, n - 1)
  }

  /** The value a run of bytes spells, least significant first. */
  function FromLE(s: seq<byte>): nat
  {
    if s == [] then 0 else s[0] + 256 * FromLE(s[1..])
  }

  /** Reading back what was stored gives the value, when it fits. */
  lemma {:induction false} FromToLE(v: nat, n: nat)
    requires v < Pow256(n)
    ensures FromLE(ToLE(v, n)) == v
  {
    if n > 0 {
      FromToLE(v / 256, n - 1);
      assert ToLE(v, n)[1..] == ToLE(v / 256, n - 1);
    }
  }

  /** n bytes spell a value below 256^n. */
  lemma {:induction false} FromLEBound(s: seq<byte>)
    ensures FromLE(s) < Pow256(|s|)
  {
    if s != [] {
      FromLEBound(s[1..]);
    }
  }

  /** Different byte strings of one length spell different values. */
  lemma {:induction false} ToFromLE(s: seq<byte>)
    ensures ToLE(FromLE(s), |s|) == s
  {
    if s != [] {
      ToFromLE(s[1..]);
      assert FromLE(s) % 256 == s[0] && FromLE(s) / 256 == FromLE(s[1..]);
    }
  }

  lemma SliceOfSlice<T>(s: seq<T>, at: nat, n: nat, off: nat, m: nat)
    requires at + n <= |s| && off + m <= n
    ensures s[at..at + n][off..off + m] == s[at + off..at + off + m]
  {
    var l, r := s[at..at + n][off..off + m], s[at + off..at + off + m];
    assert |l| == |r| && forall i | 0 <= i < m :: l[i] == r[i];
  }
}
