/** The 128-bit multiply and divide that the 64-bit MUL, IMUL, DIV and IDIV are built on. */
module WideMath {
  import opened Bytes

  datatype U128 = U128(lo: u64, hi: u64)

  function Value(v: U128): nat { v.hi * 0x1_0000_0000_0000_0000 + v.lo }

  function Signed64(v: u64): int { if v < 0x8000_0000_0000_0000 then v else v - 0x1_0000_0000_0000_0000 }

  function Signed128(v: U128): int
  {
    if v.hi < 0x8000_0000_0000_0000 then Value(v) else Value(v) - 0x1_0000_0000_0000_0000 * 0x1_0000_0000_0000_0000
  }

  function Wrap64(x: int): u64 { x % 0x1_0000_0000_0000_0000 }

  function Abs(x: int): nat { if x < 0 then -x else x }

  // ---- multiplication -----------------------------------------------------------------------

  function Times(x: nat, y: nat): nat { x * y }

  lemma ProductBound(x: nat, y: nat, n: nat)
    requires x < n && y < n
    ensures Times(x, y) <= (n - 1) * (n - 1)
  {
    MulMono(x, n - 1, y);
    MulMono(y, n - 1, n - 1);
  }

  lemma MulMono(a: int, b: int, y: nat)
    requires a <= b
    ensures a * y <= b * y
  {
    assert (b - a) * y == b * y - a * y;
  }

  lemma Cross(a1: nat, a0: nat, b1: nat, b0: nat, k: nat)
    ensures Times(a1 * k + a0, b1 * k + b0) ==
              Times(a1, b1) * (k * k) + (Times(a0, b1) + Times(a1, b0)) * k + Times(a0, b0)
  {
    assert (a1 * k + a0) * (b1 * k + b0) == a1 * k * (b1 * k + b0) + a0 * (b1 * k + b0);
    assert a1 * k * (b1 * k + b0) == a1 * k * (b1 * k) + a1 * k * b0;
    assert a1 * k * (b1 * k) == a1 * b1 * (k * k);
    assert a1 * k * b0 == a1 * b0 * k;
    assert a0 * (b1 * k + b0) == a0 * b1 * k + a0 * b0;
    assert (a0 * b1 + a1 * b0) * k == a0 * b1 * k + a1 * b0 * k;
  }

  /** The two 32-bit halves of a product or a word. */
  function Hi(x: nat): nat { x / 0x1_0000_0000 }

  function Lo(x: nat): nat { x % 0x1_0000_0000 }

  lemma Halves(x: nat)
    ensures x == Hi(x) * 0x1_0000_0000 + Lo(x) && Lo(x) < 0x1_0000_0000
    ensures x < 0x1_0000_0000_0000_0000 ==> Hi(x) < 0x1_0000_0000
    ensures x <= 0xFFFF_FFFE_0000_0001 ==> Hi(x) < 0xFFFF_FFFF
  {
  }

  /** Schoolbook multiplication on 32-bit halves; the halves that are or-ed together are disjoint. */
  function MulU64(a: u64, b: u64): (r: U128)
  {
    var p00, p01, p10, p11 := Times(Lo(a), Lo(b)), Times(Lo(a), Hi(b)), Times(Hi(a), Lo(b)), Times(Hi(a), Hi(b));
    var mid := Hi(p00) + Lo(p01) + Lo(p10);
    U128(Wrap64(Lo(p00) + Lo(mid) * 0x1_0000_0000), Wrap64(p11 + Hi(p01) + Hi(p10) + Hi(mid)))
  }

  /** The full product, with nothing lost between the halves. */
  lemma MulExact(a: u64, b: u64)
    ensures Value(MulU64(a, b)) == Times(a, b)
  {
    hide Times, Hi, Lo, Wrap64;
    Halves(a);
    Halves(b);
    var p00, p01, p10, p11 := Times(Lo(a), Lo(b)), Times(Lo(a), Hi(b)), Times(Hi(a), Lo(b)), Times(Hi(a), Hi(b));
    ProductBound(Lo(a), Lo(b), 0x1_0000_0000);
    ProductBound(Lo(a), Hi(b), 0x1_0000_0000);
    ProductBound(Hi(a), Lo(b), 0x1_0000_0000);
    ProductBound(Hi(a), Hi(b), 0x1_0000_0000);
    Cross(Hi(a), Lo(a), Hi(b), Lo(b), 0x1_0000_0000);
    Halves(p00);
    Halves(p01);
    Halves(p10);
    var mid := Hi(p00) + Lo(p01) + Lo(p10);
    Halves(mid);
    Carry(Hi(p00), Lo(p00), Hi(p01), Lo(p01), Hi(p10), Lo(p10), p11, Hi(mid), Lo(mid));
  }

  /** The column sums: each product split at bit 32, the middle column split again. */
  lemma Carry(h00: nat, l00: nat, h01: nat, l01: nat, h10: nat, l10: nat, p11: nat, c: nat, m: nat)
    requires l00 < 0x1_0000_0000 && l01 < 0x1_0000_0000 && l10 < 0x1_0000_0000 && m < 0x1_0000_0000
    requires h00 < 0xFFFF_FFFF && h01 < 0xFFFF_FFFF && h10 < 0xFFFF_FFFF && p11 <= 0xFFFF_FFFE_0000_0001
    requires h00 + l01 + l10 == c * 0x1_0000_0000 + m
    ensures Wrap64(p11 + h01 + h10 + c) * 0x1_0000_0000_0000_0000 + Wrap64(l00 + m * 0x1_0000_0000) ==
            p11 * 0x1_0000_0000_0000_0000 + (h01 * 0x1_0000_0000 + l01 + h10 * 0x1_0000_0000 + l10) * 0x1_0000_0000 +
              h00 * 0x1_0000_0000 + l00
  {
    assert c <= 2;
    assert p11 + h01 + h10 + c < 0x1_0000_0000_0000_0000 && l00 + m * 0x1_0000_0000 < 0x1_0000_0000_0000_0000;
  }

  /** Two's complement negation, carry from the low word to the high. */
  method NegU128(v: U128) returns (r: U128)
    ensures Value(r) ==
            (0x1_0000_0000_0000_0000 * 0x1_0000_0000_0000_0000 - Value(v))
            % (0x1_0000_0000_0000_0000 * 0x1_0000_0000_0000_0000)
  {
    var lo: int, hi: int := 0xFFFF_FFFF_FFFF_FFFF - v.lo, 0xFFFF_FFFF_FFFF_FFFF - v.hi;
    lo := Wrap64(lo + 1);
    if lo == 0 {
      hi := Wrap64(hi + 1);
    }
    r := U128(lo, hi);
  }

  /** The magnitude of a 64-bit two's complement word. */
  function AbsU64(v: u64): (r: u64)
    ensures r == Abs(Signed64(v))
  {
    if v >= 0x8000_0000_0000_0000 then Wrap64(0xFFFF_FFFF_FFFF_FFFF - v + 1) else v
  }

  /** Multiplying magnitudes and fixing the sign is multiplying. */
  lemma SignedProduct(a: u64, b: u64)
    ensures Times(AbsU64(a), AbsU64(b)) <= 0x8000_0000_0000_0000 * 0x8000_0000_0000_0000
    ensures Signed64(a) * Signed64(b) ==
            if (a >= 0x8000_0000_0000_0000) != (b >= 0x8000_0000_0000_0000) then 0 - Times(AbsU64(a), AbsU64(b))
            else Times(AbsU64(a), AbsU64(b))
  {
    ProductBound(AbsU64(a), AbsU64(b), 0x8000_0000_0000_0001);
    var x: int, y: int := AbsU64(a), AbsU64(b);
    assert (-x) * (-y) == x * y && (-x) * y == -(x * y) && x * (-y) == -(x * y);
  }

  lemma SignedOf(v: U128, m: nat, negative: bool)
    requires m <= 0x8000_0000_0000_0000 * 0x8000_0000_0000_0000
    requires Value(v) ==
             if negative
             then (0x1_0000_0000_0000_0000 * 0x1_0000_0000_0000_0000 - m)
                  % (0x1_0000_0000_0000_0000 * 0x1_0000_0000_0000_0000)
             else m
    ensures Signed128(v) == if negative then 0 - m else m
  {
    NegatedMod(m, 0x1_0000_0000_0000_0000 * 0x1_0000_0000_0000_0000);
  }

  lemma NegatedMod(m: nat, n: nat)
    requires m < n
    ensures (n - m) % n == if m == 0 then 0 else n - m
  {
    if m == 0 {
      DivIs(n, n, 1, 0);
    } else {
      DivIs(n - m, n, 0, n - m);
    }
  }

  /** The full signed product. */
  method MulS64(a: u64, b: u64) returns (r: U128)
    ensures Signed128(r) == Signed64(a) * Signed64(b)
  {
    hide Times, MulU64, AbsU64, Value, Signed64, Signed128;
    r := MulU64(AbsU64(a), AbsU64(b));
    MulExact(AbsU64(a), AbsU64(b));
    SignedProduct(a, b);
    var negative := (a >= 0x8000_0000_0000_0000) != (b >= 0x8000_0000_0000_0000);
    if negative {
      r := NegU128(r);
    }
    SignedOf(r, Times(AbsU64(a), AbsU64(b)), negative);
  }

  // ---- division -----------------------------------------------------------------------------

  function Pow2(n: nat): (p: nat)
    ensures p > 0
  {
    if n == 0 then 1 else 2 * Pow2(n - 1)
  }

  lemma Pow64()
    ensures Pow2(64) == 0x1_0000_0000_0000_0000 && Pow2(32) == 0x1_0000_0000 && Pow2(16) == 0x1_0000 && Pow2(8) == 0x100
  {
    assert Pow2(4) == 16;
    assert Pow2(12) == 0x1000;
    assert Pow2(20) == 0x10_0000;
    assert Pow2(24) == 0x100_0000;
    assert Pow2(28) == 0x1000_0000;
    assert Pow2(36) == 0x10_0000_0000;
    assert Pow2(40) == 0x100_0000_0000;
    assert Pow2(44) == 0x1000_0000_0000;
    assert Pow2(48) == 0x1_0000_0000_0000;
    assert Pow2(52) == 0x10_0000_0000_0000;
    assert Pow2(56) == 0x100_0000_0000_0000;
    assert Pow2(60) == 0x1000_0000_0000_0000;
  }

  lemma Pow2Step(n: nat)
    ensures Pow2(n + 1) == 2 * Pow2(n)
  {
  }

  lemma {:induction false} Pow2Mono(a: nat, b: nat)
    requires a <= b
    ensures Pow2(a) <= Pow2(b)
  {
    if a < b {
      Pow2Mono(a, b - 1);
    }
  }

  function Over(x: nat, p: nat): nat
    requires p > 0
  {
    x / p
  }

  function Rest(x: nat, p: nat): nat
    requires p > 0
  {
    x % p
  }

  lemma HalfStep(x: nat, p: nat)
    requires p > 0
    ensures Over(x, p) == 2 * Over(x, 2 * p) + Over(x, p) % 2
  {
    var q, r := x / (2 * p), x % (2 * p);
    assert x == 2 * p * q + r;
    assert 2 * p * q == p * (2 * q);
    if r < p {
      DivIs(x, p, 2 * q, r);
    } else {
      assert p * (2 * q) + p == p * (2 * q + 1);
      DivIs(x, p, 2 * q + 1, r - p);
    }
  }

  /** Euclid's characterisation of quotient and remainder. */
  lemma DivIs(x: int, d: nat, q: int, r: nat)
    requires d > 0 && x == d * q + r && r < d
    ensures x / d == q && x % d == r
  {
    var q', r' := x / d, x % d;
    assert d * (q - q') == r' - r;
    assert q - q' >= 1 ==> d * (q - q') >= d;
    assert q - q' <= -1 ==> d * (q - q') <= 0 - d;
  }

  /** What the division has divided so far: the high word followed by the bits above i. */
  function Prefix(n: U128, i: nat): nat
    requires i <= 64
  {
    Times(n.hi, Pow2(64 - i)) + Over(n.lo, Pow2(i))
  }

  lemma TimesTwo(x: nat, y: nat)
    ensures Times(x, 2 * y) == 2 * Times(x, y) && Times(2 * x, y) == 2 * Times(x, y)
    ensures Times(x + 1, y) == Times(x, y) + y
  {
    assert x * (2 * y) == 2 * (x * y);
    assert (x + 1) * y == x * y + y;
  }

  lemma PrefixStep(n: U128, i: nat)
    requires i < 64
    ensures Prefix(n, i) == 2 * Prefix(n, i + 1) + Over(n.lo, Pow2(i)) % 2
  {
    hide Times, Over;
    HalfStep(n.lo, Pow2(i));
    TimesTwo(n.hi, Pow2(64 - (i + 1)));
  }

  lemma PrefixEnds(n: U128)
    ensures Prefix(n, 64) == n.hi && Prefix(n, 0) == Value(n)
  {
    Pow64();
  }

  /** The quotient and remainder of the prefix above bit i. */
  ghost predicate Divided(n: U128, d: nat, i: nat, k: nat, quot: nat, rem: nat)
    requires i <= 64
  {
    rem < d && Prefix(n, i) == Times(k, d) + rem && quot == Times(k, Pow2(i)) && k < Pow2(64 - i)
  }

  /** One more bit of the dividend. */
  lemma DividedStep(n: U128, d: nat, i: nat, k: nat, quot: nat, rem: nat)
    requires i < 64 && Divided(n, d, i + 1, k, quot, rem)
    ensures var wide := 2 * rem + Over(n.lo, Pow2(i)) % 2;
            && (wide < d ==> Divided(n, d, i, 2 * k, quot, wide))
            && (wide >= d ==> Divided(n, d, i, 2 * k + 1, quot + Pow2(i), wide - d))
  {
    hide Times, Over, Pow2, Prefix;
    PrefixStep(n, i);
    Pow2Step(i);
    Pow2Step(64 - (i + 1));
    TimesTwo(k, Pow2(i));
    TimesTwo(2 * k, Pow2(i));
    TimesTwo(k, d);
    TimesTwo(2 * k, d);
  }

  /** Shift-subtract long division; false means that the quotient needs more than 64 bits. */
  method DivU128(n: U128, d: u64) returns (ok: bool, q: u64, r: u64)
    ensures ok <==> d != 0 && Over(Value(n), d) < 0x1_0000_0000_0000_0000
    ensures ok ==> Over(Value(n), d) == q && Rest(Value(n), d) == r
  {
    hide Over, Rest, Value, Times, Divided, Prefix, Pow2;
    if d == 0 {
      return false, 0, 0;
    }
    if n.hi >= d {
      QuotientLarge(n, d);
      return false, 0, 0;
    }
    var rem: int, quot: int := n.hi, 0;
    ghost var k := 0;
    DividedStart(n, d);
    var i := 64;
    while i > 0
      invariant 0 <= i <= 64 && 0 <= quot && 0 <= rem && 0 <= k && Divided(n, d, i, k, quot, rem)
    {
      DividedBound(n, d, i, k, quot, rem);
      i := i - 1;
      DividedStep(n, d, i, k, quot, rem);
      var bit := Over(n.lo, Pow2(i)) % 2;
      var overflowed := rem / 0x8000_0000_0000_0000 != 0;
      k := if 2 * rem + bit >= d then 2 * k + 1 else 2 * k;
      rem := Wrap64(2 * rem + bit);
      if overflowed || rem >= d {
        rem := Wrap64(rem - d);
        quot := quot + Pow2(i);
      }
    }
    DividedEnd(n, d, k, quot, rem);
    ok, q, r := true, quot, rem;
  }

  lemma DividedStart(n: U128, d: u64)
    requires n.hi < d
    ensures Divided(n, d, 64, 0, 0, n.hi)
  {
    PrefixEnds(n);
    assert Times(0, d) == 0 && Times(0, Pow2(64)) == 0;
  }

  lemma DividedBound(n: U128, d: u64, i: nat, k: nat, quot: nat, rem: nat)
    requires i <= 64 && Divided(n, d, i, k, quot, rem)
    ensures rem < d
  {
  }

  lemma DividedEnd(n: U128, d: u64, k: nat, quot: nat, rem: nat)
    requires Divided(n, d, 0, k, quot, rem)
    ensures quot < 0x1_0000_0000_0000_0000 && rem < d && Over(Value(n), d) == quot && Rest(Value(n), d) == rem
  {
    hide Times, Over, Rest, Pow2, Prefix, Value;
    PrefixEnds(n);
    Pow64();
    TimesUnit(k);
    OverIs(Value(n), d, k, rem);
  }

  lemma TimesUnit(k: nat)
    ensures Times(k, Pow2(0)) == k
  {
  }

  lemma OverIs(x: nat, d: nat, q: nat, r: nat)
    requires d > 0 && x == Times(q, d) + r && r < d
    ensures Over(x, d) == q && Rest(x, d) == r
  {
    DivIs(x, d, q, r);
  }

  lemma QuotientLarge(n: U128, d: u64)
    requires d > 0 && n.hi >= d
    ensures Over(Value(n), d) >= 0x1_0000_0000_0000_0000
  {
    var q, r := Value(n) / d, Value(n) % d;
    assert q <= 0xFFFF_FFFF_FFFF_FFFF ==> q * d <= 0xFFFF_FFFF_FFFF_FFFF * d;
  }

  /** Dividing a product by a nonzero factor gives the other factor back, with nothing over. */
  method DivideProduct(a: u64, b: u64) returns (q: u64, r: u64)
    requires b != 0
    ensures q == a && r == 0
  {
    var n := MulU64(a, b);
    MulExact(a, b);
    hide MulU64;
    DivIs(Value(n), b, a, 0);
    var ok;
    ok, q, r := DivU128(n, b);
  }
}
