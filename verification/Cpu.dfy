/** The processor's registers and flags, and the instructions that multiply and divide. */
module Cpu {
  import opened Bytes
  import opened Alu
  import W = WideMath
  import S = Shifts

  type Regs = r: seq<u64> | |r| == 16 witness seq(16, i => 0)

  const RAX: nat := 0
  const RCX: nat := 1
  const RDX: nat := 2
  const RSI: nat := 6
  const RDI: nat := 7

  // ---- register views -----------------------------------------------------------------------

  /** Without REX, 4 to 7 name the second byte of the first four registers. */
  function Reg8(regs: Regs, rex: bool, i: nat): (v: u64)
    requires i < 16
    ensures v < 256
  {
    if i < 4 || rex || i >= 8 then regs[i] % 256 else regs[i - 4] / 256 % 256
  }

  function RegRead(regs: Regs, rex: bool, i: nat, size: nat): (v: u64)
    requires i < 16 && SizeOk(size)
    ensures v < Mod(size)
  {
    if size == 1 then Reg8(regs, rex, i) else regs[i] % Mod(size)
  }

  /** Replaces the lowest byte, the second byte, or the low sixteen bits of a register. */
  function SetLow(r: u64, v: nat): (n: u64)
    ensures n % 256 == v % 256 && n / 256 == r / 256
  {
    r / 256 * 256 + v % 256
  }

  function SetSecond(r: u64, v: nat): (n: u64)
    ensures n / 256 % 256 == v % 256 && n % 256 == r % 256 && n / 0x1_0000 == r / 0x1_0000
  {
    r / 0x1_0000 * 0x1_0000 + v % 256 * 256 + r % 256
  }

  function SetWord(r: u64, v: nat): (n: u64)
    ensures n % 0x1_0000 == v % 0x1_0000 && n / 0x1_0000 == r / 0x1_0000
  {
    r / 0x1_0000 * 0x1_0000 + v % 0x1_0000
  }

  /** A 32-bit write clears the upper half; narrower ones leave the rest of the register. */
  function RegWrite(regs: Regs, rex: bool, i: nat, size: nat, v: nat): Regs
    requires i < 16 && SizeOk(size)
  {
    if size == 1 then
      if i < 4 || rex || i >= 8 then regs[i := SetLow(regs[i], v)] else regs[i - 4 := SetSecond(regs[i - 4], v)]
    else if size == 2 then regs[i := SetWord(regs[i], v)]
    else regs[i := Masked(v, size)]
  }

  /** What was written is read back, and no other register changes. */
  lemma WriteRead(regs: Regs, rex: bool, i: nat, size: nat, v: nat)
    requires i < 16 && SizeOk(size)
    ensures RegRead(RegWrite(regs, rex, i, size, v), rex, i, size) == Masked(v, size)
    ensures forall j | 0 <= j < 16 && j != i && (size > 1 || j + 4 != i) ::
              RegWrite(regs, rex, i, size, v)[j] == regs[j]
  {
    hide SetLow, SetSecond, SetWord;
  }

  /**
    What a write leaves of the whole register: all of it for 64 bits, nothing of the upper half for
    32, and everything but the word or the byte for less; the byte is the second one of one of the
    first four registers for 4 to 7 without REX.
    */
  lemma WriteWhole(regs: Regs, rex: bool, i: nat, size: nat, v: nat)
    requires i < 16 && SizeOk(size)
    ensures var n := RegWrite(regs, rex, i, size, v);
            && (size == 8 ==> n[i] == v % 0x1_0000_0000_0000_0000)
            && (size == 4 ==> n[i] == v % 0x1_0000_0000)
            && (size == 2 ==> n[i] % 0x1_0000 == v % 0x1_0000 && n[i] / 0x1_0000 == regs[i] / 0x1_0000)
            && (size == 1 && (i < 4 || i >= 8 || rex) ==> n[i] % 256 == v % 256 && n[i] / 256 == regs[i] / 256)
            && (size == 1 && 4 <= i < 8 && !rex ==>
                  n[i - 4] / 256 % 256 == v % 256 && n[i - 4] % 256 == regs[i - 4] % 256
                  && n[i - 4] / 0x1_0000 == regs[i - 4] / 0x1_0000 && n[i] == regs[i])
  {
    hide SetLow, SetSecond, SetWord;
  }

  /** What a read takes: the low bytes, or the second byte of one of the first four registers. */
  lemma ReadPart(regs: Regs, rex: bool, i: nat, size: nat)
    requires i < 16 && SizeOk(size)
    ensures var v := RegRead(regs, rex, i, size);
            && (size == 8 ==> v == regs[i]) && (size == 4 ==> v == regs[i] % 0x1_0000_0000)
            && (size == 2 ==> v == regs[i] % 0x1_0000)
            && (size == 1 && (i < 4 || i >= 8 || rex) ==> v == regs[i] % 256)
            && (size == 1 && 4 <= i < 8 && !rex ==> v == regs[i - 4] / 256 % 256)
  {
  }

  /** The double-width operand of MUL and DIV: AX for bytes, otherwise RDX above RAX. */
  function Pair(regs: Regs, size: nat): nat
    requires SizeOk(size)
  {
    if size == 1 then regs[RAX] % 0x1_0000
    else RegRead(regs, true, RDX, size) * Mod(size) + RegRead(regs, true, RAX, size)
  }

  function SignedPair(regs: Regs, size: nat): int
    requires SizeOk(size)
  {
    var v := Pair(regs, size);
    if size == 1 then (if v < 0x8000 then v else v - 0x1_0000)
    else if RegRead(regs, true, RDX, size) < Mod(size) / 2 then v else v - Mod(size) * Mod(size)
  }

  /** The quotient and remainder DIV leaves: AL and AH for bytes, otherwise RAX and RDX. */
  function QuotientOf(regs: Regs, size: nat): nat
    requires SizeOk(size)
  {
    RegRead(regs, true, RAX, size)
  }

  function RemainderOf(regs: Regs, size: nat): nat
    requires SizeOk(size)
  {
    if size == 1 then regs[RAX] / 256 % 256 else RegRead(regs, true, RDX, size)
  }

  predicate OthersKept(a: Regs, b: Regs) { forall i | 0 <= i < 16 && i != RAX && i != RDX :: a[i] == b[i] }

  /** Which bytes of which registers those are: register 0 and register 2, or the two bytes of the low word of 0. */
  lemma GroupRegisters(regs: Regs, size: nat)
    requires SizeOk(size)
    ensures size == 1 ==> Pair(regs, 1) == regs[0] % 0x1_0000
                          && QuotientOf(regs, 1) == regs[0] % 256 && RemainderOf(regs, 1) == regs[0] / 256 % 256
    ensures size == 2 ==> Pair(regs, 2) == regs[2] as int % 0x1_0000 * 0x1_0000 + regs[0] % 0x1_0000
                          && QuotientOf(regs, 2) == regs[0] % 0x1_0000 && RemainderOf(regs, 2) == regs[2] % 0x1_0000
    ensures size == 4 ==> Pair(regs, 4) == regs[2] as int % 0x1_0000_0000 * 0x1_0000_0000 + regs[0] % 0x1_0000_0000
                          && QuotientOf(regs, 4) == regs[0] % 0x1_0000_0000
                          && RemainderOf(regs, 4) == regs[2] % 0x1_0000_0000
    ensures size == 8 ==> Pair(regs, 8) == regs[2] as int * 0x1_0000_0000_0000_0000 + regs[0]
                          && QuotientOf(regs, 8) == regs[0] && RemainderOf(regs, 8) == regs[2]
  {
  }

  /** The pair as a signed number: the one in range that is the same modulo its width. */
  lemma SignedPairIs(regs: Regs, size: nat)
    requires SizeOk(size)
    ensures var w, p, s := Mod(size) * Mod(size), Pair(regs, size), SignedPair(regs, size);
            (s == p || s == p - w) && 0 - w <= 2 * s < w
  {
    var m := Mod(size);
    if size == 1 {
    } else {
      var hi: int, lo: int := RegRead(regs, true, RDX, size), RegRead(regs, true, RAX, size);
      W.MulMono(hi + 1, m, m);
      assert (hi + 1) * m == hi * m + m;
      if hi < m / 2 {
        W.MulMono(hi + 1, m / 2, m);
        assert m / 2 * m * 2 == m * m;
      } else {
        W.MulMono(m / 2, hi, m);
        assert m / 2 * m * 2 == m * m;
      }
    }
  }

  // ---- division that truncates toward zero ------------------------------------------------------

  function Quot(n: int, d: int): int
    requires d != 0
  {
    if (n < 0) != (d < 0) then 0 - W.Over(W.Abs(n), W.Abs(d)) else W.Over(W.Abs(n), W.Abs(d))
  }

  function Rem(n: int, d: int): int
    requires d != 0
  {
    if n < 0 then 0 - W.Rest(W.Abs(n), W.Abs(d)) else W.Rest(W.Abs(n), W.Abs(d))
  }

  /** IDIV by the manual: an error for a zero divisor or a quotient that does not fit. */
  predicate IdivFits(n: int, d: int, size: nat)
    requires SizeOk(size)
  {
    d != 0 && 0 - Mod(size) / 2 <= Quot(n, d) < Mod(size) / 2
  }

  /** IDIV as coded: at 64 bits, operands of unlike sign are only checked against 2^64. */
  predicate IdivAccepts(n: int, d: int, size: nat)
    requires SizeOk(size)
  {
    d != 0
      && if size == 8 && (n < 0) != (d < 0) then W.Over(W.Abs(n), W.Abs(d)) < 0x1_0000_0000_0000_0000
         else IdivFits(n, d, size)
  }

  /** The code is right about overflow exactly outside one family of 64-bit divisions. */
  lemma IdivRight(n: int, d: int, size: nat)
    requires SizeOk(size)
    ensures (IdivAccepts(n, d, size) <==> IdivFits(n, d, size)) <==>
            !(size == 8 && d != 0 && (n < 0) != (d < 0)
              && 0x8000_0000_0000_0000 < W.Over(W.Abs(n), W.Abs(d)) < 0x1_0000_0000_0000_0000)
  {
    hide W.Over;
  }

  /** A division in that family: -(2^63 + 1) by 1 is accepted, though its quotient does not fit. */
  lemma IdivMisses()
    ensures IdivAccepts(0 - 0x8000_0000_0000_0001, 1, 8) && !IdivFits(0 - 0x8000_0000_0000_0001, 1, 8)
  {
    W.DivIs(0x8000_0000_0000_0001, 1, 0x8000_0000_0000_0001, 0);
  }

  /** Truncation: the remainder is smaller than the divisor and takes the dividend's sign. */
  lemma QuotRem(n: int, d: int)
    requires d != 0
    ensures n == Quot(n, d) * d + Rem(n, d)
    ensures W.Abs(Rem(n, d)) < W.Abs(d) && (Rem(n, d) > 0 ==> n > 0) && (Rem(n, d) < 0 ==> n < 0)
  {
    var a: int, b: int := W.Abs(n), W.Abs(d);
    var q: int, r: int := a / b, a % b;
    assert a == q * b + r;
    assert (0 - q) * b == 0 - q * b && (0 - q) * (0 - b) == q * b && q * (0 - b) == 0 - q * b;
  }

  /** A quotient fits when one in range has a remainder smaller than the divisor, signed like the dividend. */
  lemma IdivFitsExact(n: int, d: int, size: nat)
    requires SizeOk(size)
    ensures IdivFits(n, d, size) <==>
            d != 0 && exists q: int, r: int {:trigger Divides(n, d, q, r)} ::
              Divides(n, d, q, r) && 0 - Mod(size) / 2 <= q < Mod(size) / 2
  {
    if d != 0 {
      QuotRem(n, d);
      assert Divides(n, d, Quot(n, d), Rem(n, d));
      forall q: int, r: int | Divides(n, d, q, r) ensures q == Quot(n, d) {
        OneQuotient(n, d, q, r);
      }
    }
  }

  predicate Divides(n: int, d: int, q: int, r: int)
  {
    n == q * d + r && W.Abs(r) < W.Abs(d) && (r > 0 ==> n > 0) && (r < 0 ==> n < 0)
  }

  lemma OneQuotient(n: int, d: int, q: int, r: int)
    requires d != 0 && Divides(n, d, q, r)
    ensures q == Quot(n, d)
  {
    hide Quot, Rem;
    QuotRem(n, d);
    var k := Quot(n, d);
    DiffTimes(q, k, d);
    if q != k {
      AtLeast(q - k, d);
    }
  }

  lemma DiffTimes(a: int, b: int, d: int)
    ensures (a - b) * d == a * d - b * d
  {
  }

  /** A product with a factor other than zero is no smaller than the other factor. */
  lemma AtLeast(e: int, d: int)
    requires e != 0
    ensures W.Abs(e * d) >= W.Abs(d)
  {
    var a: int, b: int := W.Abs(e), W.Abs(d);
    W.MulMono(1, a, b);
    assert e * d == a * b || e * d == 0 - a * b;
  }

  /** Writing the two halves of a product, or a quotient and remainder. */
  lemma PairWritten(regs: Regs, rex: bool, size: nat, lo: nat, hi: nat)
    requires SizeOk(size) && size > 1
    ensures var w := RegWrite(RegWrite(regs, rex, RAX, size, lo), rex, RDX, size, hi);
            && RegRead(w, true, RAX, size) == Masked(lo, size) && RegRead(w, true, RDX, size) == Masked(hi, size)
            && OthersKept(regs, w)
  {
    hide Masked, SetWord;
    WriteRead(regs, rex, RAX, size, lo);
    WriteRead(RegWrite(regs, rex, RAX, size, lo), rex, RDX, size, hi);
    MaskedMod(size);
  }

  lemma MaskedMod(size: nat)
    requires SizeOk(size)
    ensures forall x: nat :: Masked(x, size) == x % Mod(size)
  {
  }

  lemma NarrowProduct(a: nat, v: nat, size: nat)
    requires SizeOk(size) && size < 8 && a < Mod(size) && v < Mod(size)
    ensures var p := W.Times(a, v); var hi := p / Mod(size);
            && Masked(hi, size) == hi && p == hi * Mod(size) + Masked(p, size) && (hi != 0 <==> p >= Mod(size))
            && (size == 1 ==> p < 0x1_0000)
  {
    W.ProductBound(a, v, Mod(size));
    hide W.Times;
    if size == 1 {
    } else if size == 2 {
    } else {
    }
  }

  /** The signed product, kept whole for the solver. */
  function SignedTimes(x: int, y: int): int { x * y }

  predicate Fits(x: int, size: nat)
    requires SizeOk(size)
  {
    0 - Mod(size) / 2 <= x < Mod(size) / 2
  }

  lemma SignedFits(v: nat, size: nat)
    requires SizeOk(size) && v < Mod(size)
    ensures Fits(Signed(v, size), size)
  {
  }

  /** Two's complement keeps every value that fits. */
  lemma MaskedSigned(x: int, size: nat)
    requires SizeOk(size) && Fits(x, size)
    ensures Signed(Masked(x, size), size) == x
  {
    MaskOnce(x, size);
  }

  /** Whole multiples of a larger power of two do not show in a smaller one. */
  lemma Multiple(x: int, k: int, a: nat, b: nat)
    requires a > 0 && b > 0
    ensures (x + a * b * k) % a == x % a
  {
    var q, r := x / a, x % a;
    assert a * b * k == a * (b * k);
    assert x + a * b * k == a * (q + b * k) + r;
    W.DivIs(x + a * b * k, a, q + b * k, r);
  }

  lemma WrapMasked(x: int, size: nat)
    requires SizeOk(size)
    ensures Masked(W.Wrap64(x), size) == Masked(x, size)
  {
    var k, r := x / 0x1_0000_0000_0000_0000, x % 0x1_0000_0000_0000_0000;
    if size == 1 {
      Multiple(r, k, 0x100, 0x100_0000_0000_0000);
    } else if size == 2 {
      Multiple(r, k, 0x1_0000, 0x1_0000_0000_0000);
    } else if size == 4 {
      Multiple(r, k, 0x1_0000_0000, 0x1_0000_0000);
    } else {
      Multiple(r, k, 0x1_0000_0000_0000_0000, 1);
    }
  }

  lemma SignedBound(x: int, y: int, h: nat)
    requires W.Abs(x) <= h && W.Abs(y) <= h
    ensures 0 - h * h <= SignedTimes(x, y) <= h * h
  {
    W.ProductBound(W.Abs(x), W.Abs(y), h + 1);
    assert (0 - x) * (0 - y) == x * y && (0 - x) * y == 0 - x * y && x * (0 - y) == 0 - x * y;
  }

  lemma ByteSplit(u: nat)
    ensures u % 0x1_0000 == u / 0x100 % 0x100 * 0x100 + u % 0x100
  {
    var q, r := u / 0x1_0000, u % 0x1_0000;
    W.DivIs(u, 0x100, 0x100 * q + r / 0x100, r % 0x100);
    W.DivIs(0x100 * q + r / 0x100, 0x100, q, r / 0x100);
  }

  lemma WrapNear(p: int)
    requires -0x8000_0000_0000_0000 <= p < 0x8000_0000_0000_0000
    ensures W.Wrap64(p) == if p < 0 then p + 0x1_0000_0000_0000_0000 else p
  {
  }

  /** Two words of base m are a number in two's complement; and when the low one alone is. */
  predicate Spells(p: int, m: nat, lo: nat, hi: nat)
  {
    && p == (if hi < m / 2 then hi * m + lo as int else hi * m + lo - m * m)
    && (p == (if lo >= m / 2 then lo - m else lo) <==> 0 - m / 2 <= p < m / 2)
  }

  lemma SpellsIt(p: int, h: nat, t: int, lo: nat, hi: nat)
    requires h > 0 && p == t * (4 * h) + lo && lo < 4 * h && 0 - h <= t <= h && hi == if t < 0 then t + 4 * h else t
    ensures Spells(p, 4 * h, lo, hi)
  {
    assert (t + 4 * h) * (4 * h) == t * (4 * h) + 4 * h * (4 * h);
    if t >= 1 {
      W.MulMono(1, t, 4 * h);
    } else if t <= -2 {
      W.MulMono(t, -2, 4 * h);
    }
    SpelledOut(p, h, t, t * (4 * h), lo, hi, (t + 4 * h) * (4 * h), 4 * h * (4 * h));
  }

  /** The same, with the products given. */
  lemma SpelledOut(p: int, h: nat, t: int, tm: int, lo: nat, hi: nat, lifted: int, square: int)
    requires h > 0 && p == tm + lo && lo < 4 * h && 0 - h <= t <= h && hi == if t < 0 then t + 4 * h else t
    requires lifted == tm + square && lifted == (t + 4 * h) * (4 * h) && tm == t * (4 * h) && square == 4 * h * (4 * h)
    requires (t >= 1 ==> tm >= 4 * h) && (t <= -2 ==> tm <= -8 * h)
    ensures Spells(p, 4 * h, lo, hi)
  {
  }

  lemma QuotientNear(p: int, m: nat, h: nat)
    requires m > 0 && 0 - h * m <= p <= h * m
    ensures 0 - h <= p / m <= h && (p / m < 0 <==> p < 0) && p == p / m * m + p % m
  {
    var t, r := p / m, p % m;
    assert p == t * m + r;
    assert t >= h + 1 ==> t * m >= (h + 1) * m == h * m + m;
    assert t <= 0 - h - 1 ==> t * m <= (0 - h - 1) * m == 0 - h * m - m;
    assert t >= 0 ==> t * m >= 0;
    assert t <= -1 ==> t * m <= 0 - m;
  }

  lemma Lifted(t: int, r: nat, m: nat, q: nat, e: nat)
    requires m > 0 && r < m && 0 - m <= t < 0 && q == m * e
    ensures (t * m + r + m * q) / m % m == t + m && (t * m + r + m * q) % m == r
  {
    assert m * (t + q) == t * m + m * q;
    W.DivIs(t * m + r + m * q, m, t + q, r);
    assert m * (e - 1) == m * e - m;
    W.DivIs(t + q, m, e - 1, t + m);
  }

  /** The halves written for a product of base m words, when it is taken modulo m * q first. */
  lemma Split(p: int, u: nat, m: nat, h: nat, q: nat, e: nat)
    requires h > 0 && m == 4 * h && 0 - h * m <= p <= h * m && q == m * e
    requires u == if p < 0 then p + m * q else p
    ensures Spells(p, m, u % m, u / m % m)
  {
    hide Spells;
    QuotientNear(p, m, h);
    var t, r := p / m, p % m;
    if p < 0 {
      Lifted(t, r, m, q, e);
      SpellsIt(p, h, t, r, t + m);
    } else {
      W.DivIs(t, m, 0, t);
      SpellsIt(p, h, t, r, t);
    }
  }

  /** The two halves written for a narrow signed product spell it out in two's complement. */
  lemma NarrowSigned(x: int, y: int, u: u64, size: nat)
    requires SizeOk(size) && size < 8 && Fits(x, size) && Fits(y, size) && u == W.Wrap64(SignedTimes(x, y))
    ensures Spells(SignedTimes(x, y), Mod(size), Masked(u, size), Masked(u / Mod(size), size))
  {
    hide SignedTimes, W.Wrap64, Spells;
    SignedBound(x, y, Mod(size) / 2);
    NarrowSplit(SignedTimes(x, y), u, size);
  }

  lemma NarrowSplit(p: int, u: u64, size: nat)
    requires SizeOk(size) && size < 8 && 0 - Mod(size) / 2 * (Mod(size) / 2) <= p <= Mod(size) / 2 * (Mod(size) / 2)
             && u == W.Wrap64(p)
    ensures Spells(p, Mod(size), Masked(u, size), Masked(u / Mod(size), size))
  {
    hide W.Wrap64, Spells;
    if size == 1 {
      WrapNear(p);
      Split(p, u, 0x100, 0x40, 0x100_0000_0000_0000, 0x1_0000_0000_0000);
    } else if size == 2 {
      WrapNear(p);
      Split(p, u, 0x1_0000, 0x4000, 0x1_0000_0000_0000, 0x1_0000_0000);
    } else {
      WrapNear(p);
      Split(p, u, 0x1_0000_0000, 0x4000_0000, 0x1_0000_0000, 1);
    }
  }

  /** What IMUL's registers and its truncation test then say. */
  lemma SpelledPair(regs: Regs, p: int, u: u64, size: nat)
    requires SizeOk(size) && size < 8 && Spells(p, Mod(size), Masked(u, size), Masked(u / Mod(size), size))
    requires if size == 1 then regs[RAX] % 0x1_0000 == u % 0x1_0000
             else RegRead(regs, true, RAX, size) == Masked(u, size)
                  && RegRead(regs, true, RDX, size) == Masked(u / Mod(size), size)
    ensures SignedPair(regs, size) == p && (p == Signed(Masked(u, size), size) <==> Fits(p, size))
  {
    if size == 1 {
      ByteSplit(u);
    }
  }

  /** The dividend's magnitude, as the 64-bit IDIV takes it. */
  lemma WideMagnitude(n: W.U128, m: W.U128)
    requires W.Value(m) ==
             (if n.hi < 0x8000_0000_0000_0000 then W.Value(n)
              else (0x1_0000_0000_0000_0000 * 0x1_0000_0000_0000_0000 - W.Value(n))
                   % (0x1_0000_0000_0000_0000 * 0x1_0000_0000_0000_0000))
    ensures W.Value(m) == W.Abs(W.Signed128(n)) && (n.hi >= 0x8000_0000_0000_0000 <==> W.Signed128(n) < 0)
  {
  }

  class Cpu {
    var regs: Regs
    var flags: Flags
    var rex: bool

    constructor (r: Regs, f: Flags)
      ensures regs == r && flags == f
    {
      regs, flags, rex := r, f, false;
    }

    /** reg_write(): what was written is read back, and only the register named changes. */
    method WriteReg(i: nat, size: nat, v: nat)
      requires i < 16 && SizeOk(size)
      modifies `regs
      ensures regs == RegWrite(old(regs), rex, i, size, v) && RegRead(regs, rex, i, size) == Masked(v, size)
      ensures forall j | 0 <= j < 16 && j != i && (size > 1 || j + 4 != i) :: regs[j] == old(regs)[j]
    {
      WriteRead(regs, rex, i, size, v);
      regs := RegWrite(regs, rex, i, size, v);
    }

    /** alu() */
    method Execute(op: nat, a: u64, b: u64, size: nat) returns (r: u64)
      requires SizeOk(size)
      modifies `flags
      ensures Result(r, flags) == Operate(op, old(flags), a, b, size)
      ensures a < Mod(size) && b < Mod(size) ==> Meant(op, old(flags), a, b, size, Result(r, flags))
    {
      hide Operate, Meant, Mod;
      if a < Mod(size) && b < Mod(size) {
        OperateMeans(op, flags, a, b, size);
      }
      var s := Operate(op, flags, a, b, size);
      flags := s.f;
      r := s.r;
    }

    /** MUL: the double-width product, and CF and OF when it needs its upper half. */
    method Mul(v: u64, size: nat)
      requires SizeOk(size) && v < Mod(size)
      modifies `regs, `flags
      ensures Pair(regs, size) == W.Times(old(RegRead(regs, rex, RAX, size)), v)
      ensures flags.cf == flags.of == (W.Times(old(RegRead(regs, rex, RAX, size)), v) >= Mod(size))
      ensures OthersKept(old(regs), regs) && (size == 1 ==> regs[RDX] == old(regs[RDX]))
    {
      hide W.Times, EvenParity, RegWrite, Masked, Mod, Pair, RegRead;
      if size == 8 {
        MulWide(v);
      } else {
        MulNarrow(v, size);
      }
    }

    method MulWide(v: u64)
      modifies `regs, `flags
      ensures Pair(regs, 8) == W.Times(old(RegRead(regs, rex, RAX, 8)), v)
      ensures flags.cf == flags.of == (W.Times(old(RegRead(regs, rex, RAX, 8)), v) >= Mod(8))
      ensures OthersKept(old(regs), regs)
    {
      hide W.Times, W.MulU64, EvenParity;
      var res := W.MulU64(regs[RAX], v);
      W.MulExact(regs[RAX], v);
      regs := regs[RAX := res.lo];
      regs := regs[RDX := res.hi];
      flags := WithSzp(flags, res.lo, 8);
      flags := flags.(cf := res.hi != 0, of := res.hi != 0);
    }

    method MulNarrow(v: u64, size: nat)
      requires SizeOk(size) && size < 8 && v < Mod(size)
      modifies `regs, `flags
      ensures Pair(regs, size) == W.Times(old(RegRead(regs, rex, RAX, size)), v)
      ensures flags.cf == flags.of == (W.Times(old(RegRead(regs, rex, RAX, size)), v) >= Mod(size))
      ensures OthersKept(old(regs), regs) && (size == 1 ==> regs[RDX] == old(regs[RDX]))
    {
      hide W.Times, EvenParity, RegWrite, Masked, WithSzp;
      var a := RegRead(regs, rex, RAX, size);
      var res := W.Times(a, v);
      NarrowProduct(a, v, size);
      flags := WithSzp(flags, Masked(res, size), size);
      flags := flags.(cf := res / Mod(size) != 0, of := res / Mod(size) != 0);
      WriteProduct(res, size);
    }

    /** A double-width result narrower than 128 bits. */
    method WriteProduct(res: nat, size: nat)
      requires SizeOk(size) && size < 8 && (size == 1 ==> res < 0x1_0000)
      requires Masked(res / Mod(size), size) == res / Mod(size)
               && res == res / Mod(size) * Mod(size) + Masked(res, size)
      modifies `regs
      ensures Pair(regs, size) == res
      ensures OthersKept(old(regs), regs) && (size == 1 ==> regs[RDX] == old(regs[RDX]))
    {
      hide RegWrite, Masked;
      if size == 1 {
        WriteRead(regs, rex, RAX, 2, res);
        MaskedMod(2);
        WriteReg(RAX, 2, res);
      } else {
        PairWritten(regs, rex, size, res, res / Mod(size));
        WriteReg(RAX, size, res);
        WriteReg(RDX, size, res / Mod(size));
      }
    }

    /** DIV: false is the divide error, raised for a zero divisor or a quotient too large. */
    method Div(v: u64, size: nat) returns (ok: bool)
      requires SizeOk(size) && v < Mod(size)
      modifies `regs
      ensures ok <==> v != 0 && W.Over(old(Pair(regs, size)), v) < Mod(size)
      ensures ok ==>
                QuotientOf(regs, size) == W.Over(old(Pair(regs, size)), v)
                  && RemainderOf(regs, size) == W.Rest(old(Pair(regs, size)), v)
      ensures OthersKept(old(regs), regs) && (!ok ==> regs == old(regs))
    {
      hide W.Over, W.Rest, RegWrite, Masked, Mod, Pair;
      if v == 0 {
        return false;
      }
      if size == 8 {
        ok := DivWide(v);
        return;
      }
      var num := Pair(regs, size);
      var q, r := W.Over(num, v), W.Rest(num, v);
      RestBound(num, v);
      if q >= Mod(size) {
        return false;
      }
      MaskBelow(q, size);
      MaskBelow(r, size);
      WriteQuotient(q, r, size);
      ok := true;
    }

    method DivWide(v: u64) returns (ok: bool)
      requires v != 0
      modifies `regs
      ensures ok <==> W.Over(old(Pair(regs, 8)), v) < Mod(8)
      ensures ok ==>
                QuotientOf(regs, 8) == W.Over(old(Pair(regs, 8)), v)
                  && RemainderOf(regs, 8) == W.Rest(old(Pair(regs, 8)), v)
      ensures OthersKept(old(regs), regs) && (!ok ==> regs == old(regs))
    {
      hide W.Over, W.Rest;
      var q, r;
      assert W.Value(W.U128(regs[RAX], regs[RDX])) == Pair(regs, 8);
      ok, q, r := W.DivU128(W.U128(regs[RAX], regs[RDX]), v);
      if ok {
        regs := regs[RAX := q];
        regs := regs[RDX := r];
      }
    }

    /** IMUL: the signed double-width product, and CF and OF when its lower half does not hold it. */
    method Imul(v: u64, size: nat)
      requires SizeOk(size) && v < Mod(size)
      modifies `regs, `flags
      ensures SignedPair(regs, size) == SignedTimes(old(Signed(RegRead(regs, rex, RAX, size), size)), Signed(v, size))
      ensures flags.cf == flags.of ==
                !Fits(SignedTimes(old(Signed(RegRead(regs, rex, RAX, size), size)), Signed(v, size)), size)
      ensures OthersKept(old(regs), regs)
    {
      hide SignedTimes, EvenParity, RegWrite, Masked, Mod, SignedPair, RegRead, Signed;
      if size == 8 {
        ImulWide(v);
      } else {
        ImulNarrow(v, size);
      }
    }

    method ImulWide(v: u64)
      modifies `regs, `flags
      ensures SignedPair(regs, 8) == SignedTimes(old(Signed(RegRead(regs, rex, RAX, 8), 8)), Signed(v, 8))
      ensures flags.cf == flags.of == !Fits(SignedTimes(old(Signed(RegRead(regs, rex, RAX, 8), 8)), Signed(v, 8)), 8)
      ensures OthersKept(old(regs), regs)
    {
      hide EvenParity, SignedTimes, Pair, SignedPair, Masked, Mod, Signed, Fits, RegRead, WithSzp, Top;
      WideRead(regs, rex);
      var res := W.MulS64(regs[RAX], v);
      WideSigned(regs[RAX], v, res);
      var trunc := res.hi != if Top(res.lo, 8) then 0xFFFF_FFFF_FFFF_FFFF else 0;
      regs := regs[RAX := res.lo];
      regs := regs[RDX := res.hi];
      flags := WithSzp(flags, res.lo, 8);
      flags := flags.(cf := trunc, of := trunc);
      WidePair(regs, res);
    }

    method ImulNarrow(v: u64, size: nat)
      requires SizeOk(size) && size < 8 && v < Mod(size)
      modifies `regs, `flags
      ensures SignedPair(regs, size) == SignedTimes(old(Signed(RegRead(regs, rex, RAX, size), size)), Signed(v, size))
      ensures flags.cf == flags.of ==
                !Fits(SignedTimes(old(Signed(RegRead(regs, rex, RAX, size), size)), Signed(v, size)), size)
      ensures OthersKept(old(regs), regs)
    {
      hide SignedTimes, EvenParity, RegWrite, Masked, WithSzp, Mod, Signed, SignedPair, Fits, Spells;
      var x, y := Signed(RegRead(regs, rex, RAX, size), size), Signed(v, size);
      SignedFits(RegRead(regs, rex, RAX, size), size);
      SignedFits(v, size);
      var res := SignedTimes(x, y);
      var ures := W.Wrap64(res);
      NarrowSigned(x, y, ures, size);
      var trunc := res != Signed(Masked(ures, size), size);
      flags := WithSzp(flags, Masked(ures, size), size);
      flags := flags.(cf := trunc, of := trunc);
      WriteHalves(ures, size);
      SpelledPair(regs, res, ures, size);
    }

    /** The two halves of a narrow signed product. */
    method WriteHalves(u: u64, size: nat)
      requires SizeOk(size) && size < 8
      modifies `regs
      ensures if size == 1 then regs[RAX] % 0x1_0000 == u % 0x1_0000
              else RegRead(regs, true, RAX, size) == Masked(u, size)
                   && RegRead(regs, true, RDX, size) == Masked(u / Mod(size), size)
      ensures OthersKept(old(regs), regs)
    {
      hide RegWrite, Masked;
      if size == 1 {
        MaskedMod(2);
        WriteRead(regs, rex, RAX, 2, u);
        WriteReg(RAX, 2, u);
      } else {
        PairWritten(regs, rex, size, u, u / Mod(size));
        WriteReg(RAX, size, u);
        WriteReg(RDX, size, u / Mod(size));
      }
    }

    /** IDIV: false is the divide error; a quotient and remainder that fit are read back signed. */
    method Idiv(v: u64, size: nat) returns (ok: bool)
      requires SizeOk(size) && v < Mod(size)
      modifies `regs
      ensures ok <==> IdivAccepts(old(SignedPair(regs, size)), Signed(v, size), size)
      ensures ok ==> QuotientOf(regs, size) == Masked(Quot(old(SignedPair(regs, size)), Signed(v, size)), size)
      ensures ok ==> Signed(RemainderOf(regs, size), size) == Rem(old(SignedPair(regs, size)), Signed(v, size))
      ensures ok && IdivFits(old(SignedPair(regs, size)), Signed(v, size), size) ==>
                Signed(QuotientOf(regs, size), size) == Quot(old(SignedPair(regs, size)), Signed(v, size))
      ensures OthersKept(old(regs), regs) && (!ok ==> regs == old(regs))
    {
      hide Quot, Rem, RegWrite, Masked, Mod, SignedPair, Signed, QuotientOf, RemainderOf;
      var n, d := SignedPair(regs, size), Signed(v, size);
      SignedFits(v, size);
      if d == 0 {
        return false;
      }
      QuotientRead(n, d, size);
      if size == 8 {
        ok := IdivWide(v);
        return;
      }
      var q, r := Quot(n, d), Rem(n, d);
      if q >= Mod(size) / 2 || q < 0 - Mod(size) / 2 {
        return false;
      }
      WrapMasked(q, size);
      WrapMasked(r, size);
      WriteQuotient(W.Wrap64(q), W.Wrap64(r), size);
      ok := true;
    }

    method IdivWide(v: u64) returns (ok: bool)
      requires Signed(v, 8) != 0
      modifies `regs
      ensures ok <==> IdivAccepts(old(SignedPair(regs, 8)), Signed(v, 8), 8)
      ensures ok ==> QuotientOf(regs, 8) == Masked(Quot(old(SignedPair(regs, 8)), Signed(v, 8)), 8)
      ensures ok ==> RemainderOf(regs, 8) == Masked(Rem(old(SignedPair(regs, 8)), Signed(v, 8)), 8)
      ensures OthersKept(old(regs), regs) && (!ok ==> regs == old(regs))
    {
      hide W.Over, W.Rest, Masked, Rem, QuotientOf, RemainderOf;
      ghost var n := W.U128(regs[RAX], regs[RDX]);
      assert W.Signed128(n) == SignedPair(regs, 8);
      var num := W.U128(regs[RAX], regs[RDX]);
      var numNeg := num.hi >= 0x8000_0000_0000_0000;
      if numNeg {
        num := W.NegU128(num);
      }
      WideMagnitude(n, num);
      var fine, uq, ur := W.DivU128(num, W.AbsU64(v));
      if !fine {
        return false;
      }
      var qNeg := numNeg != (v >= 0x8000_0000_0000_0000);
      if !qNeg && uq >= 0x8000_0000_0000_0000 {
        return false;
      }
      regs := regs[RAX := W.Wrap64(if qNeg then 0 - uq as int else uq)];
      regs := regs[RDX := W.Wrap64(if numNeg then 0 - ur as int else ur)];
      WideQuotient(regs, numNeg, qNeg, uq, ur, W.Signed128(n), Signed(v, 8));
      ok := true;
    }

    /** A quotient and remainder narrower than 64 bits go where DIV and IDIV put them. */
    method WriteQuotient(q: nat, r: nat, size: nat)
      requires SizeOk(size) && size < 8
      modifies `regs
      ensures QuotientOf(regs, size) == Masked(q, size) && RemainderOf(regs, size) == Masked(r, size)
      ensures OthersKept(old(regs), regs)
    {
      hide RegWrite, Masked, Mod, QuotientOf, RemainderOf;
      if size == 1 {
        ByteQuotient(regs, rex, q, r);
        WriteReg(RAX, 2, r % 256 * 256 + q % 256);
      } else {
        WordQuotient(regs, rex, size, q, r);
        WriteReg(RAX, size, q);
        WriteReg(RDX, size, r);
      }
    }

    /** shift(): rotates and shifts by a masked count; the result, with the flags it leaves. */
    method Shift(op: nat, a: u64, count: nat, size: nat) returns (r: u64)
      requires SizeOk(size) && op < 8
      modifies `flags
      ensures Result(r, flags) == S.Shifted(op, old(flags), Masked(a, size), S.Limit(count, size), size)
    {
      hide Masked, Mod, S.Shifted;
      var v := Masked(a, size);
      var c := S.Limit(count, size);
      if c == 0 {
        S.NotShifted(op, flags, v, size);
        return v;
      }
      if op <= 1 {
        r := Rotate(op, v, c, size);
      } else if op == 2 {
        r := RotateCarryLeft(v, c, size);
      } else if op == 3 {
        r := RotateCarryRight(v, c, size);
      } else if op == 4 || op == 6 {
        r := ShiftLeft(op, v, c, size);
      } else {
        r := ShiftRight(op, v, c, size);
      }
    }

    method Rotate(op: nat, v: u64, count: nat, size: nat) returns (r: u64)
      requires SizeOk(size) && op <= 1 && v < Mod(size) && count > 0
      modifies `flags
      ensures Result(r, flags) == S.Shifted(op, old(flags), v, count, size)
    {
      hide Masked, Mod, W.Times, W.Over, W.Pow2, S.RotL, S.Odd, S.Second, Top;
      var bits := 8 * size;
      var c := count % bits;
      S.RolIs(v, size, c);
      S.RolIs(v, size, bits - c);
      MaskBelow(S.RotL(v, bits, c), size);
      MaskBelow(S.RotR(v, bits, c), size);
      S.NoTurn(v, size);
      r := v;
      if op == 0 {
        if c != 0 {
          r := Masked(W.Times(v, W.Pow2(c)), size) + W.Over(v, W.Pow2(bits - c));
        }
        flags := flags.(cf := S.Odd(r));
        flags := flags.(of := Top(r, size) != S.Odd(r));
      } else {
        if c != 0 {
          r := W.Over(v, W.Pow2(c)) + Masked(W.Times(v, W.Pow2(bits - c)), size);
        }
        flags := flags.(cf := Top(r, size));
        flags := flags.(of := Top(r, size) != S.Second(r, size));
      }
    }

    method RotateCarryLeft(v: u64, count: nat, size: nat) returns (r: u64)
      requires SizeOk(size) && v < Mod(size) && count > 0
      modifies `flags
      ensures Result(r, flags) == S.Shifted(2, old(flags), v, count, size)
    {
      hide Masked, Mod, W.Pow2, S.RotL, S.Odd, S.Second, S.Joined, Top;
      var n := 8 * size + 1;
      var c := count % n;
      ghost var x := S.Joined(flags.cf, v, 8 * size);
      S.Parted(flags.cf, v, size);
      S.NoTurnCarry(x, n);
      r := v;
      for i := 0 to c
        invariant r < Mod(size) && flags == old(flags).(cf := flags.cf)
        invariant S.Joined(flags.cf, r, 8 * size) == S.RotL(x, n, i)
      {
        S.RotStep(x, n, i);
        S.RclStep(flags.cf, r, size);
        var newCf := Top(r, size);
        r := Masked(2 * r + Count(flags.cf), size);
        flags := flags.(cf := newCf);
      }
      S.Parted(flags.cf, r, size);
      flags := flags.(of := Top(r, size) != flags.cf);
    }

    method RotateCarryRight(v: u64, count: nat, size: nat) returns (r: u64)
      requires SizeOk(size) && v < Mod(size) && count > 0
      modifies `flags
      ensures Result(r, flags) == S.Shifted(3, old(flags), v, count, size)
    {
      hide Masked, Mod, W.Pow2, S.RotL, S.Odd, S.Second, S.Joined, Top;
      var n := 8 * size + 1;
      var c := count % n;
      ghost var x := S.Joined(flags.cf, v, 8 * size);
      S.Parted(flags.cf, v, size);
      S.NoTurnCarry(x, n);
      r := v;
      for i := 0 to c
        invariant r < Mod(size) && flags == old(flags).(cf := flags.cf)
        invariant S.Joined(flags.cf, r, 8 * size) == S.RotR(x, n, i)
      {
        S.RotBackStep(x, n, i);
        S.RcrStep(flags.cf, r, size);
        var newCf := S.Odd(r);
        r := r / 2 + Carried(flags.cf, Mod(size) / 2);
        flags := flags.(cf := newCf);
      }
      S.Parted(flags.cf, r, size);
    }

    method ShiftLeft(op: nat, v: u64, count: nat, size: nat) returns (r: u64)
      requires SizeOk(size) && (op == 4 || op == 6) && v < Mod(size) && count > 0
      modifies `flags
      ensures Result(r, flags) == S.Shifted(op, old(flags), v, count, size)
    {
      hide Masked, Mod, W.Pow2, W.Times, W.Over, W.Rest, S.Odd, WithSzp, Top;
      var bits := 8 * size;
      S.ModPow(size);
      if count >= bits {
        S.ShlBeyond(v, size, count);
      }
      if count <= bits {
        S.ShiftedUp(v, bits, count);
      }
      var cf := if count > bits then false else S.Odd(W.Over(v, W.Pow2(bits - count)));
      r := if count >= bits then 0 else Masked(W.Times(v, W.Pow2(count)), size);
      flags := flags.(cf := cf);
      flags := flags.(of := cf != Top(r, size));
      flags := WithSzp(flags, r, size);
    }

    method ShiftRight(op: nat, v: u64, count: nat, size: nat) returns (r: u64)
      requires SizeOk(size) && (op == 5 || op == 7) && v < Mod(size) && count > 0
      modifies `flags
      ensures Result(r, flags) == S.Shifted(op, old(flags), v, count, size)
    {
      hide Masked, Mod, W.Pow2, W.Over, S.Odd, S.Floor, WithSzp, Top, Signed;
      var bits := 8 * size;
      if op == 5 {
        S.ShrBeyond(v, size, count);
        MaskBelow(W.Over(v, W.Pow2(count)), size);
        r := if count >= bits then 0 else W.Over(v, W.Pow2(count));
        flags := flags.(cf := S.Odd(W.Over(v, W.Pow2(count - 1))));
        flags := flags.(of := Top(v, size));
      } else {
        var sv := Signed(v, size);
        var sh := if count >= bits then bits - 1 else count;
        S.SarBeyond(v, size, count);
        S.SarBeyond(v, size, sh);
        r := Masked(S.Floor(sv, W.Pow2(sh)), size);
        flags := flags.(cf := S.Odd(S.Floor(sv, W.Pow2(sh - 1))));
        flags := flags.(of := false);
      }
      flags := WithSzp(flags, r, size);
    }
  }

  lemma ByteQuotient(regs: Regs, rex: bool, q: nat, r: nat)
    ensures var w := RegWrite(regs, rex, RAX, 2, r % 256 * 256 + q % 256);
            QuotientOf(w, 1) == Masked(q, 1) && RemainderOf(w, 1) == Masked(r, 1) && OthersKept(regs, w)
  {
    hide RegWrite;
    WriteRead(regs, rex, RAX, 2, r % 256 * 256 + q % 256);
    ByteHalves(RegWrite(regs, rex, RAX, 2, r % 256 * 256 + q % 256)[RAX], q, r);
  }

  lemma WordQuotient(regs: Regs, rex: bool, size: nat, q: nat, r: nat)
    requires SizeOk(size) && size > 1
    ensures var w := RegWrite(RegWrite(regs, rex, RAX, size, q), rex, RDX, size, r);
            QuotientOf(w, size) == Masked(q, size) && RemainderOf(w, size) == Masked(r, size) && OthersKept(regs, w)
  {
    hide RegWrite, Masked, Mod;
    PairWritten(regs, rex, size, q, r);
  }

  lemma RestBound(n: nat, d: nat)
    requires d > 0
    ensures W.Rest(n, d) < d
  {
  }

  /** A quotient that fits, and every remainder, survives being written in two's complement. */
  lemma QuotientRead(n: int, d: int, size: nat)
    requires SizeOk(size) && d != 0 && Fits(d, size)
    ensures Signed(Masked(Rem(n, d), size), size) == Rem(n, d)
    ensures IdivFits(n, d, size) ==> Signed(Masked(Quot(n, d), size), size) == Quot(n, d)
  {
    hide Quot, Rem, Masked, Signed, Mod;
    QuotRem(n, d);
    MaskedSigned(Rem(n, d), size);
    if IdivFits(n, d, size) {
      MaskedSigned(Quot(n, d), size);
    }
  }

  lemma WideRead(regs: Regs, rex: bool)
    ensures RegRead(regs, rex, RAX, 8) == regs[RAX]
  {
  }

  lemma WidePair(regs: Regs, v: W.U128)
    requires regs[RAX] == v.lo && regs[RDX] == v.hi
    ensures Pair(regs, 8) == W.Value(v) && SignedPair(regs, 8) == W.Signed128(v)
  {
  }

  lemma WideSigned(a: u64, b: u64, res: W.U128)
    requires W.Signed128(res) == W.Signed64(a) * W.Signed64(b)
    ensures W.Signed128(res) == SignedTimes(Signed(a, 8), Signed(b, 8))
    ensures (res.hi == if Top(res.lo, 8) then 0xFFFF_FFFF_FFFF_FFFF else 0) <==>
              Fits(SignedTimes(Signed(a, 8), Signed(b, 8)), 8)
  {
    assert W.Signed64(a) == Signed(a, 8) && W.Signed64(b) == Signed(b, 8);
  }

  lemma ByteHalves(x: nat, q: nat, r: nat)
    requires x % 0x1_0000 == r % 256 * 256 + q % 256
    ensures x % 256 == q % 256 && x / 256 % 256 == r % 256
  {
  }

  /** Fixing the signs of an unsigned division makes it truncate toward zero. */
  lemma WideQuotient(regs: Regs, nNeg: bool, qNeg: bool, uq: u64, ur: u64, n: int, d: int)
    requires d != 0 && nNeg == (n < 0) && qNeg == ((n < 0) != (d < 0)) && uq == W.Over(W.Abs(n), W.Abs(d))
             && ur == W.Rest(W.Abs(n), W.Abs(d))
    requires regs[RAX] == W.Wrap64(if qNeg then 0 - uq as int else uq)
             && regs[RDX] == W.Wrap64(if nNeg then 0 - ur as int else ur)
    ensures QuotientOf(regs, 8) == Masked(Quot(n, d), 8) && RemainderOf(regs, 8) == Masked(Rem(n, d), 8)
  {
    hide W.Over, W.Rest, W.Abs;
  }
}
