/** Shifts and rotates bit by bit: where each bit of the result comes from, and the flags. */
module ShiftBits {
  import opened Bytes
  import opened Alu
  import opened Shifts
  import W = WideMath

  /** Bit i of a number. */
  predicate BitAt(v: nat, i: nat) { v / W.Pow2(i) % 2 == 1 }

  // ---- bits of sums, quotients and remainders ----------------------------------------------------------

  lemma BitNext(v: nat, i: nat)
    ensures BitAt(v, i + 1) <==> BitAt(v / 2, i)
    ensures BitAt(v, 0) <==> v % 2 == 1
  {
    BitAbove(v, i);
  }

  /** Below bit c the low part, from bit c up the high one. */
  lemma {:induction false} BitSplit(hi: nat, lo: nat, c: nat, i: nat)
    requires lo < W.Pow2(c)
    ensures BitAt(W.Times(hi, W.Pow2(c)) + lo, i) <==> if i < c then BitAt(lo, i) else BitAt(hi, i - c)
    decreases c
  {
    hide W.Times, W.Pow2, BitAt;
    Pow2One();
    TimesOne(hi);
    if c > 0 {
      var p := W.Pow2(c - 1);
      W.Pow2Step(c - 1);
      W.TimesTwo(hi, p);
      assert (W.Times(hi, W.Pow2(c)) + lo) / 2 == W.Times(hi, p) + lo / 2;
      assert (W.Times(hi, W.Pow2(c)) + lo) % 2 == lo % 2;
      if i == 0 {
        BitNext(W.Times(hi, W.Pow2(c)) + lo, 0);
        BitNext(lo, 0);
      } else {
        BitNext(W.Times(hi, W.Pow2(c)) + lo, i - 1);
        BitNext(lo, i - 1);
        BitSplit(hi, lo / 2, c - 1, i - 1);
      }
    }
  }

  lemma BitOver(x: nat, c: nat, i: nat)
    ensures BitAt(W.Over(x, W.Pow2(c)), i) <==> BitAt(x, i + c)
    ensures i < c ==> (BitAt(W.Rest(x, W.Pow2(c)), i) <==> BitAt(x, i))
  {
    hide W.Times, W.Pow2, W.Over, W.Rest, BitAt;
    Divide(x, W.Pow2(c));
    BitSplit(W.Over(x, W.Pow2(c)), W.Rest(x, W.Pow2(c)), c, i + c);
    BitSplit(W.Over(x, W.Pow2(c)), W.Rest(x, W.Pow2(c)), c, i);
  }

  lemma BitNone(x: nat, n: nat, i: nat)
    requires x < W.Pow2(n) && n <= i
    ensures !BitAt(x, i)
  {
    W.Pow2Mono(n, i);
    W.DivIs(x, W.Pow2(i), 0, x);
  }

  /** Subtracting from all ones turns every bit. */
  lemma {:induction false} BitTurned(y: nat, n: nat, i: nat)
    requires y < W.Pow2(n) && i < n
    ensures BitAt(W.Pow2(n) - 1 - y, i) <==> !BitAt(y, i)
    decreases n
  {
    hide BitAt, W.Pow2;
    W.Pow2Step(n - 1);
    var z: nat := W.Pow2(n) - 1 - y;
    if i == 0 {
      BitNext(z, 0);
      BitNext(y, 0);
    } else {
      BitNext(z, i - 1);
      BitNext(y, i - 1);
      BitTurned(y / 2, n - 1, i - 1);
    }
  }

  lemma EndBits(r: nat, size: nat)
    requires SizeOk(size) && r < Mod(size)
    ensures Odd(r) <==> BitAt(r, 0)
    ensures Top(r, size) <==> BitAt(r, 8 * size - 1)
    ensures Second(r, size) <==> BitAt(r, 8 * size - 2)
  {
    ModPow(size);
    W.Pow2Step(8 * size - 2);
    hide W.Pow2;
    Pow2One();
    var h := Mod(size) / 2;
    if r >= h {
      W.DivIs(r, h, 1, r - h);
    } else {
      W.DivIs(r, h, 0, r);
    }
  }

  // ---- rotates ------------------------------------------------------------------------------------------

  lemma RotBits(x: nat, n: nat, c: nat, i: nat)
    requires c <= n && x < W.Pow2(n) && i < n
    ensures BitAt(RotL(x, n, c), i) <==> BitAt(x, if i < c then i + n - c else i - c)
  {
    hide W.Times, W.Pow2, W.Over, W.Rest, BitAt;
    RotBound(x, n, c);
    var p := W.Pow2(n - c);
    BitSplit(W.Rest(x, p), W.Over(x, p), c, i);
    if i < c {
      BitOver(x, n - c, i);
    } else {
      BitOver(x, n - c, i - c);
    }
  }

  lemma RotBack(x: nat, n: nat, c: nat, i: nat)
    requires c <= n && x < W.Pow2(n) && i < n
    ensures BitAt(RotR(x, n, c), i) <==> BitAt(x, if i + c < n then i + c else i + c - n)
  {
    RotBits(x, n, n - c, i);
  }

  /** The bits that go round through the carry: the operand's, and above them the flag. */
  predicate RoundBit(cf: bool, v: nat, bits: nat, i: nat) { if i == bits then cf else BitAt(v, i) }

  lemma JoinedBits(cf: bool, v: nat, bits: nat, i: nat)
    requires v < W.Pow2(bits) && i <= bits
    ensures BitAt(Joined(cf, v, bits), i) <==> RoundBit(cf, v, bits, i)
    ensures Joined(cf, v, bits) < W.Pow2(bits + 1)
  {
    hide W.Pow2, BitAt;
    W.Pow2Step(bits);
    TimesOne(W.Pow2(bits));
    BitSplit(Count(cf), v, bits, i);
    BitNext(Count(cf), 0);
  }

  /** Masking to n bits and asking for bit n take a number of n + 1 bits apart. */
  lemma PartBits(x: nat, size: nat, i: nat)
    requires SizeOk(size) && x < W.Pow2(8 * size + 1) && i < 8 * size
    ensures BitAt(Masked(x, size), i) <==> BitAt(x, i)
    ensures x >= Mod(size) <==> BitAt(x, 8 * size)
  {
    hide W.Pow2, BitAt, Masked, W.Over;
    ModPow(size);
    MaskedRest(x, size);
    BitOver(x, 8 * size, i);
    BitOver(x, 8 * size, 0);
    BitNext(W.Over(x, Mod(size)), 0);
    if x >= Mod(size) {
      W.OverIs(x, Mod(size), 1, x - Mod(size));
    } else {
      W.OverIs(x, Mod(size), 0, x);
    }
  }

  lemma MaskedBits(x: nat, size: nat, i: nat)
    requires SizeOk(size) && i < 8 * size
    ensures BitAt(Masked(x, size), i) <==> BitAt(x, i)
  {
    hide W.Pow2, BitAt, Masked;
    ModPow(size);
    MaskedRest(x, size);
    BitOver(x, 8 * size, i);
  }

  // ---- the instructions ---------------------------------------------------------------------------------

  /** The count keeps its lowest six bits for a 64-bit operand, and five for the others. */
  lemma CountMasked(count: nat, size: nat, i: nat)
    requires SizeOk(size)
    ensures BitAt(Limit(count, size), i) <==> i < (if size == 8 then 6 else 5) && BitAt(count, i)
  {
    hide W.Pow2, BitAt;
    var n := if size == 8 then 6 else 5;
    FewBits();
    assert Limit(count, size) == W.Rest(count, W.Pow2(n));
    if i < n {
      BitOver(count, n, i);
    } else {
      BitNone(Limit(count, size), n, i);
    }
  }

  lemma FewBits()
    ensures W.Pow2(5) == 32 && W.Pow2(6) == 64
  {
  }

  /** ROL: each bit moves up, and round from the top; the lowest is also the carry. */
  lemma RolBits(f: Flags, v: nat, count: nat, size: nat)
    requires SizeOk(size) && v < Mod(size) && count > 0
    ensures var s, n, c := Shifted(0, f, v, count, size), 8 * size, count % (8 * size);
            && s.r < Mod(size)
            && (forall i | 0 <= i < n :: BitAt(s.r, i) <==> BitAt(v, if i < c then i + n - c else i - c))
            && s.f == f.(cf := BitAt(s.r, 0), of := BitAt(s.r, n - 1) != BitAt(s.r, 0))
  {
    hide W.Pow2, BitAt, RotL, Masked, Odd, Top;
    var n, c := 8 * size, count % (8 * size);
    ModPow(size);
    RotBound(v, n, c);
    MaskBelow(RotL(v, n, c), size);
    EndBits(RotL(v, n, c), size);
    forall i | 0 <= i < n
      ensures BitAt(RotL(v, n, c), i) <==> BitAt(v, if i < c then i + n - c else i - c)
    {
      RotBits(v, n, c, i);
    }
  }

  /** ROR: each bit moves down, and round from the bottom; the highest is also the carry. */
  lemma RorBits(f: Flags, v: nat, count: nat, size: nat)
    requires SizeOk(size) && v < Mod(size) && count > 0
    ensures var s, n, c := Shifted(1, f, v, count, size), 8 * size, count % (8 * size);
            && s.r < Mod(size)
            && (forall i | 0 <= i < n :: BitAt(s.r, i) <==> BitAt(v, if i + c < n then i + c else i + c - n))
            && s.f == f.(cf := BitAt(s.r, n - 1), of := BitAt(s.r, n - 1) != BitAt(s.r, n - 2))
  {
    hide W.Pow2, BitAt, RotL, Masked, Odd, Top, Second;
    var n, c := 8 * size, count % (8 * size);
    ModPow(size);
    RotBound(v, n, n - c);
    MaskBelow(RotR(v, n, c), size);
    EndBits(RotR(v, n, c), size);
    forall i | 0 <= i < n
      ensures BitAt(RotR(v, n, c), i) <==> BitAt(v, if i + c < n then i + c else i + c - n)
    {
      RotBack(v, n, c, i);
    }
  }

  /** RCL: the same through the carry, which is one bit more. */
  lemma RclBits(f: Flags, v: nat, count: nat, size: nat)
    requires SizeOk(size) && v < Mod(size) && count > 0
    ensures var s, n, c := Shifted(2, f, v, count, size), 8 * size, count % (8 * size + 1);
            && s.r < Mod(size)
            && (forall i | 0 <= i < n ::
                BitAt(s.r, i) <==> RoundBit(f.cf, v, n, if i < c then i + n + 1 - c else i - c))
            && (s.f.cf <==> RoundBit(f.cf, v, n, n - c)) && s.f == f.(cf := s.f.cf, of := BitAt(s.r, n - 1) != s.f.cf)
  {
    hide W.Pow2, BitAt, RotL, Masked, Odd, Top, RoundBit, Joined;
    var n, c := 8 * size, count % (8 * size + 1);
    var x := Joined(f.cf, v, n);
    ModPow(size);
    JoinedBits(f.cf, v, n, n);
    RotBound(x, n + 1, c);
    EndBits(Masked(RotL(x, n + 1, c), size), size);
    PartBits(RotL(x, n + 1, c), size, 0);
    RotBits(x, n + 1, c, n);
    JoinedBits(f.cf, v, n, n - c);
    var r := Masked(RotL(x, n + 1, c), size);
    forall i | 0 <= i < n
      ensures BitAt(r, i) <==> RoundBit(f.cf, v, n, if i < c then i + n + 1 - c else i - c)
    {
      PartBits(RotL(x, n + 1, c), size, i);
      RotBits(x, n + 1, c, i);
      JoinedBits(f.cf, v, n, if i < c then i + n + 1 - c else i - c);
    }
  }

  /** One bit of the operand, and the carry, after a turn to the right through both. */
  lemma RoundRight(cf: bool, v: nat, size: nat, c: nat, i: nat)
    requires SizeOk(size) && v < Mod(size) && c <= 8 * size && i < 8 * size
    ensures var n := 8 * size; var x := RotR(Joined(cf, v, n), n + 1, c);
            && (BitAt(Masked(x, size), i) <==> RoundBit(cf, v, n, if i + c <= n then i + c else i + c - n - 1))
            && (x >= Mod(size) <==> RoundBit(cf, v, n, if c == 0 then n else c - 1)) && Masked(x, size) < Mod(size)
  {
    hide W.Pow2, BitAt, RotL, Masked, RoundBit, Joined;
    var n := 8 * size;
    ModPow(size);
    JoinedBits(cf, v, n, n);
    RotBound(Joined(cf, v, n), n + 1, n + 1 - c);
    PartBits(RotR(Joined(cf, v, n), n + 1, c), size, i);
    RotBack(Joined(cf, v, n), n + 1, c, n);
    JoinedBits(cf, v, n, if c == 0 then n else c - 1);
    RotBack(Joined(cf, v, n), n + 1, c, i);
    JoinedBits(cf, v, n, if i + c <= n then i + c else i + c - n - 1);
  }

  /** RCR: the same the other way; the overflow flag stays as it was. */
  lemma RcrBits(f: Flags, v: nat, count: nat, size: nat)
    requires SizeOk(size) && v < Mod(size) && count > 0
    ensures var s, n, c := Shifted(3, f, v, count, size), 8 * size, count % (8 * size + 1);
            && s.r < Mod(size)
            && (forall i | 0 <= i < n ::
                BitAt(s.r, i) <==> RoundBit(f.cf, v, n, if i + c <= n then i + c else i + c - n - 1))
            && s.f == f.(cf := RoundBit(f.cf, v, n, if c == 0 then n else c - 1))
  {
    hide W.Pow2, BitAt, RotL, RotR, Masked, RoundBit, Joined, Mod;
    var n, c := 8 * size, count % (8 * size + 1);
    var r := Masked(RotR(Joined(f.cf, v, n), n + 1, c), size);
    RoundRight(f.cf, v, size, c, 0);
    forall i | 0 <= i < n
      ensures BitAt(r, i) <==> RoundBit(f.cf, v, n, if i + c <= n then i + c else i + c - n - 1)
    {
      RoundRight(f.cf, v, size, c, i);
    }
  }

  /** The flags of a shift that come from its result, and those it leaves alone. */
  predicate ResultFlags(f: Flags, s: Result, size: nat)
    requires SizeOk(size)
  {
    && s.r < Mod(size) && (s.f.zf <==> s.r == 0) && (s.f.sf <==> BitAt(s.r, 8 * size - 1))
    && (s.f.pf <==> Ones(s.r, 8) % 2 == 0) && s.f.af == f.af && s.f.df == f.df
  }

  lemma FlagsFrom(f: Flags, g: Flags, r: nat, size: nat)
    requires SizeOk(size) && r < Mod(size) && g.af == f.af && g.df == f.df
    ensures ResultFlags(f, Result(r, WithSzp(g, r, size)), size)
  {
    hide BitAt, Ones, EvenParity, Top;
    EndBits(r, size);
    ParityIs(r);
  }

  /** SHL: bits move up over zeros; the carry is the last one out, none beyond the width. */
  lemma ShlBits(op: nat, f: Flags, v: nat, count: nat, size: nat)
    requires SizeOk(size) && v < Mod(size) && count > 0 && (op == 4 || op == 6)
    ensures var s, n := Shifted(op, f, v, count, size), 8 * size;
            && (forall i | 0 <= i < n :: BitAt(s.r, i) <==> i >= count && BitAt(v, i - count))
            && (s.f.cf <==> count <= n && BitAt(v, n - count)) && (s.f.of <==> s.f.cf != BitAt(s.r, n - 1))
            && ResultFlags(f, s, size)
  {
    hide W.Pow2, W.Times, W.Over, BitAt, Masked, Odd, Top, WithSzp, ResultFlags;
    var n := 8 * size;
    var x := W.Times(v, W.Pow2(count));
    ModPow(size);
    EndBits(Masked(x, size), size);
    BitOver(x, n, 0);
    OddIs(W.Over(x, Mod(size)));
    TimesBits(v, count, n);
    FlagsFrom(f, f.(cf := Odd(W.Over(x, Mod(size))), of := Odd(W.Over(x, Mod(size))) != Top(Masked(x, size), size)),
              Masked(x, size), size);
    WithKeeps(f.(cf := Odd(W.Over(x, Mod(size))), of := Odd(W.Over(x, Mod(size))) != Top(Masked(x, size), size)),
              Masked(x, size), size);
    forall i | 0 <= i < n ensures BitAt(Masked(x, size), i) <==> i >= count && BitAt(v, i - count) {
      MaskedBits(x, size, i);
      TimesBits(v, count, i);
    }
  }

  lemma OddIs(x: nat)
    ensures Odd(x) <==> BitAt(x, 0)
  {
  }

  lemma TimesBits(v: nat, c: nat, i: nat)
    ensures BitAt(W.Times(v, W.Pow2(c)), i) <==> i >= c && BitAt(v, i - c)
  {
    hide W.Times, W.Pow2, BitAt;
    BitSplit(v, 0, c, i);
    if i < c {
      BitNone(0, 0, i);
    }
  }

  lemma WithKeeps(f: Flags, r: nat, size: nat)
    requires SizeOk(size)
    ensures WithSzp(f, r, size).cf == f.cf && WithSzp(f, r, size).of == f.of
  {
  }

  /** SHR: bits move down under zeros; the carry is the last one out, the overflow flag the old top bit. */
  lemma ShrBits(f: Flags, v: nat, count: nat, size: nat)
    requires SizeOk(size) && v < Mod(size) && count > 0
    ensures var s, n := Shifted(5, f, v, count, size), 8 * size;
            && (forall i | 0 <= i < n :: BitAt(s.r, i) <==> i + count < n && BitAt(v, i + count))
            && (s.f.cf <==> count <= n && BitAt(v, count - 1)) && (s.f.of <==> BitAt(v, n - 1))
            && ResultFlags(f, s, size)
  {
    hide W.Pow2, W.Over, BitAt, Masked, Odd, Top, WithSzp, ResultFlags;
    var n := 8 * size;
    var x := W.Over(v, W.Pow2(count));
    var g := f.(cf := Odd(W.Over(v, W.Pow2(count - 1))), of := Top(v, size));
    ModPow(size);
    EndBits(v, size);
    BitOver(v, count - 1, 0);
    OddIs(W.Over(v, W.Pow2(count - 1)));
    if count > n {
      BitNone(v, n, count - 1);
    }
    FlagsFrom(f, g, Masked(x, size), size);
    WithKeeps(g, Masked(x, size), size);
    forall i | 0 <= i < n ensures BitAt(Masked(x, size), i) <==> i + count < n && BitAt(v, i + count) {
      MaskedBits(x, size, i);
      BitOver(v, count, i);
      if i + count >= n {
        BitNone(v, n, i + count);
      }
    }
  }

  // ---- the arithmetic shift -------------------------------------------------------------------------------

  /** A negative number divided, rounding down, in terms of its complement. */
  lemma FloorTurned(w: nat, p: nat)
    requires p > 0
    ensures Floor(-1 - w, p) == -1 - W.Over(w, p)
  {
    var q, r := w / p, w % p;
    assert w == p * q + r;
    assert p * (-1 - q) == 0 - p - p * q;
    W.DivIs(-1 - w, p, -1 - q, p - 1 - r);
  }

  /** A number taken from all ones, masked. */
  lemma MaskedTurned(y: nat, size: nat)
    requires SizeOk(size) && y < Mod(size)
    ensures Masked(-1 - y, size) == Mod(size) - 1 - y
  {
    MaskOnce(-1 - y, size);
  }

  /** Bits of a signed number divided, rounding down: from the top bit up they are all copies of it. */
  lemma FloorBits(v: nat, size: nat, c: nat, i: nat)
    requires SizeOk(size) && v < Mod(size) && i < 8 * size
    ensures BitAt(Masked(Floor(Signed(v, size), W.Pow2(c)), size), i) <==>
            BitAt(v, if i + c < 8 * size then i + c else 8 * size - 1)
  {
    hide W.Pow2, W.Over, BitAt, Masked, Floor, Mod;
    var n := 8 * size;
    ModPow(size);
    EndBits(v, size);
    if Top(v, size) {
      var w := Mod(size) - 1 - v;
      var y := W.Over(w, W.Pow2(c));
      FloorTurned(w, W.Pow2(c));
      OverSmall(w, W.Pow2(c));
      MaskedTurned(y, size);
      BitTurned(y, n, i);
      BitOver(w, c, i);
      if i + c < n {
        BitTurned(v, n, i + c);
      } else {
        BitNone(w, n, i + c);
      }
    } else {
      FloorOver(v, W.Pow2(c));
      MaskedBits(W.Over(v, W.Pow2(c)), size, i);
      BitOver(v, c, i);
      if i + c >= n {
        BitNone(v, n, i + c);
      }
    }
  }

  lemma FloorOver(x: nat, p: nat)
    requires p > 0
    ensures Floor(x, p) == W.Over(x, p)
  {
  }

  lemma OverSmall(x: nat, p: nat)
    requires p > 0
    ensures W.Over(x, p) <= x
  {
    assert x == p * (x / p) + x % p;
    W.MulMono(1, p, x / p);
  }

  /** Whether a masked number is odd is whether the number is. */
  lemma MaskedOdd(x: int, size: nat)
    requires SizeOk(size)
    ensures Odd(x) <==> BitAt(Masked(x, size), 0)
  {
    OddIs(Masked(x, size));
    if size == 1 {
    } else if size == 2 {
    } else if size == 4 {
    } else {
    }
  }

  /** SAR: bits move down under copies of the top one; the carry is as coded, the overflow flag clear. */
  lemma SarBits(f: Flags, v: nat, count: nat, size: nat)
    requires SizeOk(size) && v < Mod(size) && count > 0
    ensures var s, n := Shifted(7, f, v, count, size), 8 * size;
            && (forall i | 0 <= i < n ::
                BitAt(s.r, i) <==> BitAt(v, if i + count < n then i + count else n - 1))
            && (s.f.cf <==> BitAt(v, (if count >= n then n - 1 else count) - 1)) && !s.f.of
            && ResultFlags(f, s, size)
  {
    hide W.Pow2, BitAt, Masked, Floor, Odd, WithSzp, ResultFlags, Signed;
    var n := 8 * size;
    var r := Masked(Floor(Signed(v, size), W.Pow2(count)), size);
    var g := f.(cf := SarCarry(v, count, size), of := false);
    var k: nat := (if count >= n then n - 1 else count) - 1;
    MaskedOdd(Floor(Signed(v, size), W.Pow2(k)), size);
    FloorBits(v, size, k, 0);
    FlagsFrom(f, g, r, size);
    WithKeeps(g, r, size);
    forall i | 0 <= i < n ensures BitAt(r, i) <==> BitAt(v, if i + count < n then i + count else n - 1) {
      FloorBits(v, size, count, i);
    }
  }
}
