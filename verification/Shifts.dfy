/** Shifts and rotates as arithmetic: what each moves, and which of them undo each other. */
module Shifts {
  import opened Bytes
  import opened Alu
  import W = WideMath

  /** An n-bit number rotated left by c: its upper c bits go below the others. */
  function RotL(x: nat, n: nat, c: nat): nat
    requires c <= n
  {
    W.Times(W.Rest(x, W.Pow2(n - c)), W.Pow2(c)) + W.Over(x, W.Pow2(n - c))
  }

  function RotR(x: nat, n: nat, c: nat): nat
    requires c <= n
  {
    RotL(x, n, n - c)
  }

  /** A carry flag above an operand: the number that RCL and RCR rotate. */
  function Joined(cf: bool, v: nat, bits: nat): nat
  {
    Carried(cf, W.Pow2(bits)) + v
  }

  /** Division that rounds down, whatever the sign. */
  function Floor(x: int, p: nat): int
    requires p > 0
  {
    x / p
  }

  /** The number of positions, after the processor has masked it. */
  function Limit(count: nat, size: nat): nat { if size == 8 then count % 64 else count % 32 }

  predicate Odd(x: int) { x % 2 == 1 }

  /** The bit below the sign bit. */
  predicate Second(x: nat, size: nat)
    requires SizeOk(size)
  {
    Odd(x / (Mod(size) / 4))
  }

  /** The carry flag SAR leaves: its count saturates one short of the width. */
  predicate SarCarry(v: nat, count: nat, size: nat)
    requires SizeOk(size) && count > 0
  {
    Odd(Floor(Signed(v, size), W.Pow2((if count >= 8 * size then 8 * size - 1 else count) - 1)))
  }

  /**
    What each operation computes: 0 ROL, 1 ROR, 2 RCL, 3 RCR, 4 and 6 SHL, 5 SHR, otherwise SAR.
    The carry flag of SHL and SHR is the last bit shifted out.
    */
  function Shifted(op: nat, f: Flags, v: nat, count: nat, size: nat): Result
    requires SizeOk(size) && v < Mod(size)
  {
    var bits := 8 * size;
    if count == 0 then Result(v, f)
    else if op == 0 then
      var r := Masked(RotL(v, bits, count % bits), size);
      Result(r, f.(cf := Odd(r), of := Top(r, size) != Odd(r)))
    else if op == 1 then
      var r := Masked(RotR(v, bits, count % bits), size);
      Result(r, f.(cf := Top(r, size), of := Top(r, size) != Second(r, size)))
    else if op == 2 then
      var x := RotL(Joined(f.cf, v, bits), bits + 1, count % (bits + 1));
      Result(Masked(x, size), f.(cf := x >= Mod(size), of := Top(Masked(x, size), size) != (x >= Mod(size))))
    else if op == 3 then
      var x := RotR(Joined(f.cf, v, bits), bits + 1, count % (bits + 1));
      Result(Masked(x, size), f.(cf := x >= Mod(size)))
    else if op == 4 || op == 6 then
      var x := W.Times(v, W.Pow2(count));
      var r, cf := Masked(x, size), Odd(W.Over(x, Mod(size)));
      Result(r, WithSzp(f.(cf := cf, of := cf != Top(r, size)), r, size))
    else if op == 5 then
      var r := Masked(W.Over(v, W.Pow2(count)), size);
      Result(r, WithSzp(f.(cf := Odd(W.Over(v, W.Pow2(count - 1))), of := Top(v, size)), r, size))
    else
      var r := Masked(Floor(Signed(v, size), W.Pow2(count)), size);
      Result(r, WithSzp(f.(cf := SarCarry(v, count, size), of := false), r, size))
  }

  // ---- powers, quotients and remainders ---------------------------------------------------------

  lemma Pow2Sum(a: nat, b: nat)
    ensures W.Pow2(a + b) == W.Times(W.Pow2(a), W.Pow2(b))
  {
    hide W.Times;
    if a == 0 {
      assert W.Times(1, W.Pow2(b)) == W.Pow2(b) by {
        TimesOne(W.Pow2(b));
      }
    } else {
      Pow2Sum(a - 1, b);
      W.TimesTwo(W.Pow2(a - 1), W.Pow2(b));
    }
  }

  lemma TimesOne(x: nat)
    ensures W.Times(1, x) == x && W.Times(0, x) == 0 && W.Times(x, 1) == x && W.Times(2, x) == 2 * x
            && W.Times(x, 2) == 2 * x
  {
  }

  lemma ModPow(size: nat)
    requires SizeOk(size)
    ensures W.Pow2(8 * size) == Mod(size) && W.Pow2(8 * size - 1) == Mod(size) / 2
            && W.Pow2(8 * size + 1) == 2 * Mod(size)
  {
    W.Pow64();
    W.Pow2Step(8 * size - 1);
  }

  /** Euclid, in the terms used here. */
  lemma Divide(x: nat, p: nat)
    requires p > 0
    ensures x == W.Times(W.Over(x, p), p) + W.Rest(x, p) && W.Rest(x, p) < p
  {
  }

  lemma Divided(x: nat, p: nat, q: nat, r: nat)
    requires p > 0 && r < p && x == W.Times(q, p) + r
    ensures W.Over(x, p) == q && W.Rest(x, p) == r
  {
    W.DivIs(x, p, q, r);
  }

  lemma TimesMono(a: nat, b: nat, p: nat)
    requires a <= b
    ensures W.Times(a, p) <= W.Times(b, p) && W.Times(p, a) <= W.Times(p, b)
  {
    W.MulMono(a, b, p);
  }

  lemma TimesSum(a: nat, b: nat, p: nat)
    ensures W.Times(a + b, p) == W.Times(a, p) + W.Times(b, p)
  {
  }

  lemma TimesSwap(a: nat, b: nat, p: nat)
    ensures W.Times(a, b) == W.Times(b, a) && W.Times(W.Times(a, b), p) == W.Times(a, W.Times(b, p))
  {
    assert a * b * p == a * (b * p);
  }

  /** A quotient is small when the dividend is. */
  lemma OverBound(x: nat, p: nat, q: nat)
    requires p > 0 && x < W.Times(p, q)
    ensures W.Over(x, p) < q
  {
    hide W.Times, W.Over, W.Rest;
    Divide(x, p);
    if W.Over(x, p) >= q {
      TimesMono(q, W.Over(x, p), p);
      TimesSwap(p, q, 0);
    }
  }

  // ---- rotation -----------------------------------------------------------------------------------

  lemma RotBound(x: nat, n: nat, c: nat)
    requires c <= n && x < W.Pow2(n)
    ensures RotL(x, n, c) < W.Pow2(n) && W.Over(x, W.Pow2(n - c)) < W.Pow2(c)
  {
    hide W.Times, W.Over, W.Rest, W.Pow2;
    var p, q := W.Pow2(n - c), W.Pow2(c);
    Pow2Sum(n - c, c);
    Divide(x, p);
    OverBound(x, p, q);
    TimesMono(W.Rest(x, p) + 1, p, q);
    TimesSum(W.Rest(x, p), 1, q);
    TimesOne(q);
  }

  /** Rotating the rest of the way round restores the number. */
  lemma RotUndo(x: nat, n: nat, c: nat)
    requires c <= n && x < W.Pow2(n)
    ensures RotL(RotL(x, n, c), n, n - c) == x
  {
    hide W.Times, W.Over, W.Rest, W.Pow2;
    var p, q := W.Pow2(n - c), W.Pow2(c);
    RotBound(x, n, c);
    Divide(x, p);
    Divided(RotL(x, n, c), q, W.Rest(x, p), W.Over(x, p));
    assert n - (n - c) == c;
  }

  /** Dividing by twice p and then the rest by p is dividing by p. */
  lemma DivideTwice(x: nat, p: nat)
    requires p > 0
    ensures var l := W.Rest(x, 2 * p);
            W.Over(x, p) == 2 * W.Over(x, 2 * p) + W.Over(l, p) && W.Rest(x, p) == W.Rest(l, p)
  {
    hide W.Times, W.Over, W.Rest;
    var h, l := W.Over(x, 2 * p), W.Rest(x, 2 * p);
    Divide(x, 2 * p);
    Divide(l, p);
    TimesSum(2 * h, W.Over(l, p), p);
    W.TimesTwo(h, p);
    Divided(x, p, 2 * h + W.Over(l, p), W.Rest(l, p));
  }

  /** The top bit of a number whose low part l stands above c bits h. */
  lemma TopBit(l: nat, h: nat, p: nat, q: nat)
    requires p > 0 && h < q
    ensures W.Times(p, q) > 0 && W.Over(W.Times(l, q) + h, W.Times(p, q)) == W.Over(l, p)
    ensures W.Rest(W.Times(l, q) + h, W.Times(p, q)) == W.Times(W.Rest(l, p), q) + h
  {
    hide W.Times, W.Over, W.Rest;
    var b, k := W.Over(l, p), W.Rest(l, p);
    Divide(l, p);
    TimesSum(W.Times(b, p), k, q);
    TimesSwap(b, p, q);
    TimesMono(k + 1, p, q);
    TimesSum(k, 1, q);
    TimesOne(q);
    Divided(W.Times(l, q) + h, W.Times(p, q), b, W.Times(k, q) + h);
  }

  lemma RotIs(x: nat, n: nat, c: nat, p: nat, q: nat)
    requires c <= n && p == W.Pow2(n - c) && q == W.Pow2(c)
    ensures RotL(x, n, c) == W.Times(W.Rest(x, p), q) + W.Over(x, p)
  {
  }

  /** Rotating is rotating by one, repeated. */
  lemma RotStep(x: nat, n: nat, c: nat)
    requires c < n && x < W.Pow2(n)
    ensures RotL(RotL(x, n, c), n, 1) == RotL(x, n, c + 1)
  {
    hide W.Times, W.Over, W.Rest, W.Pow2, RotL;
    var p, q := W.Pow2(n - c - 1), W.Pow2(c);
    W.Pow2Step(n - c - 1);
    W.Pow2Step(c);
    Pow2One();
    Pow2Sum(n - c - 1, c);
    RotBound(x, n, c);
    var h, l := W.Over(x, 2 * p), W.Rest(x, 2 * p);
    RotIs(x, n, c, 2 * p, q);
    RotIs(x, n, c + 1, p, 2 * q);
    RotIs(W.Times(l, q) + h, n, 1, W.Times(p, q), 2);
    DivideTwice(x, p);
    TopBit(l, h, p, q);
    W.TimesTwo(W.Rest(l, p), q);
    TimesOne(W.Times(W.Rest(l, p), q) + h);
  }

  lemma Pow2One()
    ensures W.Pow2(0) == 1 && W.Pow2(1) == 2
  {
  }

  /** Rotating right by one more undoes one left. */
  lemma RotBackStep(x: nat, n: nat, c: nat)
    requires c < n && x < W.Pow2(n)
    ensures RotR(RotR(x, n, c), n, 1) == RotR(x, n, c + 1)
  {
    hide RotL, W.Pow2;
    var z := RotL(x, n, n - c - 1);
    RotBound(x, n, n - c - 1);
    RotStep(x, n, n - c - 1);
    RotUndo(z, n, 1);
  }

  // ---- one turn of the coded loops ------------------------------------------------------------------

  /** The flag and the operand are found again in the number they make. */
  lemma Parted(cf: bool, r: nat, size: nat)
    requires SizeOk(size) && r < Mod(size)
    ensures var x := Joined(cf, r, 8 * size);
            Masked(x, size) == r && (x >= Mod(size) <==> cf) && x < W.Pow2(8 * size + 1)
  {
    ModPow(size);
    hide W.Pow2;
    MaskOnce(Joined(cf, r, 8 * size), size);
  }

  lemma JoinedBack(x: nat, size: nat)
    requires SizeOk(size) && x < W.Pow2(8 * size + 1)
    ensures Joined(x >= Mod(size), Masked(x, size), 8 * size) == x
  {
    ModPow(size);
    hide W.Pow2;
    MaskOnce(x, size);
  }

  /** RCL's loop body turns the joined number left by one. */
  lemma RclStep(cf: bool, r: nat, size: nat)
    requires SizeOk(size) && r < Mod(size)
    ensures Joined(Top(r, size), Masked(2 * r + Count(cf), size), 8 * size) ==
              RotL(Joined(cf, r, 8 * size), 8 * size + 1, 1)
  {
    hide W.Times, W.Over, W.Rest, W.Pow2, RotL, Mod, Masked;
    ModPow(size);
    Pow2One();
    MaskOnce(2 * r + Count(cf), size);
    RotIs(Joined(cf, r, 8 * size), 8 * size + 1, 1, Mod(size), 2);
    TimesOne(Mod(size));
    TimesOne(r);
    Divided(Joined(cf, r, 8 * size), Mod(size), Count(cf), r);
  }

  /** RCR's turns it right by one. */
  lemma RcrStep(cf: bool, r: nat, size: nat)
    requires SizeOk(size) && r < Mod(size)
    ensures Joined(Odd(r), r / 2 + Carried(cf, Mod(size) / 2), 8 * size) ==
              RotR(Joined(cf, r, 8 * size), 8 * size + 1, 1)
    ensures r / 2 + Carried(cf, Mod(size) / 2) < Mod(size)
  {
    hide W.Times, W.Over, W.Rest, W.Pow2, RotL, Mod;
    ModPow(size);
    Pow2One();
    var x := Joined(cf, r, 8 * size);
    RotIs(x, 8 * size + 1, 8 * size, 2, Mod(size));
    TimesOne(Mod(size));
    TimesOne(r / 2 + Carried(cf, Mod(size) / 2));
    Divided(x, 2, r / 2 + Carried(cf, Mod(size) / 2), r % 2);
  }

  /** Shifting up past the top leaves what rotation keeps, shifted. */
  lemma ShiftedUp(v: nat, bits: nat, c: nat)
    requires c <= bits
    ensures W.Rest(W.Times(v, W.Pow2(c)), W.Pow2(bits)) == W.Times(W.Rest(v, W.Pow2(bits - c)), W.Pow2(c))
    ensures W.Over(W.Times(v, W.Pow2(c)), W.Pow2(bits)) == W.Over(v, W.Pow2(bits - c))
  {
    hide W.Times, W.Over, W.Rest, W.Pow2;
    Pow2Sum(bits - c, c);
    TopBit(v, 0, W.Pow2(bits - c), W.Pow2(c));
  }

  /** Two shifts or-ed together are a rotation. */
  lemma RolIs(v: nat, size: nat, c: nat)
    requires SizeOk(size) && v < Mod(size) && c <= 8 * size
    ensures Masked(W.Times(v, W.Pow2(c)), size) + W.Over(v, W.Pow2(8 * size - c)) == RotL(v, 8 * size, c) < Mod(size)
  {
    hide W.Times, W.Over, W.Pow2, Mod, Masked;
    ModPow(size);
    ShiftedUp(v, 8 * size, c);
    MaskedRest(W.Times(v, W.Pow2(c)), size);
    RotBound(v, 8 * size, c);
  }

  lemma MaskedRest(x: nat, size: nat)
    requires SizeOk(size)
    ensures Masked(x, size) == W.Rest(x, Mod(size))
  {
  }

  lemma NotShifted(op: nat, f: Flags, v: nat, size: nat)
    requires SizeOk(size) && v < Mod(size)
    ensures Shifted(op, f, v, 0, size) == Result(v, f)
  {
  }

  /** A rotation by no places, or all the way round, moves nothing. */
  lemma NoTurnCarry(x: nat, n: nat)
    requires x < W.Pow2(n)
    ensures RotL(x, n, 0) == x && RotR(x, n, 0) == x
  {
    hide W.Pow2, W.Times, W.Over, W.Rest;
    Pow2One();
    TimesOne(x);
    TimesOne(W.Pow2(n));
    Divided(x, W.Pow2(n), 0, x);
    Divided(x, 1, x, 0);
  }

  lemma NoTurn(v: nat, size: nat)
    requires SizeOk(size) && v < Mod(size)
    ensures RotL(v, 8 * size, 0) == v && RotR(v, 8 * size, 0) == v
  {
    ModPow(size);
    NoTurnCarry(v, 8 * size);
  }

  // ---- shifts past the width ------------------------------------------------------------------------

  /** SHL at a count beyond the width leaves nothing, and shifts out a zero or the last bit. */
  lemma ShlBeyond(v: nat, size: nat, count: nat)
    requires SizeOk(size) && v < Mod(size) && count >= 8 * size
    ensures Masked(W.Times(v, W.Pow2(count)), size) == 0
    ensures count > 8 * size ==> !Odd(W.Over(W.Times(v, W.Pow2(count)), Mod(size)))
  {
    hide W.Times, W.Over, W.Rest, W.Pow2, Mod, Masked;
    ModPow(size);
    var k := count - 8 * size;
    Pow2Sum(k, 8 * size);
    TimesSwap(v, W.Pow2(k), Mod(size));
    Divided(W.Times(v, W.Pow2(count)), Mod(size), W.Times(v, W.Pow2(k)), 0);
    MaskedRest(W.Times(v, W.Pow2(count)), size);
    if k > 0 {
      W.Pow2Step(k - 1);
      W.TimesTwo(v, W.Pow2(k - 1));
    }
  }

  lemma ShrBeyond(v: nat, size: nat, count: nat)
    requires SizeOk(size) && v < Mod(size)
    ensures count >= 8 * size ==> W.Over(v, W.Pow2(count)) == 0
    ensures W.Over(v, W.Pow2(count)) < Mod(size)
  {
    hide W.Times, W.Over, W.Rest, W.Pow2, Mod;
    ModPow(size);
    Divide(v, W.Pow2(count));
    TimesMono(1, W.Pow2(count), W.Over(v, W.Pow2(count)));
    TimesOne(W.Over(v, W.Pow2(count)));
    if count >= 8 * size {
      W.Pow2Mono(8 * size, count);
      TimesOne(W.Pow2(count));
      Divided(v, W.Pow2(count), 0, v);
    }
  }

  /** Rounding down keeps a two's complement number in range; past the width it is the sign alone. */
  lemma FloorNear(x: int, h: nat, p: nat)
    requires h > 0 && p > 0 && 0 - h <= x < h
    ensures 0 - h <= Floor(x, p) < h && (p >= h ==> Floor(x, p) == if x < 0 then -1 else 0)
  {
    if p >= h {
      W.DivIs(x, p, if x < 0 then -1 else 0, if x < 0 then x + p else x);
    } else {
      Growth(p, x / p);
      FloorShrinks(x, p, x / p, x % p, p * (x / p));
    }
  }

  lemma Growth(p: nat, q: int)
    requires p > 0
    ensures if q >= 0 then p * q >= q else p * q <= q + 1 - p
  {
    if q >= 0 {
      W.MulMono(1, p, q);
    } else {
      W.MulMono(1, p, -q - 1);
      assert p * (-q - 1) == -(p * q) - p;
    }
  }

  lemma FloorShrinks(x: int, p: nat, q: int, r: nat, w: int)
    requires x == w + r && r < p && if q >= 0 then w >= q else w <= q + 1 - p
    ensures if x < 0 then x <= q < 0 else 0 <= q <= x
  {
  }

  lemma SarBeyond(v: nat, size: nat, count: nat)
    requires SizeOk(size) && v < Mod(size)
    ensures 0 - Mod(size) / 2 <= Floor(Signed(v, size), W.Pow2(count)) < Mod(size) / 2
    ensures count >= 8 * size - 1 ==> Floor(Signed(v, size), W.Pow2(count)) == if Top(v, size) then -1 else 0
  {
    hide Floor, W.Pow2, Mod;
    ModPow(size);
    FloorNear(Signed(v, size), Mod(size) / 2, W.Pow2(count));
    if count >= 8 * size - 1 {
      W.Pow2Mono(8 * size - 1, count);
    }
  }

  // ---- what the operations are for --------------------------------------------------------------------

  /** SAR divides the signed value, rounding down, at every count. */
  lemma SarDivides(f: Flags, v: nat, count: nat, size: nat)
    requires SizeOk(size) && v < Mod(size)
    ensures Signed(Shifted(7, f, v, count, size).r, size) == Floor(Signed(v, size), W.Pow2(count))
  {
    hide Floor, W.Pow2, Mod, Masked, SarCarry, WithSzp;
    if count == 0 {
      FloorOne(Signed(v, size));
    } else {
      SarBeyond(v, size, count);
      MaskOnce(Floor(Signed(v, size), W.Pow2(count)), size);
    }
  }

  lemma FloorOne(x: int)
    ensures Floor(x, W.Pow2(0)) == x
  {
  }

  /**
    SAR's carry flag is the last bit shifted out exactly when the count is below the width or the two top
    bits agree.
    */
  lemma SarCarryRight(v: nat, count: nat, size: nat)
    requires SizeOk(size) && v < Mod(size) && count > 0
    ensures SarCarry(v, count, size) == Odd(Floor(Signed(v, size), W.Pow2(count - 1))) <==>
            count < 8 * size || Top(v, size) == Second(v, size)
  {
    if count >= 8 * size {
      SarBeyond(v, size, count - 1);
      SecondBit(v, size);
    }
  }

  /** Shifting the byte 0x80 right by eight leaves its sign, yet the carry flag holds the bit below it. */
  lemma SarCarryMisses()
    ensures SarCarry(0x80, 8, 1) != Odd(Floor(Signed(0x80, 1), W.Pow2(7)))
  {
    SarCarryRight(0x80, 8, 1);
  }

  /** The overflow flag the manual gives a rotate or shift by one, from the operand and what it became. */
  predicate ManualOverflow(op: nat, carry: bool, v: nat, s: Result, size: nat)
    requires SizeOk(size)
  {
    match op
    case 1 => Top(s.r, size) != Second(s.r, size)
    case 3 => Top(v, size) != carry
    case 5 => Top(v, size)
    case 7 => false
    case _ => Top(s.r, size) != s.f.cf
  }

  /** By one position the overflow flag is the manual's, but for RCR, which leaves the flag as it was. */
  lemma OverflowByOne(op: nat, f: Flags, v: nat, size: nat)
    requires SizeOk(size) && v < Mod(size) && op < 8
    ensures var s := Shifted(op, f, v, 1, size);
            (s.f.of <==> ManualOverflow(op, f.cf, v, s, size)) <==> op != 3 || (f.of <==> Top(v, size) != f.cf)
  {
    hide Shifted, ManualOverflow;
    if op < 2 {
      OverflowRotate(op, f, v, size);
    } else if op < 4 {
      OverflowCarry(op, f, v, size);
    } else {
      OverflowShift(op, f, v, size);
    }
  }

  lemma OverflowRotate(op: nat, f: Flags, v: nat, size: nat)
    requires SizeOk(size) && v < Mod(size) && op < 2
    ensures var s := Shifted(op, f, v, 1, size); s.f.of <==> ManualOverflow(op, f.cf, v, s, size)
  {
    hide Mod, Masked, RotL, RotR, Top, Second, Odd;
  }

  lemma OverflowCarry(op: nat, f: Flags, v: nat, size: nat)
    requires SizeOk(size) && v < Mod(size) && 2 <= op < 4
    ensures var s := Shifted(op, f, v, 1, size);
            && (op == 2 ==> (s.f.of <==> ManualOverflow(op, f.cf, v, s, size)))
            && (op == 3 ==> s.f.of == f.of && (ManualOverflow(op, f.cf, v, s, size) <==> Top(v, size) != f.cf))
  {
    hide Mod, Masked, RotL, RotR, Joined, Top, Second, Odd;
  }

  lemma OverflowShift(op: nat, f: Flags, v: nat, size: nat)
    requires SizeOk(size) && v < Mod(size) && 4 <= op < 8
    ensures var s := Shifted(op, f, v, 1, size); s.f.of <==> ManualOverflow(op, f.cf, v, s, size)
  {
    hide Mod, Masked, Top, Odd, Floor, SarCarry, Signed, W.Pow2, W.Over, W.Times, EvenParity;
  }

  /** RCR of the byte 0x80 by one, with both flags clear, should set the overflow flag and does not. */
  lemma OverflowMisses()
    ensures var f := Flags(false, false, false, false, false, false, false);
            var s := Shifted(3, f, 0x80, 1, 1); !s.f.of && ManualOverflow(3, f.cf, 0x80, s, 1)
  {
  }

  lemma SecondBit(v: nat, size: nat)
    requires SizeOk(size) && v < Mod(size)
    ensures W.Pow2(8 * size - 2) == Mod(size) / 4
            && Odd(Floor(Signed(v, size), W.Pow2(8 * size - 2))) == Second(v, size)
  {
    hide W.Pow2, Mod;
    ModPow(size);
    W.Pow2Step(8 * size - 2);
    W.Pow2Step(8 * size - 1);
    SecondOf(v, W.Pow2(8 * size - 2));
  }

  /** Taking four quarters away leaves the parity of the quarters. */
  lemma SecondOf(v: nat, q: nat)
    requires q > 0
    ensures Odd(Floor(v - 4 * q, q)) == Odd(Floor(v, q))
  {
    W.DivIs(v - 4 * q, q, v / q - 4, v % q);
  }

  /** RCL then RCR by the same count, or RCR then RCL, gives back the operand and the carry flag. */
  lemma RotateCarryUndone(f: Flags, v: nat, count: nat, size: nat)
    requires SizeOk(size) && v < Mod(size)
    ensures var s := Shifted(2, f, v, count, size); s.r < Mod(size) && var t := Shifted(3, s.f, s.r, count, size);
            t.r == v && t.f.cf == f.cf
    ensures var s := Shifted(3, f, v, count, size); s.r < Mod(size) && var t := Shifted(2, s.f, s.r, count, size);
            t.r == v && t.f.cf == f.cf
  {
    hide Joined, Mod, RotL, Masked, Top, W.Pow2;
    if count > 0 {
      var n := 8 * size + 1;
      var c := count % n;
      var x := Joined(f.cf, v, 8 * size);
      Parted(f.cf, v, size);
      RotBound(x, n, c);
      RotBound(x, n, n - c);
      JoinedBack(RotL(x, n, c), size);
      JoinedBack(RotR(x, n, c), size);
      RotUndo(x, n, c);
      RotUndo(x, n, n - c);
      assert n - (n - c) == c;
    }
  }

  /** ROL and ROR undo each other. */
  lemma RotateUndone(f: Flags, v: nat, count: nat, size: nat)
    requires SizeOk(size) && v < Mod(size)
    ensures var s := Shifted(0, f, v, count, size); s.r < Mod(size) && Shifted(1, s.f, s.r, count, size).r == v
    ensures var s := Shifted(1, f, v, count, size); s.r < Mod(size) && Shifted(0, s.f, s.r, count, size).r == v
  {
    hide Mod, RotL, Masked, Top, W.Pow2, Second;
    if count > 0 {
      var n := 8 * size;
      var c := count % n;
      ModPow(size);
      RotBound(v, n, c);
      RotBound(v, n, n - c);
      RotUndo(v, n, c);
      RotUndo(v, n, n - c);
      assert n - (n - c) == c;
      MaskBelow(v, size);
      MaskBelow(RotL(v, n, c), size);
      MaskBelow(RotL(v, n, n - c), size);
    }
  }

}
