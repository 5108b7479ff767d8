/** The arithmetic flags: how ADD, ADC, SUB, SBB and CMP set them, and what reading them decides. */
module Alu {
  import opened Bytes
  import W = WideMath

  datatype Flags = Flags(cf: bool, pf: bool, af: bool, zf: bool, sf: bool, of: bool, df: bool)

  predicate SizeOk(size: nat) { size == 1 || size == 2 || size == 4 || size == 8 }

  /** One more than the largest operand of this many bytes. */
  function Mod(size: nat): (m: nat)
    requires SizeOk(size)
    ensures m % 2 == 0 && m >= 256
  {
    if size == 1 then 0x100
    else if size == 2 then 0x1_0000 else if size == 4 then 0x1_0000_0000 else 0x1_0000_0000_0000_0000
  }

  function Masked(x: int, size: nat): (r: nat)
    requires SizeOk(size)
    ensures r < Mod(size) <= 0x1_0000_0000_0000_0000
  {
    x % Mod(size)
  }

  /** The sign bit. */
  predicate Top(x: nat, size: nat)
    requires SizeOk(size)
  {
    x >= Mod(size) / 2
  }

  function Signed(x: nat, size: nat): int
    requires SizeOk(size)
  {
    if Top(x, size) then x - Mod(size) else x
  }

  predicate Bit(x: nat, weight: nat)
    requires weight > 0
  {
    x / weight % 2 == 1
  }

  function Count(b: bool): nat { if b then 1 else 0 }

  /** The weight of a carry out of a number below p. */
  function Carried(b: bool, p: nat): nat { if b then p else 0 }

  predicate EvenParity(x: nat)
  {
    (Count(Bit(x, 1)) + Count(Bit(x, 2)) + Count(Bit(x, 4)) + Count(Bit(x, 8))
     + Count(Bit(x, 16)) + Count(Bit(x, 32)) + Count(Bit(x, 64)) + Count(Bit(x, 128))) % 2 == 0
  }

  function WithSzp(f: Flags, res: nat, size: nat): Flags
    requires SizeOk(size)
  {
    f.(zf := res == 0, sf := Top(res, size), pf := EvenParity(res))
  }

  function FlagsAdd(f: Flags, a: nat, b: nat, carry: nat, res: nat, size: nat): Flags
    requires SizeOk(size)
  {
    var cf := if size == 8 then res < a || (carry != 0 && res == a) else (a + b + carry) / Mod(size) != 0;
    var af := (Bit(a, 16) != Bit(b, 16)) != Bit(res, 16);
    var of := Top(a, size) == Top(b, size) && Top(a, size) != Top(res, size);
    WithSzp(f.(cf := cf, af := af, of := of), res, size)
  }

  function FlagsSub(f: Flags, a: nat, b: nat, borrow: nat, res: nat, size: nat): Flags
    requires SizeOk(size)
  {
    var cf := if borrow != 0 then a <= b else a < b;
    var af := (Bit(a, 16) != Bit(b, 16)) != Bit(res, 16);
    var of := Top(a, size) != Top(b, size) && Top(a, size) != Top(res, size);
    WithSzp(f.(cf := cf, af := af, of := of), res, size)
  }

  function FlagsLogic(f: Flags, res: nat, size: nat): Flags
    requires SizeOk(size)
  {
    WithSzp(f.(cf := false, of := false, af := false), res, size)
  }

  datatype Result = Result(r: u64, f: Flags)

  function Add(f: Flags, x: nat, y: nat, carry: nat, size: nat): Result
    requires SizeOk(size)
  {
    var a, b := Masked(x, size), Masked(y, size);
    var r := Masked(a + b + carry, size);
    Result(r, FlagsAdd(f, a, b, carry, r, size))
  }

  function Sub(f: Flags, x: nat, y: nat, borrow: nat, size: nat): Result
    requires SizeOk(size)
  {
    var a, b := Masked(x, size), Masked(y, size);
    var r := Masked(a - b - borrow, size);
    Result(r, FlagsSub(f, a, b, borrow, r, size))
  }

  function Logic(f: Flags, r: nat, size: nat): Result
    requires SizeOk(size)
  {
    Result(Masked(r, size), FlagsLogic(f, Masked(r, size), size))
  }

  /** One bit out of two: OR, AND, otherwise XOR. */
  function Joint(op: nat, a: nat, b: nat): (r: nat)
    requires a < 2 && b < 2
    ensures r < 2
  {
    match op
    case 1 => if a == 1 || b == 1 then 1 else 0
    case 4 => if a == 1 && b == 1 then 1 else 0
    case _ => if a != b then 1 else 0
  }

  /** The bitwise operations, the lowest bit first. */
  function Bits(op: nat, x: nat, y: nat): nat
    decreases x + y
  {
    if x == 0 && y == 0 then 0 else 2 * Bits(op, x / 2, y / 2) + Joint(op, x % 2, y % 2)
  }

  /** alu(): 0 ADD, 1 OR, 2 ADC, 3 SBB, 4 AND, 5 SUB, 7 CMP, otherwise XOR. */
  function Operate(op: nat, f: Flags, x: u64, y: u64, size: nat): Result
    requires SizeOk(size)
  {
    match op
    case 0 => Add(f, x, y, 0, size)
    case 2 => Add(f, x, y, Count(f.cf), size)
    case 3 => Sub(f, x, y, Count(f.cf), size)
    case 5 => Sub(f, x, y, 0, size)
    case 7 => Sub(f, x, y, 0, size)
    case _ => Logic(f, Bits(op, x, y), size)
  }

  /** cond(): the sixteen condition codes. */
  predicate Cond(cc: nat, f: Flags)
  {
    match cc % 16
    case 0 => f.of
    case 1 => !f.of
    case 2 => f.cf
    case 3 => !f.cf
    case 4 => f.zf
    case 5 => !f.zf
    case 6 => f.cf || f.zf
    case 7 => !f.cf && !f.zf
    case 8 => f.sf
    case 9 => !f.sf
    case 10 => f.pf
    case 11 => !f.pf
    case 12 => f.sf != f.of
    case 13 => f.sf == f.of
    case 14 => f.zf || f.sf != f.of
    case _ => !f.zf && f.sf == f.of
  }

  // ---- one operation --------------------------------------------------------------------------

  /** Masking a sum of two operands, or a difference, wraps at most once. */
  lemma MaskOnce(x: int, size: nat)
    requires SizeOk(size) && 0 - Mod(size) <= x < 2 * Mod(size)
    ensures Masked(x, size) == if x < 0 then x + Mod(size) else if x < Mod(size) then x else x - Mod(size)
    ensures x >= 0 ==> (x / Mod(size) != 0 <==> x >= Mod(size))
  {
    if size == 1 {
    } else if size == 2 {
    } else if size == 4 {
    } else {
    }
  }

  lemma MaskBelow(x: nat, size: nat)
    requires SizeOk(size) && x < Mod(size)
    ensures Masked(x, size) == x
  {
  }

  /** Addition loses nothing: the result and the carry flag together are the sum. */
  lemma AddExact(f: Flags, x: nat, y: nat, carry: nat, size: nat)
    requires SizeOk(size) && x < Mod(size) && y < Mod(size) && carry <= 1
    ensures var s := Add(f, x, y, carry, size);
            && s.r < Mod(size) && s.r + Carried(s.f.cf, Mod(size)) == x + y + carry
            && (s.f.of <==> !(0 - Mod(size) / 2 <= Signed(x, size) + Signed(y, size) + carry < Mod(size) / 2))
            && (s.f.zf <==> s.r == 0) && (s.f.sf <==> Signed(s.r, size) < 0)
  {
    hide Mod, Masked, EvenParity, Bit;
    MaskOnce(x, size);
    MaskOnce(y, size);
    MaskOnce(x + y + carry, size);
  }

  /** Subtraction loses nothing: the result less the borrow is the difference. */
  lemma SubExact(f: Flags, x: nat, y: nat, borrow: nat, size: nat)
    requires SizeOk(size) && x < Mod(size) && y < Mod(size) && borrow <= 1
    ensures var s := Sub(f, x, y, borrow, size);
            && s.r < Mod(size) && s.r - Carried(s.f.cf, Mod(size)) == x - y - borrow
            && (s.f.cf <==> x < y + borrow) && (s.f.sf != s.f.of <==> Signed(x, size) - Signed(y, size) - borrow < 0)
            && (s.f.of <==> !(0 - Mod(size) / 2 <= Signed(x, size) - Signed(y, size) - borrow < Mod(size) / 2))
            && (s.f.zf <==> s.r == 0) && (s.f.sf <==> Signed(s.r, size) < 0)
  {
    hide Mod, Masked, EvenParity, Bit;
    MaskOnce(x, size);
    MaskOnce(y, size);
    MaskOnce(x - y - borrow, size);
  }

  /** How many of the lowest n bits are ones. */
  function Ones(x: nat, n: nat): nat { if n == 0 then 0 else x % 2 + Ones(x / 2, n - 1) }

  /** What OR, AND and XOR make of each bit. */
  ghost predicate BitsMeant(op: nat, x: nat, y: nat, n: nat, r: nat)
  {
    forall i: nat | i < n ::
      r / W.Pow2(i) % 2 == 1 <==>
        (if op == 1 then x / W.Pow2(i) % 2 == 1 || y / W.Pow2(i) % 2 == 1
         else if op == 4 then x / W.Pow2(i) % 2 == 1 && y / W.Pow2(i) % 2 == 1
         else x / W.Pow2(i) % 2 != y / W.Pow2(i) % 2)
  }

  /**
    What alu() promises of operands in range: the sum or the difference with its carry or borrow
    in CF, the half carry in AF, every bit of a bitwise operation with its carries clear, and in
    PF whether the low byte has an even number of ones.
    */
  ghost predicate Meant(op: nat, f: Flags, x: u64, y: u64, size: nat, s: Result)
    requires SizeOk(size)
  {
    && s.r < Mod(size) && (s.f.zf <==> s.r == 0) && (s.f.sf <==> Signed(s.r, size) < 0) && s.f.df == f.df
    && (s.f.pf <==> Ones(s.r, 8) % 2 == 0)
    && (op == 0 || op == 2 ==> (s.f.af <==> x % 16 + y % 16 + (if op == 2 then Count(f.cf) else 0) >= 16))
    && (op == 3 || op == 5 || op == 7 ==> (s.f.af <==> x % 16 < y % 16 + if op == 3 then Count(f.cf) else 0))
    && (op == 1 || op == 4 || op == 6 ==> !s.f.af && BitsMeant(op, x, y, 8 * size, s.r))
    && (op == 0 || op == 2 ==> s.r + Carried(s.f.cf, Mod(size)) == x + y + if op == 2 then Count(f.cf) else 0)
    && (op == 3 || op == 5 || op == 7 ==>
        s.r - Carried(s.f.cf, Mod(size)) == x - y - if op == 3 then Count(f.cf) else 0)
    && (op == 1 || op == 4 || op == 6 ==> !s.f.cf && !s.f.of)
  }

  lemma OperateMeans(op: nat, f: Flags, x: u64, y: u64, size: nat)
    requires SizeOk(size) && x < Mod(size) && y < Mod(size)
    ensures Meant(op, f, x, y, size, Operate(op, f, x, y, size))
  {
    hide Mod, Masked, Add, Sub, Logic, SizeOk, Bits, Signed, Ones, BitsMeant;
    match op
    case 0 => AddExact(f, x, y, 0, size); AddKeeps(f, x, y, 0, size);
    case 2 => AddExact(f, x, y, Count(f.cf), size); AddKeeps(f, x, y, Count(f.cf), size);
    case 3 => SubExact(f, x, y, Count(f.cf), size); SubKeeps(f, x, y, Count(f.cf), size);
    case 5 => SubExact(f, x, y, 0, size); SubKeeps(f, x, y, 0, size);
    case 7 => SubExact(f, x, y, 0, size); SubKeeps(f, x, y, 0, size);
    case _ => LogicMeans(f, Bits(op, x, y), size); BitsExact(op, f, x, y, size);
  }

  lemma OverHalf(x: nat, p: nat)
    requires p > 0
    ensures x / (2 * p) == x / p / 2
  {
    var q, r := x / p, x % p;
    assert x == 2 * p * (q / 2) + (p * (q % 2) + r);
    assert q % 2 == 0 || q % 2 == 1;
    W.DivIs(x, 2 * p, q / 2, p * (q % 2) + r);
  }

  lemma OnesFrom(x: nat, p: nat, a: nat, b: nat, n: nat)
    requires p > 0 && a == x / p && b == x / (2 * p)
    ensures Ones(a, n + 1) == Count(Bit(x, p)) + Ones(b, n)
  {
    OverHalf(x, p);
  }

  lemma ParityIs(x: nat)
    ensures EvenParity(x) <==> Ones(x, 8) % 2 == 0
  {
    hide Ones, Bit;
    OnesFrom(x, 1, x / 1, x / 2, 7);
    OnesFrom(x, 2, x / 2, x / 4, 6);
    OnesFrom(x, 4, x / 4, x / 8, 5);
    OnesFrom(x, 8, x / 8, x / 16, 4);
    OnesFrom(x, 16, x / 16, x / 32, 3);
    OnesFrom(x, 32, x / 32, x / 64, 2);
    OnesFrom(x, 64, x / 64, x / 128, 1);
    OnesFrom(x, 128, x / 128, x / 256, 0);
    NoOnes(x / 256);
  }

  lemma NoOnes(x: nat)
    ensures Ones(x, 0) == 0
  {
  }

  /** The carry into bit 4 of a sum is a carry out of the low four bits. */
  lemma HalfCarry(a: nat, b: nat, carry: nat, r: nat, k: int)
    requires carry <= 1 && a + b + carry == r + 32 * k
    ensures ((Bit(a, 16) != Bit(b, 16)) != Bit(r, 16)) <==> a % 16 + b % 16 + carry >= 16
  {
  }

  lemma WholeSteps(x: int, size: nat) returns (k: int)
    requires SizeOk(size)
    ensures x == Masked(x, size) + 32 * k
  {
    var q := x / Mod(size);
    k := q * (Mod(size) / 32);
    if size == 1 {
    } else if size == 2 {
    } else if size == 4 {
    } else {
    }
  }

  lemma AddKeeps(f: Flags, x: nat, y: nat, carry: nat, size: nat)
    requires SizeOk(size) && x < Mod(size) && y < Mod(size) && carry <= 1
    ensures var s := Add(f, x, y, carry, size);
            && s.f.df == f.df && (s.f.pf <==> Ones(s.r, 8) % 2 == 0)
            && (s.f.af <==> x % 16 + y % 16 + carry >= 16)
  {
    hide Mod, Masked, EvenParity, Bit, Ones;
    MaskBelow(x, size);
    MaskBelow(y, size);
    var k := WholeSteps(x + y + carry, size);
    HalfCarry(x, y, carry, Masked(x + y + carry, size), k);
    ParityIs(Masked(x + y + carry, size));
  }

  lemma SubKeeps(f: Flags, x: nat, y: nat, borrow: nat, size: nat)
    requires SizeOk(size) && x < Mod(size) && y < Mod(size) && borrow <= 1
    ensures var s := Sub(f, x, y, borrow, size);
            && s.f.df == f.df && (s.f.pf <==> Ones(s.r, 8) % 2 == 0) && (s.f.af <==> x % 16 < y % 16 + borrow)
  {
    hide Mod, Masked, EvenParity, Bit, Ones;
    MaskBelow(x, size);
    MaskBelow(y, size);
    var k := WholeSteps(x - y - borrow, size);
    HalfBorrow(x, y, borrow, Masked(x - y - borrow, size), k);
    ParityIs(Masked(x - y - borrow, size));
  }

  lemma HalfBorrow(a: nat, b: nat, borrow: nat, r: nat, k: int)
    requires borrow <= 1 && a - b - borrow == r + 32 * k
    ensures ((Bit(a, 16) != Bit(b, 16)) != Bit(r, 16)) <==> a % 16 < b % 16 + borrow
  {
  }

  lemma LogicMeans(f: Flags, r: nat, size: nat)
    requires SizeOk(size)
    ensures var s := Logic(f, r, size);
            && s.r == Masked(r, size) < Mod(size) && !s.f.cf && !s.f.of && !s.f.af && s.f.df == f.df
            && (s.f.zf <==> s.r == 0) && (s.f.sf <==> Signed(s.r, size) < 0) && (s.f.pf <==> Ones(s.r, 8) % 2 == 0)
  {
    hide EvenParity, Ones;
    ParityIs(Masked(r, size));
  }

  // ---- the bits of OR, AND and XOR ------------------------------------------------------------

  lemma HalfOver(v: nat, p: nat)
    requires p > 0
    ensures v / (2 * p) == v / 2 / p
  {
    var q, r := v / (2 * p), v % (2 * p);
    assert 2 * p * q == 2 * (p * q);
    W.DivIs(v / 2, p, q, r / 2);
  }

  lemma BitAbove(v: nat, i: nat)
    ensures v / W.Pow2(i + 1) == v / 2 / W.Pow2(i)
  {
    W.Pow2Step(i);
    HalfOver(v, W.Pow2(i));
  }

  lemma {:induction false} BitsAre(op: nat, x: nat, y: nat, i: nat)
    ensures Bits(op, x, y) / W.Pow2(i) % 2 == Joint(op, x / W.Pow2(i) % 2, y / W.Pow2(i) % 2)
  {
    var r := Bits(op, x, y);
    assert r % 2 == Joint(op, x % 2, y % 2) && r / 2 == Bits(op, x / 2, y / 2);
    if i == 0 {
      assert W.Pow2(0) == 1;
    } else {
      hide W.Pow2;
      BitsAre(op, x / 2, y / 2, i - 1);
      BitAbove(x, i - 1);
      BitAbove(y, i - 1);
      BitAbove(r, i - 1);
    }
  }

  lemma {:induction false} BitsBound(op: nat, x: nat, y: nat, n: nat)
    requires x < W.Pow2(n) && y < W.Pow2(n)
    ensures Bits(op, x, y) < W.Pow2(n)
  {
    if n > 0 && (x > 0 || y > 0) {
      BitsBound(op, x / 2, y / 2, n - 1);
    }
  }

  lemma BitsExact(op: nat, f: Flags, x: nat, y: nat, size: nat)
    requires SizeOk(size) && x < Mod(size) && y < Mod(size)
    ensures var s := Logic(f, Bits(op, x, y), size); BitsMeant(op, x, y, 8 * size, s.r)
  {
    hide Bits, Joint, W.Pow2;
    W.Pow64();
    BitsBound(op, x, y, 8 * size);
    MaskBelow(Bits(op, x, y), size);
    forall i: nat | i < 8 * size
      ensures Bits(op, x, y) / W.Pow2(i) % 2 == Joint(op, x / W.Pow2(i) % 2, y / W.Pow2(i) % 2)
    {
      BitsAre(op, x, y, i);
    }
    JointIs(op);
  }

  lemma JointIs(op: nat)
    ensures forall a, b | 0 <= a < 2 && 0 <= b < 2 ::
              Joint(op, a, b) == 1 <==>
                (if op == 1 then a == 1 || b == 1 else if op == 4 then a == 1 && b == 1 else a != b)
  {
  }

  /** After CMP, every condition code decides the comparison it is named for. */
  lemma CmpDecides(f: Flags, x: u64, y: u64, size: nat)
    requires SizeOk(size) && x < Mod(size) && y < Mod(size)
    ensures var g := Operate(7, f, x, y, size).f;
            && (Cond(0x2, g) <==> x < y) && (Cond(0x3, g) <==> x >= y)
            && (Cond(0x4, g) <==> x == y) && (Cond(0x5, g) <==> x != y)
            && (Cond(0x6, g) <==> x <= y) && (Cond(0x7, g) <==> x > y)
            && (Cond(0xC, g) <==> Signed(x, size) < Signed(y, size))
            && (Cond(0xD, g) <==> Signed(x, size) >= Signed(y, size))
            && (Cond(0xE, g) <==> Signed(x, size) <= Signed(y, size))
            && (Cond(0xF, g) <==> Signed(x, size) > Signed(y, size))
            && (Cond(0x0, g) <==> !(0 - Mod(size) / 2 <= Signed(x, size) - Signed(y, size) < Mod(size) / 2))
            && (Cond(0x1, g) <==> 0 - Mod(size) / 2 <= Signed(x, size) - Signed(y, size) < Mod(size) / 2)
            && g.df == f.df
  {
    hide EvenParity, Sub, Mod, Signed, SizeOk, Masked, Cond;
    SubExact(f, x, y, 0, size);
    CmpKeeps(f, x, y, size);
    SignedSame(x, y, size);
    CodesRead(Operate(7, f, x, y, size).f, x, y, Signed(x, size), Signed(y, size));
  }

  /** The condition codes, from what the four flags they read mean. */
  lemma CodesRead(g: Flags, x: int, y: int, sx: int, sy: int)
    requires (g.cf <==> x < y) && (g.zf <==> x == y) && (g.sf != g.of <==> sx < sy) && (sx == sy <==> x == y)
    ensures (Cond(0x2, g) <==> x < y) && (Cond(0x3, g) <==> x >= y)
    ensures (Cond(0x4, g) <==> x == y) && (Cond(0x5, g) <==> x != y)
    ensures (Cond(0x6, g) <==> x <= y) && (Cond(0x7, g) <==> x > y)
    ensures (Cond(0xC, g) <==> sx < sy) && (Cond(0xD, g) <==> sx >= sy)
    ensures (Cond(0xE, g) <==> sx <= sy) && (Cond(0xF, g) <==> sx > sy)
    ensures (Cond(0x0, g) <==> g.of) && (Cond(0x1, g) <==> !g.of)
  {
  }

  /** The codes that name the result rather than a comparison: its sign, and the parity of its low byte. */
  lemma ResultDecides(op: nat, f: Flags, x: u64, y: u64, size: nat)
    requires SizeOk(size) && x < Mod(size) && y < Mod(size)
    ensures var s := Operate(op, f, x, y, size);
            && (Cond(0x8, s.f) <==> Signed(s.r, size) < 0) && (Cond(0x9, s.f) <==> Signed(s.r, size) >= 0)
            && (Cond(0xA, s.f) <==> Ones(s.r, 8) % 2 == 0) && (Cond(0xB, s.f) <==> Ones(s.r, 8) % 2 == 1)
            && (Cond(0x4, s.f) <==> s.r == 0) && (Cond(0x5, s.f) <==> s.r != 0)
  {
    hide Operate, BitsMeant, Signed, Mod, Ones;
    OperateMeans(op, f, x, y, size);
  }

  /** Only the low four bits of a condition code are read. */
  lemma CodeWraps(cc: nat, g: Flags)
    ensures Cond(cc + 16, g) <==> Cond(cc, g)
  {
  }

  lemma SignedSame(x: nat, y: nat, size: nat)
    requires SizeOk(size) && x < Mod(size) && y < Mod(size)
    ensures Signed(x, size) == Signed(y, size) <==> x == y
    ensures Sub(Flags(false, false, false, false, false, false, false), x, y, 0, size).r == 0 <==> x == y
  {
    hide Mod, Masked;
    MaskOnce(x, size);
    MaskOnce(y, size);
    MaskOnce(x - y, size);
  }

  lemma CmpKeeps(f: Flags, x: nat, y: nat, size: nat)
    requires SizeOk(size)
    ensures Sub(f, x, y, 0, size).f.df == f.df
    ensures Sub(f, x, y, 0, size).r == Sub(Flags(false, false, false, false, false, false, false), x, y, 0, size).r
  {
  }

  // ---- many limbs -----------------------------------------------------------------------------

  /** The number a list of limbs spells, least significant first. */
  function Number(xs: seq<u64>, m: nat): nat
  {
    if xs == [] then 0 else xs[0] + m * Number(xs[1..], m)
  }

  function PowM(m: nat, n: nat): nat { if n == 0 then 1 else m * PowM(m, n - 1) }

  predicate Limbs(xs: seq<u64>, size: nat)
    requires SizeOk(size)
  {
    forall i | 0 <= i < |xs| :: xs[i] < Mod(size)
  }

  datatype Chain = Chain(limbs: seq<u64>, f: Flags)

  /** ADC (op 2) or SBB (op 3) down two lists of limbs, each taking the carry of the one before. */
  function Rest(op: nat, f: Flags, xs: seq<u64>, ys: seq<u64>, size: nat): (c: Chain)
    requires SizeOk(size) && |xs| == |ys| && Limbs(xs, size) && Limbs(ys, size) && (op == 2 || op == 3)
    ensures |c.limbs| == |xs|
    decreases |xs|
  {
    if xs == [] then Chain([], f)
    else
      var s := Operate(op, f, xs[0], ys[0], size);
      var c := Rest(op, s.f, xs[1..], ys[1..], size);
      Chain([s.r] + c.limbs, c.f)
  }

  /** A whole chain: a plain ADD (op 2) or SUB (op 3) of the first limbs, then the rest. */
  function Whole(op: nat, f: Flags, xs: seq<u64>, ys: seq<u64>, size: nat): (c: Chain)
    requires SizeOk(size) && |xs| == |ys| > 0 && Limbs(xs, size) && Limbs(ys, size) && (op == 2 || op == 3)
    ensures |c.limbs| == |xs|
  {
    var s := Operate(if op == 2 then 0 else 5, f, xs[0], ys[0], size);
    var c := Rest(op, s.f, xs[1..], ys[1..], size);
    Chain([s.r] + c.limbs, c.f)
  }

  lemma NumberCons(x: u64, xs: seq<u64>, m: nat)
    ensures Number([x] + xs, m) == x + m * Number(xs, m)
  {
    assert ([x] + xs)[1..] == xs;
  }

  lemma RestStep(op: nat, f: Flags, xs: seq<u64>, ys: seq<u64>, size: nat)
    requires SizeOk(size) && |xs| == |ys| > 0 && Limbs(xs, size) && Limbs(ys, size) && (op == 2 || op == 3)
    ensures Limbs(xs[1..], size) && Limbs(ys[1..], size) && xs[0] < Mod(size) && ys[0] < Mod(size)
    ensures var s := if op == 2 then Add(f, xs[0], ys[0], Count(f.cf), size)
              else Sub(f, xs[0], ys[0], Count(f.cf), size);
            var c := Rest(op, s.f, xs[1..], ys[1..], size);
            Rest(op, f, xs, ys, size) == Chain([s.r] + c.limbs, c.f)
  {
    hide Add, Sub, Mod, Logic, Bits;
  }

  lemma NumberStep(xs: seq<u64>, m: nat)
    requires xs != []
    ensures Number(xs, m) == xs[0] + m * Number(xs[1..], m) && PowM(m, |xs|) == m * PowM(m, |xs| - 1)
  {
  }

  lemma NoLimbs(op: nat, f: Flags, xs: seq<u64>, ys: seq<u64>, size: nat)
    requires SizeOk(size) && xs == ys == [] && (op == 2 || op == 3)
    ensures Rest(op, f, xs, ys, size) == Chain([], f) && Number([], Mod(size)) == 0
            && Carried(f.cf, PowM(Mod(size), 0)) == Count(f.cf)
  {
  }

  lemma {:induction false} RestAdds(f: Flags, xs: seq<u64>, ys: seq<u64>, size: nat)
    requires SizeOk(size) && |xs| == |ys| && Limbs(xs, size) && Limbs(ys, size)
    ensures var c := Rest(2, f, xs, ys, size);
            Number(c.limbs, Mod(size)) + Carried(c.f.cf, PowM(Mod(size), |xs|)) ==
              Number(xs, Mod(size)) + Number(ys, Mod(size)) + Count(f.cf)
    decreases |xs|
  {
    hide Add, Sub, Mod, Number, PowM, Rest, Limbs, Carried, Count;
    if xs == [] {
      NoLimbs(2, f, xs, ys, size);
    } else {
      RestStep(2, f, xs, ys, size);
      CountBit(f.cf);
      AddExact(f, xs[0], ys[0], Count(f.cf), size);
      var s, m := Add(f, xs[0], ys[0], Count(f.cf), size), Mod(size);
      RestAdds(s.f, xs[1..], ys[1..], size);
      var c := Rest(2, s.f, xs[1..], ys[1..], size);
      NumberCons(s.r, c.limbs, m);
      NumberStep(xs, m);
      NumberStep(ys, m);
      AddColumn(m, s.r, s.f.cf, Number(c.limbs, m), c.f.cf, PowM(m, |xs| - 1), xs[0], ys[0], Count(f.cf),
                Number(xs[1..], m), Number(ys[1..], m));
    }
  }

  lemma CountBit(b: bool)
    ensures Count(b) <= 1
  {
  }

  lemma AddColumn(m: nat, r: nat, carry: bool, rest: nat, out: bool, p: nat, x: nat, y: nat, cin: nat, xs: nat, ys: nat)
    requires r + Carried(carry, m) == x + y + cin && rest + Carried(out, p) == xs + ys + Count(carry)
    ensures r + m * rest + Carried(out, m * p) == x + m * xs + (y + m * ys) + cin
  {
    assert m * (rest + Carried(out, p)) == m * rest + m * Carried(out, p);
    assert m * Carried(out, p) == Carried(out, m * p);
    assert m * (xs + ys + Count(carry)) == m * xs + m * ys + m * Count(carry);
    assert m * Count(carry) == Carried(carry, m);
  }

  /** ADD then ADC over n limbs is addition of the numbers, with CF the carry out. */
  lemma AddChain(f: Flags, xs: seq<u64>, ys: seq<u64>, size: nat)
    requires SizeOk(size) && |xs| == |ys| > 0 && Limbs(xs, size) && Limbs(ys, size)
    ensures var c := Whole(2, f, xs, ys, size);
            Number(c.limbs, Mod(size)) + Carried(c.f.cf, PowM(Mod(size), |xs|)) ==
              Number(xs, Mod(size)) + Number(ys, Mod(size))
  {
    hide Mod, PowM, Add, Number;
    RestAdds(f.(cf := false), xs, ys, size);
    WholeIs(f, xs, ys, size);
  }

  /** Only the carry of the flags going in matters to what comes out. */
  lemma FlagsIgnored(f: Flags, g: Flags, x: nat, y: nat, size: nat)
    requires SizeOk(size) && f.df == g.df
    ensures Add(f, x, y, 0, size) == Add(g, x, y, 0, size) && Sub(f, x, y, 0, size) == Sub(g, x, y, 0, size)
  {
  }

  lemma {:induction false} RestSubtracts(f: Flags, xs: seq<u64>, ys: seq<u64>, size: nat)
    requires SizeOk(size) && |xs| == |ys| && Limbs(xs, size) && Limbs(ys, size)
    ensures var c := Rest(3, f, xs, ys, size);
            Number(c.limbs, Mod(size)) - Carried(c.f.cf, PowM(Mod(size), |xs|)) ==
              Number(xs, Mod(size)) - Number(ys, Mod(size)) - Count(f.cf)
    decreases |xs|
  {
    hide Add, Sub, Mod, Number, PowM, Rest, Limbs, Carried, Count;
    if xs == [] {
      NoLimbs(3, f, xs, ys, size);
    } else {
      RestStep(3, f, xs, ys, size);
      CountBit(f.cf);
      SubExact(f, xs[0], ys[0], Count(f.cf), size);
      var s, m := Sub(f, xs[0], ys[0], Count(f.cf), size), Mod(size);
      RestSubtracts(s.f, xs[1..], ys[1..], size);
      var c := Rest(3, s.f, xs[1..], ys[1..], size);
      NumberCons(s.r, c.limbs, m);
      NumberStep(xs, m);
      NumberStep(ys, m);
      SubColumn(m, s.r, s.f.cf, Number(c.limbs, m), c.f.cf, PowM(m, |xs| - 1), xs[0], ys[0], Count(f.cf),
                Number(xs[1..], m), Number(ys[1..], m));
    }
  }

  lemma SubColumn(m: nat, r: nat, carry: bool, rest: nat, out: bool, p: nat, x: nat, y: nat, cin: nat, xs: nat, ys: nat)
    requires r - Carried(carry, m) == x - y - cin && rest - Carried(out, p) == xs - ys - Count(carry)
    ensures r + m * rest - Carried(out, m * p) == x + m * xs - (y + m * ys) - cin
  {
    assert m * (rest - Carried(out, p)) == m * rest - m * Carried(out, p);
    assert m * Carried(out, p) == Carried(out, m * p);
    assert m * (xs - ys - Count(carry)) == m * xs - m * ys - m * Count(carry);
    assert m * Count(carry) == Carried(carry, m);
  }

  lemma {:induction false} NumberBound(xs: seq<u64>, size: nat)
    requires SizeOk(size) && Limbs(xs, size)
    ensures Number(xs, Mod(size)) < PowM(Mod(size), |xs|)
  {
    if xs != [] {
      NumberBound(xs[1..], size);
      var m, n, p := Mod(size), Number(xs[1..], Mod(size)), PowM(Mod(size), |xs| - 1);
      hide Mod;
      assert m * (n + 1) <= m * p;
    }
  }

  /** SUB then SBB over n limbs is subtraction, with CF set exactly when the first number is smaller. */
  lemma SubChain(f: Flags, xs: seq<u64>, ys: seq<u64>, size: nat)
    requires SizeOk(size) && |xs| == |ys| > 0 && Limbs(xs, size) && Limbs(ys, size)
    ensures var c := Whole(3, f, xs, ys, size);
            && Number(c.limbs, Mod(size)) - Carried(c.f.cf, PowM(Mod(size), |xs|)) ==
                 Number(xs, Mod(size)) - Number(ys, Mod(size))
            && (c.f.cf <==> Number(xs, Mod(size)) < Number(ys, Mod(size)))
  {
    hide Mod, PowM, Sub, Number;
    RestSubtracts(f.(cf := false), xs, ys, size);
    WholeIs(f, xs, ys, size);
    var c := Whole(3, f, xs, ys, size);
    RestLimbs(3, f.(cf := false), xs, ys, size);
    NumberBound(c.limbs, size);
    if c.f.cf {
      assert Carried(c.f.cf, PowM(Mod(size), |xs|)) == PowM(Mod(size), |xs|);
    } else {
      assert Carried(c.f.cf, PowM(Mod(size), |xs|)) == 0;
    }
  }

  lemma WholeIs(f: Flags, xs: seq<u64>, ys: seq<u64>, size: nat)
    requires SizeOk(size) && |xs| == |ys| > 0 && Limbs(xs, size) && Limbs(ys, size)
    ensures Whole(3, f, xs, ys, size) == Rest(3, f.(cf := false), xs, ys, size)
    ensures Whole(2, f, xs, ys, size) == Rest(2, f.(cf := false), xs, ys, size)
  {
    FlagsIgnored(f, f.(cf := false), xs[0], ys[0], size);
  }

  lemma {:induction false} RestLimbs(op: nat, f: Flags, xs: seq<u64>, ys: seq<u64>, size: nat)
    requires SizeOk(size) && |xs| == |ys| && Limbs(xs, size) && Limbs(ys, size) && (op == 2 || op == 3)
    ensures Limbs(Rest(op, f, xs, ys, size).limbs, size)
    decreases |xs|
  {
    hide FlagsAdd, FlagsSub, Mod;
    if xs != [] {
      var s := if op == 2 then Add(f, xs[0], ys[0], Count(f.cf), size) else Sub(f, xs[0], ys[0], Count(f.cf), size);
      RestLimbs(op, s.f, xs[1..], ys[1..], size);
    }
  }
}
