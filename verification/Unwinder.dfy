/**
  virtual_unwind: one frame's prologue run backwards.  The functions say what the unwind data
  in guest memory means, code by code; the method is the loop the emulator runs, over a
  context it updates in place.
  */
module Unwinder {
  import opened Bytes
  import opened Wrappers

  /** What the guest's memory holds where it is mapped. */
  type Mem = map<nat, byte>

  const RSP: nat := 4

  /** The sixteen integer registers, and then the low and high halves of the sixteen XMM registers. */
  type Regs = r: seq<u64> | |r| == 48 witness seq(48, i => 0)

  /** Where the low half of an XMM register is kept. */
  function Xmm(r: nat): nat { 16 + 2 * r }

  /** The sixteen XMM registers follow the integer ones, and none shares a half with another. */
  lemma XmmApart(r: nat, s: nat)
    requires r < s < 16
    ensures Xmm(0) == 16 && Xmm(r) + 1 < Xmm(s) && Xmm(s) + 1 < 48
  {
  }

  datatype Ctx = Ctx(regs: Regs, rip: u64)

  /** 64-bit wrap-around. */
  function W(x: int): u64 { x % 0x1_0000_0000_0000_0000 }

  // ---- reading guest memory -----------------------------------------------------------------

  predicate Present(m: Mem, a: nat, n: nat) { forall i | a <= i < a + n :: i in m }

  function Slice(m: Mem, a: nat, n: nat): (s: seq<byte>)
    requires Present(m, a, n)
    ensures |s| == n
  {
    seq<byte>(n, i requires 0 <= i < n => m[a + i])
  }

  function Read(m: Mem, a: nat, n: nat): Option<nat>
  {
    if Present(m, a, n) then Some(FromLE(Slice(m, a, n))) else None
  }

  function Read64(m: Mem, a: nat): (r: Option<u64>)
  {
    if Present(m, a, 8) then
      FromLEBound(Slice(m, a, 8));
      Pow256Values();
      Some(FromLE(Slice(m, a, 8)))
    else None
  }

  // ---- one unwind code ----------------------------------------------------------------------

  /** The fields of UNWIND_INFO that the codes refer to. */
  datatype FrameInfo = FrameInfo(reg: nat, off: nat)

  function GetFrame(c: Ctx, f: FrameInfo): u64
    requires f.reg < 16
  {
    W(c.regs[f.reg] - f.off * 16)
  }

  function SetReg(c: Ctx, r: nat, v: u64): Ctx
    requires r < 48
  {
    c.(regs := c.regs[r := v])
  }

  function Rsp(c: Ctx): u64 { c.regs[RSP] }

  function AddRsp(c: Ctx, n: nat): Ctx { SetReg(c, RSP, W(Rsp(c) + n)) }

  /** UWOP_PUSH_NONVOL undone. */
  function Pop(m: Mem, c: Ctx, r: nat): Option<Ctx>
    requires r < 16
  {
    var sp := Rsp(c);
    var v :- Read64(m, sp);
    Some(SetReg(SetReg(c, r, v), RSP, W(sp + 8)))
  }

  /** UWOP_SAVE_NONVOL undone. */
  function Restore(m: Mem, c: Ctx, r: nat, at: u64): Option<Ctx>
    requires r < 48
  {
    var v :- Read64(m, at);
    Some(SetReg(c, r, v))
  }

  /** UWOP_SAVE_XMM128 undone: both halves. */
  function RestoreXmm(m: Mem, c: Ctx, r: nat, at: u64): Option<Ctx>
    requires r < 16
  {
    var c' :- Restore(m, c, Xmm(r), at);
    Restore(m, c', Xmm(r) + 1, W(at + 8))
  }

  /** UWOP_PUSH_MACHFRAME undone. */
  function MachFrame(m: Mem, c: Ctx, errorCode: bool): Option<Ctx>
  {
    var sp := W(Rsp(c) + if errorCode then 8 else 0);
    var ip :- Read64(m, sp);
    var rsp :- Read64(m, W(sp + 24));
    Some(SetReg(c.(rip := ip), RSP, rsp))
  }

  /** How many 16-bit slots a code takes. */
  function SlotsOf(op: nat, info: nat): (n: nat)
    ensures 1 <= n <= 3
  {
    match op
    case 1 => if info == 0 then 2 else 3
    case 4 => 2
    case 5 => 3
    case 6 => 2
    case 7 => 3
    case 8 => 2
    case 9 => 3
    case _ => 1
  }

  /** The code in slot i, undone if it applies; its operand is read either way. */
  function UndoSlot(m: Mem, code: nat, applies: bool, base: u64, f: FrameInfo, c: Ctx): Option<Ctx>
    requires f.reg < 16
  {
    var b :- Read(m, code + 1, 1);
    var op, info := b % 16, b / 16 % 16;
    match op
    case 0 => if applies then Pop(m, c, info) else Some(c)
    case 1 =>
      if info == 0 then
        var n :- Read(m, code + 2, 2);
        Some(if applies then AddRsp(c, n * 8) else c)
      else
        var n :- Read(m, code + 2, 4);
        Some(if applies then AddRsp(c, n) else c)
    case 2 => Some(if applies then AddRsp(c, (info + 1) * 8) else c)
    case 3 => Some(if applies then SetReg(c, RSP, GetFrame(c, f)) else c)
    case 4 =>
      var n :- Read(m, code + 2, 2);
      if applies then Restore(m, c, info, W(base + n * 8)) else Some(c)
    case 5 =>
      var n :- Read(m, code + 2, 4);
      if applies then Restore(m, c, info, W(base + n)) else Some(c)
    case 8 =>
      var n :- Read(m, code + 2, 2);
      if applies then RestoreXmm(m, c, info, W(base + n * 16)) else Some(c)
    case 9 =>
      var n :- Read(m, code + 2, 4);
      if applies then RestoreXmm(m, c, info, W(base + n)) else Some(c)
    case 10 => if applies then MachFrame(m, c, info != 0) else Some(c)
    case _ => Some(c)
  }

  /**
    The codes no prologue of the documented shape has.  A machine frame holds the interrupted
    instruction and stack pointer, above an error code if there is one; the description of an
    epilogue and the spare code undo nothing but take two and three slots; others take one.
    */
  lemma OtherCodes(m: Mem, code: nat, applies: bool, base: u64, f: FrameInfo, c: Ctx, b: nat)
    requires f.reg < 16 && Read(m, code + 1, 1) == Some(b)
    ensures var at := (c.regs[4] as int + if b / 16 % 16 != 0 then 8 else 0) % 0x1_0000_0000_0000_0000;
            var ip, sp := Read64(m, at), Read64(m, (at as int + 24) % 0x1_0000_0000_0000_0000);
            b % 16 == 10 ==>
              UndoSlot(m, code, applies, base, f, c) ==
                if !applies then Some(c) else if ip.None? || sp.None? then None
                else Some(Ctx(c.regs[4 := sp.value], ip.value))
    ensures b % 16 == 6 || b % 16 == 7 || b % 16 > 10 ==> UndoSlot(m, code, applies, base, f, c) == Some(c)
    ensures SlotsOf(6, b / 16 % 16) == 2 && SlotsOf(7, b / 16 % 16) == 3
    ensures b % 16 >= 10 ==> SlotsOf(b % 16, b / 16 % 16) == 1
  {
    hide Read, Read64;
  }

  /** The codes from slot i on; `limit` is how far into the prologue execution had got, when it
      had not got past it. */
  function UndoFrom(m: Mem, codes: nat, i: nat, count: nat, past: bool, limit: nat, base: u64, f: FrameInfo,
                    c: Ctx): Option<Ctx>
    requires f.reg < 16
    decreases count - i
  {
    if i >= count then Some(c)
    else
      var at :- Read(m, codes + i * 2, 1);
      var b :- Read(m, codes + i * 2 + 1, 1);
      var c' :- UndoSlot(m, codes + i * 2, past || at <= limit, base, f, c);
      UndoFrom(m, codes, i + SlotsOf(b % 16, b / 16 % 16), count, past, limit, base, f, c')
  }

  // ---- a whole function, with its chained parents ---------------------------------------------

  datatype Unwound = Unwound(c: Ctx, handler: u64, handlerData: u64, establisher: u64)

  /** The slot count rounded up to an even number. */
  function Even(n: nat): nat { (n + 1) / 2 * 2 }

  /** What follows a fragment: its chained parent, or the handler of the function it completes. */
  datatype Next = Chained(info: u64, start: u64) | Complete(handler: u64, handlerData: u64)

  datatype Fragment = Fragment(c: Ctx, base: u64, next: Next)

  /** One UNWIND_INFO.  `base` is the frame base once a first fragment has fixed it; a chained
      parent's prologue has always run to its end. */
  function UndoFragment(m: Mem, image: u64, pc: u64, info: u64, start: u64, parent: bool, base: Option<u64>, kind: nat,
                        c: Ctx): Option<Fragment>
  {
    var b0 :- Read(m, info, 1);
    var prolog :- Read(m, info + 1, 1);
    var count :- Read(m, info + 2, 1);
    var b3 :- Read(m, info + 3, 1);
    var flags, f := b0 / 8, FrameInfo(b3 % 16, b3 / 16 % 16);
    var base' := if base.Some? then base.value else if f.reg != 0 then GetFrame(c, f) else Rsp(c);
    var limit := if pc > start then pc - start else 0;
    var c' :- UndoFrom(m, info + 4, 0, count, parent || limit >= prolog, limit, base', f, c);
    var next :- Following(m, image, info + 4 + Even(count) * 2, flags, kind);
    Some(Fragment(c', base', next))
  }

  function Following(m: Mem, image: u64, after: nat, flags: nat, kind: nat): Option<Next>
  {
    if flags / 4 % 2 == 1 then
      var next :- Read(m, after + 8, 4);
      var begin :- Read(m, after, 4);
      Some(Chained(W(image + next), W(image + begin)))
    else if Wants(flags, kind) then
      var h :- Read(m, after, 4);
      Some(Complete(W(image + h), W(after + 4)))
    else Some(Complete(0, 0))
  }

  function UndoChain(m: Mem, image: u64, pc: u64, info: u64, start: u64, parent: bool, base: Option<u64>,
                     kind: nat, fuel: nat, c: Ctx): Option<Unwound>
    decreases fuel
  {
    if fuel == 0 then Some(Unwound(c, 0, 0, if base.Some? then base.value else 0))
    else
      var g :- UndoFragment(m, image, pc, info, start, parent, base, kind, c);
      match g.next
      case Chained(i, s) => UndoChain(m, image, pc, i, s, true, Some(g.base), kind, fuel - 1, g.c)
      case Complete(h, d) => Some(Unwound(g.c, h, d, g.base))
  }

  /** Whether a function's handler flags name the kind of handler asked for (1 exception, 2 unwind). */
  predicate Wants(flags: nat, kind: nat)
  {
    (flags % 2 == 1 && kind % 2 == 1) || (flags / 2 % 2 == 1 && kind / 2 % 2 == 1)
  }

  /** Every frame ends with the return address on top of the stack. */
  function Return(m: Mem, c: Ctx): Option<Ctx>
  {
    var ip :- Read64(m, Rsp(c));
    Some(AddRsp(c, 8).(rip := ip))
  }

  function Unwind(m: Mem, kind: nat, image: u64, pc: u64, entry: u64, c: Ctx): Option<Unwound>
  {
    var info :- Read(m, entry + 8, 4);
    var start :- Read(m, entry, 4);
    var u :- UndoChain(m, image, pc, W(image + info), W(image + start), false, None, kind, 32, c);
    var r :- Return(m, u.c);
    Some(u.(c := r))
  }

  /** The fragments a chain leads through, each of them chained to the next. */
  ghost predicate Leads(m: Mem, image: u64, pc: u64, info: u64, start: u64, parent: bool, base: Option<u64>, kind: nat,
                        c: Ctx, gs: seq<Fragment>)
    decreases |gs|
  {
    gs != [] ==>
      && UndoFragment(m, image, pc, info, start, parent, base, kind, c) == Some(gs[0]) && gs[0].next.Chained?
      && Leads(m, image, pc, gs[0].next.info, gs[0].next.start, true, Some(gs[0].base), kind, gs[0].c, gs[1..])
  }

  /** A chain longer than the unwinder follows is left where it has got to, with no handler. */
  lemma {:induction false} ChainCut(m: Mem, image: u64, pc: u64, info: u64, start: u64, parent: bool,
                                    base: Option<u64>, kind: nat, c: Ctx, gs: seq<Fragment>)
    requires gs != [] && Leads(m, image, pc, info, start, parent, base, kind, c, gs)
    ensures var last := gs[|gs| - 1];
            UndoChain(m, image, pc, info, start, parent, base, kind, |gs|, c) == Some(Unwound(last.c, 0, 0, last.base))
    decreases |gs|
  {
    hide UndoFragment;
    if |gs| > 1 {
      var n := gs[0].next;
      ChainCut(m, image, pc, n.info, n.start, true, Some(gs[0].base), kind, gs[0].c, gs[1..]);
    } else {
      assert UndoChain(m, image, pc, gs[0].next.info, gs[0].next.start, true, Some(gs[0].base), kind, 0, gs[0].c) ==
             Some(Unwound(gs[0].c, 0, 0, gs[0].base));
    }
  }

  /** It follows thirty-two. */
  lemma UnwindCut(m: Mem, kind: nat, image: u64, pc: u64, entry: u64, c: Ctx, gs: seq<Fragment>)
    requires Read(m, entry, 4).Some? && Read(m, entry + 8, 4).Some? && |gs| == 32
    requires Leads(m, image, pc, W(image + Read(m, entry + 8, 4).value), W(image + Read(m, entry, 4).value), false,
                   None, kind, c, gs)
    requires Read64(m, gs[31].c.regs[RSP]).Some?
    ensures var u, d := Unwind(m, kind, image, pc, entry, c), gs[31].c;
            && u.Some? && u.value.handler == u.value.handlerData == 0 && u.value.establisher == gs[31].base
            && Some(u.value.c.rip) == Read64(m, d.regs[RSP])
            && u.value.c.regs == d.regs[RSP := W(d.regs[RSP] as int + 8)]
  {
    hide UndoFragment, UndoChain, Leads, Read, Read64;
    ChainCut(m, image, pc, W(image + Read(m, entry + 8, 4).value), W(image + Read(m, entry, 4).value), false, None,
             kind, c, gs);
  }

  // ---- the loop the emulator runs ---------------------------------------------------------------

  class Context {
    var regs: Regs
    var rip: u64

    ghost function Value(): Ctx
      reads this
    {
      Ctx(regs, rip)
    }

    constructor (c: Ctx)
      ensures Value() == c
    {
      regs, rip := c.regs, c.rip;
    }
  }

  /** The switch over one code.  On a fault the context is left as far as it had got. */
  method UndoCode(m: Mem, code: nat, applies: bool, base: u64, f: FrameInfo, ctx: Context)
    returns (ok: bool, slots: nat)
    requires f.reg < 16
    requires Read(m, code + 1, 1).Some?
    modifies ctx
    ensures ok <==> UndoSlot(m, code, applies, base, f, old(ctx.Value())).Some?
    ensures ok ==> ctx.Value() == UndoSlot(m, code, applies, base, f, old(ctx.Value())).value
    ensures ok ==> var b := Read(m, code + 1, 1).value; slots == SlotsOf(b % 16, b / 16 % 16)
  {
    hide Read, Read64, W;
    var b := Read(m, code + 1, 1).value;
    var op, info := b % 16, b / 16 % 16;
    slots := 1;
    ok := true;
    if op == 0 {
      if applies {
        var sp: int := ctx.regs[RSP];
        var v := Read64(m, sp);
        if v.None? {
          return false, slots;
        }
        ctx.regs := ctx.regs[info := v.value];
        ctx.regs := ctx.regs[RSP := W(sp + 8)];
      }
    } else if op == 1 {
      slots := if info == 0 then 2 else 3;
      var n := if info == 0 then Read(m, code + 2, 2) else Read(m, code + 2, 4);
      if n.None? {
        return false, slots;
      }
      if applies {
        var size: int := if info == 0 then n.value * 8 else n.value;
        ctx.regs := ctx.regs[RSP := W(ctx.regs[RSP] as int + size)];
      }
    } else if op == 2 {
      if applies {
        ctx.regs := ctx.regs[RSP := W(ctx.regs[RSP] + (info + 1) * 8)];
      }
    } else if op == 3 {
      if applies {
        ctx.regs := ctx.regs[RSP := W(ctx.regs[f.reg] - f.off * 16)];
      }
    } else if op == 4 || op == 5 {
      slots := if op == 4 then 2 else 3;
      var n := if op == 4 then Read(m, code + 2, 2) else Read(m, code + 2, 4);
      if n.None? {
        return false, slots;
      }
      if applies {
        var v := Read64(m, W(base + if op == 4 then n.value * 8 else n.value));
        if v.None? {
          return false, slots;
        }
        ctx.regs := ctx.regs[info := v.value];
      }
    } else if op == 6 {
      slots := 2;
    } else if op == 7 {
      slots := 3;
    } else if op == 8 || op == 9 {
      slots := if op == 8 then 2 else 3;
      var n := if op == 8 then Read(m, code + 2, 2) else Read(m, code + 2, 4);
      if n.None? {
        return false, slots;
      }
      if applies {
        var at: int := W(base + if op == 8 then n.value * 16 else n.value);
        var low, high := Read64(m, at), Read64(m, W(at + 8));
        if low.None? || high.None? {
          return false, slots;
        }
        ctx.regs := ctx.regs[Xmm(info) := low.value][Xmm(info) + 1 := high.value];
      }
    } else if op == 10 {
      if applies {
        var sp: int := W(ctx.regs[RSP] as int + if info != 0 then 8 else 0);
        var ip := Read64(m, sp);
        if ip.None? {
          return false, slots;
        }
        ctx.rip := ip.value;
        var rsp := Read64(m, W(sp + 24));
        if rsp.None? {
          return false, slots;
        }
        ctx.regs := ctx.regs[RSP := rsp.value];
      }
    }
  }

  /** The loop over one fragment's codes. */
  method UndoCodes(m: Mem, codes: nat, count: nat, past: bool, limit: nat, base: u64, f: FrameInfo, ctx: Context)
    returns (ok: bool)
    requires f.reg < 16
    modifies ctx
    ensures ok <==> UndoFrom(m, codes, 0, count, past, limit, base, f, old(ctx.Value())).Some?
    ensures ok ==> ctx.Value() == UndoFrom(m, codes, 0, count, past, limit, base, f, old(ctx.Value())).value
  {
    hide UndoSlot, Read;
    ghost var goal := UndoFrom(m, codes, 0, count, past, limit, base, f, ctx.Value());
    var i := 0;
    while i < count
      invariant UndoFrom(m, codes, i, count, past, limit, base, f, ctx.Value()) == goal
      decreases count - i
    {
      var code := codes + i * 2;
      var at := Read(m, code, 1);
      if at.None? {
        return false;
      }
      var b := Read(m, code + 1, 1);
      if b.None? {
        return false;
      }
      var good, slots := UndoCode(m, code, past || at.value <= limit, base, f, ctx);
      if !good {
        return false;
      }
      i := i + slots;
    }
    ok := true;
  }

  /** One turn of the loop over chained fragments. */
  method UndoOne(m: Mem, image: u64, pc: u64, info: u64, start: u64, parent: bool, base: Option<u64>, kind: nat,
                 ctx: Context)
    returns (ok: bool, base': u64, next: Next)
    modifies ctx
    ensures ok <==> UndoFragment(m, image, pc, info, start, parent, base, kind, old(ctx.Value())).Some?
    ensures ok ==>
              UndoFragment(m, image, pc, info, start, parent, base, kind, old(ctx.Value())).value ==
                Fragment(ctx.Value(), base', next)
  {
    hide UndoFrom, Read, Read64, W, Wants, Even;
    ok, base', next := false, 0, Complete(0, 0);
    var b0, prolog, count, b3 :=
      Read(m, info, 1), Read(m, info as nat + 1, 1), Read(m, info as nat + 2, 1), Read(m, info as nat + 3, 1);
    if b0.None? || prolog.None? || count.None? || b3.None? {
      return;
    }
    var flags, f := b0.value / 8, FrameInfo(b3.value % 16, b3.value / 16 % 16);
    base' := if base.Some? then base.value else if f.reg != 0 then W(ctx.regs[f.reg] - f.off * 16) else ctx.regs[RSP];
    var limit: nat := if pc > start then pc - start else 0;
    var good := UndoCodes(m, info + 4, count.value, parent || limit >= prolog.value, limit, base', f, ctx);
    if !good {
      return;
    }
    var n := Following(m, image, info + 4 + Even(count.value) * 2, flags, kind);
    if n.None? {
      return;
    }
    ok, next := true, n.value;
  }

  method VirtualUnwind(m: Mem, kind: nat, image: u64, pc: u64, entry: u64, ctx: Context)
    returns (ok: bool, handler: u64, handlerData: u64, establisher: u64)
    modifies ctx
    ensures ok <==> Unwind(m, kind, image, pc, entry, old(ctx.Value())).Some?
    ensures ok ==>
              Unwind(m, kind, image, pc, entry, old(ctx.Value())).value ==
                Unwound(ctx.Value(), handler, handlerData, establisher)
  {
    hide UndoFragment, Read, Read64, W;
    ok, handler, handlerData, establisher := false, 0, 0, 0;
    var infoRva, startRva := Read(m, entry as nat + 8, 4), Read(m, entry, 4);
    if infoRva.None? || startRva.None? {
      return;
    }
    var info: u64, start: u64 := W(image + infoRva.value), W(image + startRva.value);
    var base: Option<u64> := None;
    var parent := false;
    ghost var goal := UndoChain(m, image, pc, info, start, false, None, kind, 32, ctx.Value());
    var chain := 0;
    var done := false;
    while chain < 32 && !done
      invariant 0 <= chain <= 32
      invariant establisher == if base.Some? then base.value else 0
      invariant !done ==> handler == 0 && handlerData == 0
      invariant !done ==> UndoChain(m, image, pc, info, start, parent, base, kind, 32 - chain, ctx.Value()) == goal
      invariant done ==> goal == Some(Unwound(ctx.Value(), handler, handlerData, establisher))
    {
      var good, base', next := UndoOne(m, image, pc, info, start, parent, base, kind, ctx);
      if !good {
        return;
      }
      base := Some(base');
      establisher := base';
      match next {
        case Chained(i, s) => info, start, parent := i, s, true;
        case Complete(h, d) => handler, handlerData, done := h, d, true;
      }
      chain := chain + 1;
    }
    assert goal == Some(Unwound(ctx.Value(), handler, handlerData, establisher));
    var sp: int := ctx.regs[RSP];
    var ip := Read64(m, sp);
    if ip.None? {
      return;
    }
    ctx.rip := ip.value;
    ctx.regs := ctx.regs[RSP := W(sp + 8)];
    ok := true;
  }
}
