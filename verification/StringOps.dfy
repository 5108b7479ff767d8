/** The repeated string instructions, and what their loops amount to. */
module StringOps {
  import opened Bytes
  import opened Alu
  import opened AddressSpace
  import opened FlatMemory
  import opened Cpu
  import G = GuestMemory
  import W = WideMath

  datatype StringOp = Movs | Stos | Lods | Cmps | Scas

  function OpOf(opcode: nat): StringOp
  {
    match opcode
    case 0xA4 => Movs
    case 0xA5 => Movs
    case 0xAA => Stos
    case 0xAB => Stos
    case 0xAC => Lods
    case 0xAD => Lods
    case 0xA6 => Cmps
    case 0xA7 => Cmps
    case _ => Scas
  }

  /** The opcodes come in pairs, a byte form and a wider one. */
  lemma OpcodePairs(k: nat)
    requires k == 0xA4 || k == 0xA6 || k == 0xAA || k == 0xAC || k == 0xAE
    ensures OpOf(k) == OpOf(k + 1)
    ensures (OpOf(k) == Movs <==> k == 0xA4) && (OpOf(k) == Cmps <==> k == 0xA6) && (OpOf(k) == Stos <==> k == 0xAA)
    ensures (OpOf(k) == Lods <==> k == 0xAC) && (OpOf(k) == Scas <==> k == 0xAE)
  {
  }

  /** What a string instruction works on. */
  datatype Machine = Machine(regs: Regs, flags: Flags, flat: Flat)

  /** A finished instruction, or the address it faulted at. */
  datatype Outcome = Done(m: Machine) | Faulted(m: Machine, addr: nat)

  /** The element size, the address size and the prefixes. */
  datatype Form = Form(op: StringOp, size: nat, asize: nat, rex: bool, rep: bool, repne: bool)

  predicate FormOk(fm: Form)
  {
    SizeOk(fm.size) && (fm.asize == 2 || fm.asize == 4 || fm.asize == 8)
  }

  function Addr(r: u64, asize: nat): u64 { if asize == 4 then r % 0x1_0000_0000 else r }

  function Moved(regs: Regs, i: nat, df: bool, size: nat): Regs
    requires i < 16
  {
    regs[i := W.Wrap64(if df then regs[i] as int - size else regs[i] + size)]
  }

  function Counter(regs: Regs, asize: nat): nat
    requires asize == 2 || asize == 4 || asize == 8
  {
    RegRead(regs, true, RCX, asize)
  }

  /** read_sized() */
  datatype Fetched = Got(v: u64) | Missing(addr: nat)

  function Fetch(f: Flat, addr: nat, size: nat): Fetched
    requires SizeOk(size)
  {
    if AllMapped(f, addr, size) then
      FetchedFits(Loaded(f, addr, size), size);
      Got(FromLE(Loaded(f, addr, size)))
    else Missing(addr + Reach(f, addr, size))
  }

  lemma FetchedFits(b: seq<byte>, size: nat)
    requires SizeOk(size) && |b| == size
    ensures FromLE(b) < Mod(size) == Pow256(size)
  {
    FromLEBound(b);
    Pow256Values();
  }

  /** write_sized(): what is left, and the fault, if any. */
  function Put(m: Machine, addr: nat, size: nat, v: nat): Outcome
  {
    var k := Reach(m.flat, addr, size);
    var n := m.(flat := Stored(m.flat, addr, ToLE(v, size)[..k]));
    if k == size then Done(n) else Faulted(n, addr + k)
  }

  /** One element. */
  function Element(fm: Form, m: Machine): (o: Outcome)
    requires FormOk(fm)
    ensures o.m.regs[RCX] == m.regs[RCX]
  {
    var src, dst := Addr(m.regs[RSI], fm.asize), Addr(m.regs[RDI], fm.asize);
    var df, s := m.flags.df, fm.size;
    match fm.op
    case Movs =>
      (match Fetch(m.flat, src, s)
       case Missing(a) => Faulted(m, a)
       case Got(v) =>
         match Put(m, dst, s, v)
         case Faulted(n, a) => Faulted(n, a)
         case Done(n) => Done(n.(regs := Moved(Moved(n.regs, RSI, df, s), RDI, df, s))))
    case Stos =>
      (match Put(m, dst, s, RegRead(m.regs, fm.rex, RAX, s))
       case Faulted(n, a) => Faulted(n, a)
       case Done(n) => Done(n.(regs := Moved(n.regs, RDI, df, s))))
    case Lods =>
      (match Fetch(m.flat, src, s)
       case Missing(a) => Faulted(m, a)
       case Got(v) => Done(m.(regs := Moved(RegWrite(m.regs, fm.rex, RAX, s, v), RSI, df, s))))
    case Cmps =>
      (match Fetch(m.flat, src, s)
       case Missing(a) => Faulted(m, a)
       case Got(x) =>
         match Fetch(m.flat, dst, s)
         case Missing(a) => Faulted(m, a)
         case Got(y) => Done(m.(flags := Operate(7, m.flags, x, y, s).f,
                                regs := Moved(Moved(m.regs, RSI, df, s), RDI, df, s))))
    case Scas =>
      match Fetch(m.flat, dst, s)
      case Missing(a) => Faulted(m, a)
      case Got(y) => Done(m.(flags := Operate(7, m.flags, RegRead(m.regs, fm.rex, RAX, s), y, s).f,
                             regs := Moved(m.regs, RDI, df, s)))
  }

  predicate Compares(op: StringOp) { op.Cmps? || op.Scas? }

  /** Whether a comparison that left this ZF ends the repetition. */
  predicate Decides(fm: Form, zf: bool) { Compares(fm.op) && ((fm.rep && !zf) || (fm.repne && zf)) }

  function Counted(m: Machine, fm: Form): (n: Machine)
    requires FormOk(fm) && Counter(m.regs, fm.asize) > 0
    ensures Counter(n.regs, fm.asize) == Counter(m.regs, fm.asize) - 1
  {
    WriteRead(m.regs, true, RCX, fm.asize, Counter(m.regs, fm.asize) - 1);
    MaskBelow(Counter(m.regs, fm.asize) - 1, fm.asize);
    m.(regs := RegWrite(m.regs, true, RCX, fm.asize, Counter(m.regs, fm.asize) - 1))
  }

  /** The instruction with its prefixes. */
  function Repeat(fm: Form, m: Machine): Outcome
    requires FormOk(fm)
    decreases Counter(m.regs, fm.asize)
  {
    if !fm.rep && !fm.repne then Element(fm, m)
    else if Counter(m.regs, fm.asize) == 0 then Done(m)
    else
      match Element(fm, m)
      case Faulted(n, a) => Faulted(n, a)
      case Done(n) =>
        var c := Counted(n, fm);
        if Decides(fm, c.flags.zf) then Done(c) else Repeat(fm, c)
  }

  /** One turn of the loop. */
  lemma RepeatStep(fm: Form, m: Machine)
    requires FormOk(fm)
    ensures Counter(Element(fm, m).m.regs, fm.asize) == Counter(m.regs, fm.asize)
    ensures !fm.rep && !fm.repne ==> Repeat(fm, m) == Element(fm, m)
    ensures fm.rep || fm.repne ==>
              Repeat(fm, m) ==
                if Counter(m.regs, fm.asize) == 0 then Done(m)
                else if Element(fm, m).Faulted? then Element(fm, m)
                else var c := Counted(Element(fm, m).m, fm); if Decides(fm, c.flags.zf) then Done(c) else Repeat(fm, c)
  {
  }

  lemma CountedIs(m: Machine, fm: Form, rex: bool)
    requires FormOk(fm) && Counter(m.regs, fm.asize) > 0
    ensures Counted(m, fm) == m.(regs := RegWrite(m.regs, rex, RCX, fm.asize, Counter(m.regs, fm.asize) - 1))
  {
  }

  datatype Result = Finished | FaultAt(addr: nat)

  ghost function Current(cpu: Cpu, mem: G.Memory): Machine
    reads cpu, mem
  {
    Machine(cpu.regs, cpu.flags, mem.flat)
  }

  function Verdict(o: Outcome): Result
  {
    match o
    case Done(_) => Finished
    case Faulted(_, a) => FaultAt(a)
  }

  lemma ValueFits(f: Flat, addr: nat, size: nat)
    requires SizeOk(size) && AllMapped(f, addr, size)
    ensures FromLE(Loaded(f, addr, size)) < Mod(size)
  {
    FetchedFits(Loaded(f, addr, size), size);
  }

  method Read(mem: G.Memory, addr: u64, size: nat) returns (r: Fetched)
    requires mem.Valid() && SizeOk(size)
    modifies mem, mem.tlb, mem.tlbw
    ensures mem.Valid() && mem.flat == old(mem.flat) && r == Fetch(mem.flat, addr, size)
    ensures r.Got? ==> r.v < Mod(size)
  {
    if AllMapped(mem.flat, addr, size) {
      ValueFits(mem.flat, addr, size);
    }
    var v := mem.ReadSized(addr, size);
    match v {
      case Value(x) => r := Got(x);
      case ValueFault(a) => r := Missing(a);
    }
  }

  method Write(cpu: Cpu, mem: G.Memory, addr: u64, size: nat, v: u64) returns (r: Result)
    requires mem.Valid() && SizeOk(size)
    modifies mem, mem.tlb, mem.tlbw
    ensures mem.Valid()
    ensures var o := Put(old(Current(cpu, mem)), addr, size, v); Current(cpu, mem) == o.m && r == Verdict(o)
  {
    var w := mem.WriteSized(addr, size, v);
    match w {
      case WriteOk => r := Finished;
      case WriteFault(a) => r := FaultAt(a);
    }
  }

  /** The body of the loop: MOVS and STOS write memory, the others only read it. */
  method DoElement(cpu: Cpu, mem: G.Memory, fm: Form) returns (r: Result)
    requires mem.Valid() && FormOk(fm) && fm.rex == cpu.rex
    modifies cpu, mem, mem.tlb, mem.tlbw
    ensures mem.Valid() && cpu.rex == old(cpu.rex)
    ensures var o := Element(fm, old(Current(cpu, mem))); Current(cpu, mem) == o.m && r == Verdict(o)
  {
    hide Element, G.Memory.Valid;
    if fm.op.Movs? || fm.op.Stos? {
      r := WriteElement(cpu, mem, fm);
    } else {
      r := ReadElement(cpu, mem, fm);
    }
  }

  method WriteElement(cpu: Cpu, mem: G.Memory, fm: Form) returns (r: Result)
    requires mem.Valid() && FormOk(fm) && fm.rex == cpu.rex && (fm.op.Movs? || fm.op.Stos?)
    modifies cpu, mem, mem.tlb, mem.tlbw
    ensures mem.Valid() && cpu.rex == old(cpu.rex)
    ensures var o := Element(fm, old(Current(cpu, mem))); Current(cpu, mem) == o.m && r == Verdict(o)
  {
    hide Put, Fetch, Operate, RegWrite, RegRead, AllMapped, Reach, Loaded, Stored, Moved, Addr, G.Memory.Valid;
    var src, dst := Addr(cpu.regs[RSI], fm.asize), Addr(cpu.regs[RDI], fm.asize);
    var df := cpu.flags.df;
    if fm.op.Movs? {
      var v := Read(mem, src, fm.size);
      if v.Missing? {
        return FaultAt(v.addr);
      }
      r := Write(cpu, mem, dst, fm.size, v.v);
      if r.Finished? {
        cpu.regs := Moved(cpu.regs, RSI, df, fm.size);
        cpu.regs := Moved(cpu.regs, RDI, df, fm.size);
      }
    } else {
      r := Write(cpu, mem, dst, fm.size, RegRead(cpu.regs, cpu.rex, RAX, fm.size));
      if r.Finished? {
        cpu.regs := Moved(cpu.regs, RDI, df, fm.size);
      }
    }
  }

  method ReadElement(cpu: Cpu, mem: G.Memory, fm: Form) returns (r: Result)
    requires mem.Valid() && FormOk(fm) && fm.rex == cpu.rex && (fm.op.Lods? || Compares(fm.op))
    modifies cpu, mem, mem.tlb, mem.tlbw
    ensures mem.Valid() && cpu.rex == old(cpu.rex)
    ensures var o := Element(fm, old(Current(cpu, mem))); Current(cpu, mem) == o.m && r == Verdict(o)
  {
    hide Put, Fetch, Operate, RegWrite, RegRead, AllMapped, Reach, Loaded, Stored, Moved, Addr, G.Memory.Valid;
    var src, dst := Addr(cpu.regs[RSI], fm.asize), Addr(cpu.regs[RDI], fm.asize);
    var df := cpu.flags.df;
    var x := Got(RegRead(cpu.regs, cpu.rex, RAX, fm.size));
    if !fm.op.Scas? {
      x := Read(mem, src, fm.size);
    }
    if x.Missing? {
      return FaultAt(x.addr);
    }
    if fm.op.Lods? {
      cpu.WriteReg(RAX, fm.size, x.v);
      cpu.regs := Moved(cpu.regs, RSI, df, fm.size);
      return Finished;
    }
    var y := Read(mem, dst, fm.size);
    if y.Missing? {
      return FaultAt(y.addr);
    }
    var _ := cpu.Execute(7, x.v, y.v, fm.size);
    if fm.op.Cmps? {
      cpu.regs := Moved(cpu.regs, RSI, df, fm.size);
    }
    cpu.regs := Moved(cpu.regs, RDI, df, fm.size);
    r := Finished;
  }

  /** do_string_op() */
  method DoStringOp(cpu: Cpu, mem: G.Memory, opcode: nat, size: nat, asize: nat, rep: bool, repne: bool)
    returns (r: Result)
    requires mem.Valid() && SizeOk(size) && (asize == 2 || asize == 4 || asize == 8)
    modifies cpu, mem, mem.tlb, mem.tlbw
    ensures mem.Valid() && cpu.rex == old(cpu.rex)
    ensures var o := Repeat(Form(OpOf(opcode), size, asize, old(cpu.rex), rep, repne), old(Current(cpu, mem)));
            Current(cpu, mem) == o.m && r == Verdict(o)
  {
    hide Element, Counted, Repeat, OpOf, Operate, G.Memory.Valid, RegWrite, RegRead;
    var fm := Form(OpOf(opcode), size, asize, cpu.rex, rep, repne);
    ghost var m0 := Current(cpu, mem);
    while true
      invariant mem.Valid() && cpu.rex == old(cpu.rex)
      invariant Repeat(fm, m0) == Repeat(fm, Current(cpu, mem))
      decreases Counter(cpu.regs, asize)
    {
      ghost var m := Current(cpu, mem);
      RepeatStep(fm, m);
      if (rep || repne) && Counter(cpu.regs, asize) == 0 {
        return Finished;
      }
      r := DoElement(cpu, mem, fm);
      if r.FaultAt? {
        return;
      }
      if !rep && !repne {
        return;
      }
      CountedIs(Current(cpu, mem), fm, cpu.rex);
      cpu.WriteReg(RCX, asize, Counter(cpu.regs, asize) - 1);
      if Compares(fm.op) && rep && !cpu.flags.zf {
        return;
      }
      if Compares(fm.op) && repne && cpu.flags.zf {
        return;
      }
      if Counter(cpu.regs, asize) == 0 {
        RepeatStep(fm, Current(cpu, mem));
        return;
      }
    }
  }

  // ---- pointers -------------------------------------------------------------------------------------

  /** The bytes that n elements take. */
  function Span(n: nat, size: nat): nat { n * size }

  lemma SpanStep(n: nat, size: nat)
    requires n > 0
    ensures Span(n, size) == Span(n - 1, size) + size && Span(0, size) == 0
  {
  }

  /** A pointer register after n elements. */
  function PtrAt(r: u64, df: bool, size: nat, n: nat): u64
  {
    W.Wrap64(if df then r as int - Span(n, size) else r + Span(n, size))
  }

  lemma WrapTwice(a: int, b: int)
    ensures W.Wrap64(W.Wrap64(a) + b) == W.Wrap64(a + b)
  {
    var k, r := a / 0x1_0000_0000_0000_0000, a % 0x1_0000_0000_0000_0000;
    Multiple(r + b, k, 0x1_0000_0000_0000_0000, 1);
  }

  lemma PtrStep(r: u64, df: bool, size: nat, n: nat)
    ensures PtrAt(W.Wrap64(if df then r as int - size else r + size), df, size, n) == PtrAt(r, df, size, n + 1)
    ensures PtrAt(r, df, size, 0) == r
  {
    hide W.Wrap64;
    SpanStep(n + 1, size);
    WrapTwice(if df then r as int - size else r + size, if df then 0 - Span(n, size) as int else Span(n, size));
    WrapSmall(r);
  }

  lemma PtrOne(r: u64, df: bool, size: nat)
    ensures PtrAt(r, df, size, 1) == W.Wrap64(if df then r as int - size else r + size)
  {
    SpanStep(1, size);
  }

  lemma WrapSmall(r: u64)
    ensures W.Wrap64(r) == r
  {
  }

  /** One past the last address that a pointer of this size can hold. */
  function Room(asize: nat): nat { if asize == 4 then 0x1_0000_0000 else 0x1_0000_0000_0000_0000 }

  /** Within the address size, moving a pointer moves its address. */
  lemma AddrMoved(r: u64, d: int, asize: nat)
    requires 0 <= Addr(r, asize) + d < Room(asize)
    ensures Addr(W.Wrap64(r + d), asize) == Addr(r, asize) + d
  {
    if asize == 4 {
      var k := (r + d) / 0x1_0000_0000_0000_0000;
      Multiple(W.Wrap64(r + d), k, 0x1_0000_0000, 0x1_0000_0000);
      Multiple(Addr(r, 4) + d, r / 0x1_0000_0000, 0x1_0000_0000, 1);
    }
  }

  // ---- REP MOVS -------------------------------------------------------------------------------------

  /** One element of MOVS, when both ends are mapped. */
  lemma MovsElement(fm: Form, m: Machine)
    requires FormOk(fm) && fm.op.Movs?
    requires AllMapped(m.flat, Addr(m.regs[RSI], fm.asize), fm.size)
             && AllMapped(m.flat, Addr(m.regs[RDI], fm.asize), fm.size)
    ensures Element(fm, m) ==
              Done(Machine(Moved(Moved(m.regs, RSI, m.flags.df, fm.size), RDI, m.flags.df, fm.size), m.flags,
                                           Stored(m.flat, Addr(m.regs[RDI], fm.asize),
                                                  Loaded(m.flat, Addr(m.regs[RSI], fm.asize), fm.size))))
  {
    hide Stored, Reach, AllMapped;
    var b := Loaded(m.flat, Addr(m.regs[RSI], fm.asize), fm.size);
    ReachAll(m.flat, Addr(m.regs[RDI], fm.asize), fm.size);
    ToFromLE(b);
    assert b[..fm.size] == b;
  }

  /** Both pointers n elements on, the count used up, and nothing else changed but memory. */
  predicate MovedOn(fm: Form, m: Machine, o: Machine, n: nat)
    requires FormOk(fm)
  {
    && Counter(o.regs, fm.asize) == 0 && o.flags == m.flags
    && o.regs[RSI] == PtrAt(m.regs[RSI], m.flags.df, fm.size, n)
    && o.regs[RDI] == PtrAt(m.regs[RDI], m.flags.df, fm.size, n)
    && forall i | 0 <= i < 16 && i != RCX && i != RSI && i != RDI :: o.regs[i] == m.regs[i]
  }

  /** The whole range [src, src+len) moved to dst, as memmove does it, and the registers left behind. */
  predicate Moves(fm: Form, m: Machine, o: Outcome, src: nat, dst: nat, n: nat)
    requires FormOk(fm) && AllMapped(m.flat, src, Span(n, fm.size))
  {
    o.Done? && o.m.flat == Stored(m.flat, dst, Loaded(m.flat, src, Span(n, fm.size))) && MovedOn(fm, m, o.m, n)
  }

  /** The state after one element of a repeated MOVS. */
  lemma MovsTurn(fm: Form, m: Machine)
    requires FormOk(fm) && fm.op.Movs? && (fm.rep || fm.repne) && Counter(m.regs, fm.asize) > 0
    requires AllMapped(m.flat, Addr(m.regs[RSI], fm.asize), fm.size)
             && AllMapped(m.flat, Addr(m.regs[RDI], fm.asize), fm.size)
    ensures var c := Counted(Element(fm, m).m, fm);
            && Element(fm, m).Done? && Repeat(fm, m) == Repeat(fm, c) && c.flags == m.flags
            && Counter(c.regs, fm.asize) == Counter(m.regs, fm.asize) - 1
            && c.flat ==
                 Stored(m.flat, Addr(m.regs[RDI], fm.asize), Loaded(m.flat, Addr(m.regs[RSI], fm.asize), fm.size))
            && c.regs[RSI] == W.Wrap64(if m.flags.df then m.regs[RSI] as int - fm.size else m.regs[RSI] + fm.size)
            && c.regs[RDI] == W.Wrap64(if m.flags.df then m.regs[RDI] as int - fm.size else m.regs[RDI] + fm.size)
            && forall i | 0 <= i < 16 && i != RCX && i != RSI && i != RDI :: c.regs[i] == m.regs[i]
  {
    hide Element, Stored, Loaded, Repeat, AllMapped, W.Wrap64, RegRead, Masked;
    RepeatStep(fm, m);
    MovsElement(fm, m);
    CountedIs(Element(fm, m).m, fm, true);
    WriteRead(Element(fm, m).m.regs, true, RCX, fm.asize, Counter(m.regs, fm.asize) - 1);
  }

  /** With nothing to move, nothing moves. */
  lemma MovesNothing(fm: Form, m: Machine, src: nat, dst: nat)
    requires FormOk(fm) && (fm.rep || fm.repne) && Counter(m.regs, fm.asize) == 0
    ensures Span(0, fm.size) == 0 && AllMapped(m.flat, src, 0) && Moves(fm, m, Repeat(fm, m), src, dst, 0)
  {
    hide Element, Stored, Repeat, W.Wrap64, RegRead;
    RepeatStep(fm, m);
    StoredNone(m.flat, dst);
    assert Loaded(m.flat, src, 0) == [];
    PtrStep(m.regs[RSI], m.flags.df, fm.size, 0);
    PtrStep(m.regs[RDI], m.flags.df, fm.size, 0);
  }

  /** The first element, then the others. */
  lemma MovesNext(fm: Form, m: Machine, c: Machine, o: Outcome, src: nat, dst: nat, src': nat, dst': nat, n: nat)
    requires FormOk(fm) && n > 0 && c.flags == m.flags
    requires AllMapped(m.flat, src, Span(n, fm.size)) && AllMapped(c.flat, src', Span(n - 1, fm.size))
    requires c.regs[RSI] == W.Wrap64(if m.flags.df then m.regs[RSI] as int - fm.size else m.regs[RSI] + fm.size)
    requires c.regs[RDI] == W.Wrap64(if m.flags.df then m.regs[RDI] as int - fm.size else m.regs[RDI] + fm.size)
    requires forall i | 0 <= i < 16 && i != RCX && i != RSI && i != RDI :: c.regs[i] == m.regs[i]
    requires Moves(fm, c, o, src', dst', n - 1)
    requires Stored(c.flat, dst', Loaded(c.flat, src', Span(n - 1, fm.size))) ==
               Stored(m.flat, dst, Loaded(m.flat, src, Span(n, fm.size)))
    ensures Moves(fm, m, o, src, dst, n)
  {
    hide Stored, Loaded, AllMapped, W.Wrap64, RegRead, Span;
    PtrStep(m.regs[RSI], m.flags.df, fm.size, n - 1);
    PtrStep(m.regs[RDI], m.flags.df, fm.size, n - 1);
  }

  /** The bytes a forward run leaves, from those its first element leaves. */
  lemma CopyUp(f: Flat, src: nat, dst: nat, n: nat, m: nat)
    requires AllMapped(f, src, n + m) && (dst <= src || src + n + m <= dst)
    ensures AllMapped(f, src, n) && AllMapped(Stored(f, dst, Loaded(f, src, n)), src + n, m)
    ensures var g := Stored(f, dst, Loaded(f, src, n));
            Stored(g, dst + n, Loaded(g, src + n, m)) == Stored(f, dst, Loaded(f, src, n + m))
  {
    hide Stored, Loaded, AllMapped;
    MappedParts(f, src, n, m, dst, []);
    var head := Loaded(f, src, n);
    MappedParts(f, src, n, m, dst, head);
    LoadedParts(f, src, n, m);
    LoadedApart(f, src + n, m, dst, head);
    StoredBoth(f, dst, head, Loaded(f, src + n, m));
  }

  /** Upward, with the destination at or below the source or clear of it. */
  lemma {:induction false} MovsForward(fm: Form, m: Machine, src: nat, dst: nat, n: nat)
    requires FormOk(fm) && fm.op.Movs? && (fm.rep || fm.repne) && !m.flags.df && Counter(m.regs, fm.asize) == n
    requires n > 0 ==> src == Addr(m.regs[RSI], fm.asize) && dst == Addr(m.regs[RDI], fm.asize)
    requires src + Span(n, fm.size) <= Room(fm.asize) && dst + Span(n, fm.size) <= Room(fm.asize)
    requires AllMapped(m.flat, src, Span(n, fm.size)) && AllMapped(m.flat, dst, Span(n, fm.size))
    requires dst <= src || src + Span(n, fm.size) <= dst
    ensures Moves(fm, m, Repeat(fm, m), src, dst, n)
    decreases n
  {
    hide Element, Stored, Loaded, Repeat, AllMapped, W.Wrap64, RegRead, Addr, Room, Span, Counted, Moves;
    var s := fm.size;
    if n == 0 {
      MovesNothing(fm, m, src, dst);
    } else {
      var rest := Span(n - 1, s);
      SpanStep(n, s);
      MappedParts(m.flat, dst, s, rest, 0, []);
      CopyUp(m.flat, src, dst, s, rest);
      MappedParts(m.flat, dst, s, rest, dst, Loaded(m.flat, src, s));
      MovsTurn(fm, m);
      var c := Counted(Element(fm, m).m, fm);
      if n > 1 {
        SpanStep(n - 1, s);
        AddrMoved(m.regs[RSI], s, fm.asize);
        AddrMoved(m.regs[RDI], s, fm.asize);
      }
      MovsForward(fm, c, src + s, dst + s, n - 1);
      MovesNext(fm, m, c, Repeat(fm, m), src, dst, src + s, dst + s, n);
    }
  }

  lemma CopyDown(f: Flat, src: nat, dst: nat, n: nat, m: nat)
    requires AllMapped(f, src, m + n) && (src <= dst || dst + m + n <= src)
    ensures AllMapped(f, src + m, n) && AllMapped(Stored(f, dst + m, Loaded(f, src + m, n)), src, m)
    ensures var g := Stored(f, dst + m, Loaded(f, src + m, n));
            Stored(g, dst, Loaded(g, src, m)) == Stored(f, dst, Loaded(f, src, m + n))
  {
    hide Stored, Loaded, AllMapped;
    MappedParts(f, src, m, n, dst, []);
    var tail := Loaded(f, src + m, n);
    MappedParts(f, src, m, n, dst + m, tail);
    LoadedParts(f, src, m, n);
    LoadedApart(f, src, m, dst + m, tail);
    StoredBoth(f, dst, Loaded(f, src, m), tail);
  }

  /** Downward from the last element, with the destination at or above the source or clear of it. */
  lemma {:induction false} MovsBackward(fm: Form, m: Machine, src: nat, dst: nat, n: nat)
    requires FormOk(fm) && fm.op.Movs? && (fm.rep || fm.repne) && m.flags.df && Counter(m.regs, fm.asize) == n
    requires n > 0 ==>
               Addr(m.regs[RSI], fm.asize) == src + Span(n - 1, fm.size)
                 && Addr(m.regs[RDI], fm.asize) == dst + Span(n - 1, fm.size)
    requires src + Span(n, fm.size) <= Room(fm.asize) && dst + Span(n, fm.size) <= Room(fm.asize)
    requires AllMapped(m.flat, src, Span(n, fm.size)) && AllMapped(m.flat, dst, Span(n, fm.size))
    requires src <= dst || dst + Span(n, fm.size) <= src
    ensures Moves(fm, m, Repeat(fm, m), src, dst, n)
    decreases n
  {
    hide Element, Stored, Loaded, Repeat, AllMapped, W.Wrap64, RegRead, Addr, Room, Span, Counted, Moves;
    var s := fm.size;
    if n == 0 {
      MovesNothing(fm, m, src, dst);
    } else {
      var rest := Span(n - 1, s);
      SpanStep(n, s);
      MappedParts(m.flat, dst, rest, s, 0, []);
      CopyDown(m.flat, src, dst, s, rest);
      MappedParts(m.flat, dst, rest, s, dst + rest, Loaded(m.flat, src + rest, s));
      MovsTurn(fm, m);
      var c := Counted(Element(fm, m).m, fm);
      if n > 1 {
        SpanStep(n - 1, s);
        AddrMoved(m.regs[RSI], 0 - s as int, fm.asize);
        AddrMoved(m.regs[RDI], 0 - s as int, fm.asize);
      }
      MovsBackward(fm, c, src, dst, n - 1);
      MovesNext(fm, m, c, Repeat(fm, m), src, dst, src, dst, n);
    }
  }

  // ---- REPE CMPS and REPNE SCAS -----------------------------------------------------------------------

  /** The two sides of comparison i of a repeated CMPS or SCAS. */
  function Left(fm: Form, m: Machine, i: nat): Fetched
    requires FormOk(fm)
  {
    if fm.op.Cmps? then Fetch(m.flat, Addr(PtrAt(m.regs[RSI], m.flags.df, fm.size, i), fm.asize), fm.size)
    else Got(RegRead(m.regs, fm.rex, RAX, fm.size))
  }

  function Right(fm: Form, m: Machine, i: nat): Fetched
    requires FormOk(fm)
  {
    Fetch(m.flat, Addr(PtrAt(m.regs[RDI], m.flags.df, fm.size, i), fm.asize), fm.size)
  }

  predicate Readable(fm: Form, m: Machine, i: nat)
    requires FormOk(fm)
  {
    Left(fm, m, i).Got? && Right(fm, m, i).Got?
  }

  /** Comparison i can be made and goes on to the next: REPE while the sides are equal, REPNE while they differ. */
  predicate Passes(fm: Form, m: Machine, i: nat)
    requires FormOk(fm)
  {
    && Readable(fm, m, i)
    && (fm.rep ==> Left(fm, m, i) == Right(fm, m, i)) && (fm.repne ==> Left(fm, m, i) != Right(fm, m, i))
  }

  /** Where a search that looked at k elements of n stops. */
  predicate StoppedAfter(fm: Form, m: Machine, o: Outcome, k: nat, n: nat)
    requires FormOk(fm) && 0 < k <= n && Readable(fm, m, k - 1)
  {
    && o.Done? && o.m.flat == m.flat && Counter(o.m.regs, fm.asize) == n - k
    && o.m.flags == Operate(7, m.flags, Left(fm, m, k - 1).v, Right(fm, m, k - 1).v, fm.size).f
    && (o.m.flags.zf <==> Left(fm, m, k - 1) == Right(fm, m, k - 1))
    && o.m.regs[RDI] == PtrAt(m.regs[RDI], m.flags.df, fm.size, k)
    && o.m.regs[RSI] == (if fm.op.Cmps? then PtrAt(m.regs[RSI], m.flags.df, fm.size, k) else m.regs[RSI])
    && forall i | 0 <= i < 16 && i != RCX && i != RSI && i != RDI :: o.m.regs[i] == m.regs[i]
  }

  /** ZF after a comparison is equality, and only DF of the flags before it survives. */
  lemma ComparedFlags(f: Flags, g: Flags, x: u64, y: u64, size: nat)
    requires SizeOk(size) && x < Mod(size) && y < Mod(size) && f.df == g.df
    ensures Operate(7, f, x, y, size) == Operate(7, g, x, y, size)
    ensures Operate(7, f, x, y, size).f.df == f.df && (Operate(7, f, x, y, size).f.zf <==> x == y)
  {
    hide EvenParity, Sub, Mod, Masked, SizeOk;
    FlagsIgnored(f, g, x, y, size);
    CmpKeeps(f, x, y, size);
    SubExact(f, x, y, 0, size);
    SignedSame(x, y, size);
  }

  lemma LeftFits(fm: Form, m: Machine, i: nat)
    requires FormOk(fm) && Readable(fm, m, i)
    ensures Left(fm, m, i).v < Mod(fm.size) && Right(fm, m, i).v < Mod(fm.size)
  {
    FetchFits(m.flat, Addr(PtrAt(m.regs[RSI], m.flags.df, fm.size, i), fm.asize), fm.size);
    FetchFits(m.flat, Addr(PtrAt(m.regs[RDI], m.flags.df, fm.size, i), fm.asize), fm.size);
  }

  lemma FetchFits(f: Flat, addr: nat, size: nat)
    requires SizeOk(size)
    ensures Fetch(f, addr, size).Got? ==> Fetch(f, addr, size).v < Mod(size)
  {
    if AllMapped(f, addr, size) {
      ValueFits(f, addr, size);
    }
  }

  /** The state after one comparison. */
  lemma CompareTurn(fm: Form, m: Machine)
    requires FormOk(fm) && Compares(fm.op) && (fm.rep || fm.repne) && Counter(m.regs, fm.asize) > 0
             && Readable(fm, m, 0)
    ensures Element(fm, m).Done?
    ensures var c := Counted(Element(fm, m).m, fm);
            && Repeat(fm, m) == (if Passes(fm, m, 0) then Repeat(fm, c) else Done(c))
            && c.flat == m.flat && Counter(c.regs, fm.asize) == Counter(m.regs, fm.asize) - 1
            && c.flags.df == m.flags.df
            && c.flags == Operate(7, m.flags, Left(fm, m, 0).v, Right(fm, m, 0).v, fm.size).f
            && (c.flags.zf <==> Left(fm, m, 0) == Right(fm, m, 0))
            && c.regs[RDI] == W.Wrap64(if m.flags.df then m.regs[RDI] as int - fm.size else m.regs[RDI] + fm.size)
            && (if fm.op.Cmps?
                then c.regs[RSI] == W.Wrap64(if m.flags.df then m.regs[RSI] as int - fm.size else m.regs[RSI] + fm.size)
                else c.regs[RSI] == m.regs[RSI])
            && forall i | 0 <= i < 16 && i != RCX && i != RSI && i != RDI :: c.regs[i] == m.regs[i]
  {
    hide Fetch, Repeat, W.Wrap64, RegRead, Masked, Operate, Counted;
    RepeatStep(fm, m);
    PtrStep(m.regs[RSI], m.flags.df, fm.size, 0);
    PtrStep(m.regs[RDI], m.flags.df, fm.size, 0);
    LeftFits(fm, m, 0);
    ComparedFlags(m.flags, m.flags, Left(fm, m, 0).v, Right(fm, m, 0).v, fm.size);
    var e := Element(fm, m).m;
    CountedIs(e, fm, true);
    WriteRead(e.regs, true, RCX, fm.asize, Counter(e.regs, fm.asize) - 1);
  }

  /** After one comparison the others are where they were. */
  lemma SidesMoved(fm: Form, m: Machine, c: Machine, i: nat)
    requires FormOk(fm) && Compares(fm.op) && c.flat == m.flat && c.flags.df == m.flags.df && c.regs[RAX] == m.regs[RAX]
    requires c.regs[RDI] == W.Wrap64(if m.flags.df then m.regs[RDI] as int - fm.size else m.regs[RDI] + fm.size)
    requires fm.op.Cmps? ==>
               c.regs[RSI] == W.Wrap64(if m.flags.df then m.regs[RSI] as int - fm.size else m.regs[RSI] + fm.size)
    ensures Left(fm, c, i) == Left(fm, m, i + 1) && Right(fm, c, i) == Right(fm, m, i + 1)
  {
    hide Fetch, W.Wrap64;
    PtrStep(m.regs[RSI], m.flags.df, fm.size, i);
    PtrStep(m.regs[RDI], m.flags.df, fm.size, i);
  }

  /** A repeated CMPS or SCAS stops at the first element that decides it, or after the last. */
  lemma {:induction false} CompareStops(fm: Form, m: Machine, k: nat, n: nat)
    requires FormOk(fm) && (fm.op.Cmps? || fm.op.Scas?) && (fm.rep || fm.repne)
    requires Counter(m.regs, fm.asize) == n && 0 < k <= n
    requires forall i | 0 <= i < k - 1 :: Passes(fm, m, i)
    requires Readable(fm, m, k - 1) && (k == n || !Passes(fm, m, k - 1))
    ensures StoppedAfter(fm, m, Repeat(fm, m), k, n)
    decreases k
  {
    hide Repeat, W.Wrap64, RegRead, Operate, Counted, Passes, Left, Right, PtrAt, Element;
    assert k > 1 ==> Passes(fm, m, 0);
    PassesReadable(fm, m, 0);
    CompareTurn(fm, m);
    var c := Counted(Element(fm, m).m, fm);
    if k == 1 {
      RepeatStep(fm, c);
      PtrOne(m.regs[RSI], m.flags.df, fm.size);
      PtrOne(m.regs[RDI], m.flags.df, fm.size);
    } else {
      forall i: nat | i < k - 1 ensures Left(fm, c, i) == Left(fm, m, i + 1) && Right(fm, c, i) == Right(fm, m, i + 1)
                                 && Passes(fm, c, i) == Passes(fm, m, i + 1) {
        SidesMoved(fm, m, c, i);
        SamePasses(fm, m, c, i);
      }
      CompareStops(fm, c, k - 1, n - 1);
      LeftFits(fm, m, k - 1);
      ComparedFlags(m.flags, c.flags, Left(fm, m, k - 1).v, Right(fm, m, k - 1).v, fm.size);
      PtrStep(m.regs[RSI], m.flags.df, fm.size, k - 1);
      PtrStep(m.regs[RDI], m.flags.df, fm.size, k - 1);
    }
  }

  lemma PassesReadable(fm: Form, m: Machine, i: nat)
    requires FormOk(fm)
    ensures Passes(fm, m, i) ==> Readable(fm, m, i)
  {
  }

  lemma SamePasses(fm: Form, m: Machine, c: Machine, i: nat)
    requires FormOk(fm) && Left(fm, c, i) == Left(fm, m, i + 1) && Right(fm, c, i) == Right(fm, m, i + 1)
    ensures Passes(fm, c, i) == Passes(fm, m, i + 1)
  {
  }
}
