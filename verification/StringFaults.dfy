/** String instructions that run into unmapped memory: where they stop, and what they leave. */
module StringFaults {
  import opened Bytes
  import opened Alu
  import opened AddressSpace
  import opened FlatMemory
  import opened Cpu
  import opened StringOps
  import opened StringFills
  import W = WideMath

  /** a is the first address of the range that is not mapped. */
  ghost predicate FirstMissing(f: Flat, at: nat, size: nat, a: nat)
  {
    at <= a < at + size && a / 4096 !in f && forall x | at <= x < a :: x / 4096 in f
  }

  lemma MissingIs(f: Flat, at: nat, size: nat, a: nat)
    requires FirstMissing(f, at, size, a)
    ensures !AllMapped(f, at, size) && Reach(f, at, size) == a - at < size
  {
    assert a / 4096 in PagesOf(at, size);
    ReachIs(f, at, size);
  }

  /** The element is read before anything else happens: nothing has changed when that faults. */
  lemma SourceFaults(fm: Form, m: Machine, a: nat)
    requires FormOk(fm) && !fm.op.Stos? && !fm.op.Scas?
    requires FirstMissing(m.flat, Addr(m.regs[RSI], fm.asize), fm.size, a)
    ensures Element(fm, m) == Faulted(m, a)
  {
    hide Reach, AllMapped, FirstMissing;
    MissingIs(m.flat, Addr(m.regs[RSI], fm.asize), fm.size, a);
  }

  /** The other side of a comparison is only read. */
  lemma ComparedFaults(fm: Form, m: Machine, a: nat)
    requires FormOk(fm) && (fm.op.Cmps? || fm.op.Scas?)
    requires FirstMissing(m.flat, Addr(m.regs[RDI], fm.asize), fm.size, a)
    requires fm.op.Cmps? ==> AllMapped(m.flat, Addr(m.regs[RSI], fm.asize), fm.size)
    ensures Element(fm, m) == Faulted(m, a)
  {
    hide Reach, AllMapped, FirstMissing;
    MissingIs(m.flat, Addr(m.regs[RDI], fm.asize), fm.size, a);
  }

  /** A store gets as far as the first byte that is not mapped; the pointers have not moved. */
  lemma StoreFaults(fm: Form, m: Machine, a: nat)
    requires FormOk(fm) && (fm.op.Movs? || fm.op.Stos?)
    requires FirstMissing(m.flat, Addr(m.regs[RDI], fm.asize), fm.size, a)
    requires fm.op.Movs? ==> AllMapped(m.flat, Addr(m.regs[RSI], fm.asize), fm.size)
    ensures var src, dst := Addr(m.regs[RSI], fm.asize), Addr(m.regs[RDI], fm.asize);
            var b := if fm.op.Movs? then Loaded(m.flat, src, fm.size) else Stuff(fm, m);
            |b| == fm.size && Element(fm, m) == Faulted(m.(flat := Stored(m.flat, dst, b[..a - dst])), a)
  {
    hide Reach, AllMapped, FirstMissing, ToLE, Stored, RegRead, Fetch;
    MissingIs(m.flat, Addr(m.regs[RDI], fm.asize), fm.size, a);
    if fm.op.Movs? {
      var b := Loaded(m.flat, Addr(m.regs[RSI], fm.asize), fm.size);
      FetchedAll(m.flat, Addr(m.regs[RSI], fm.asize), fm.size);
      ToFromLE(b);
    }
  }

  lemma FetchedAll(f: Flat, at: nat, size: nat)
    requires SizeOk(size) && AllMapped(f, at, size)
    ensures Fetch(f, at, size).Got? && Fetch(f, at, size).v == FromLE(Loaded(f, at, size))
  {
  }

  /** One turn of a repetition, which goes on. */
  ghost predicate Turn(fm: Form, m: Machine, n: Machine)
    requires FormOk(fm)
  {
    && Counter(m.regs, fm.asize) > 0 && Element(fm, m).Done? && n == Counted(Element(fm, m).m, fm)
    && !Decides(fm, n.flags.zf)
  }

  /** The machine before each of the first turns of a repeated instruction. */
  ghost predicate Turns(fm: Form, ms: seq<Machine>)
    requires FormOk(fm)
  {
    ms != [] && forall i | 0 <= i < |ms| - 1 :: Turn(fm, ms[i], ms[i + 1])
  }

  /**
    A repeated instruction that faults at its k-th element leaves what that element leaves, with the
    count of the elements still to be done, that one included: restarted there it goes on.
    */
  lemma {:induction false} RepeatFaults(fm: Form, ms: seq<Machine>, k: nat, n: Machine, a: nat)
    requires FormOk(fm) && (fm.rep || fm.repne) && Turns(fm, ms) && |ms| == k + 1
    requires Counter(ms[k].regs, fm.asize) > 0 && Element(fm, ms[k]) == Faulted(n, a)
    ensures Repeat(fm, ms[0]) == Faulted(n, a) && Repeat(fm, ms[0]) == Repeat(fm, ms[k])
    ensures Counter(n.regs, fm.asize) + k == Counter(ms[0].regs, fm.asize)
    decreases k
  {
    hide Element, Counted, Repeat, Counter, Decides, Turn;
    RepeatStep(fm, ms[k]);
    if k > 0 {
      assert Turn(fm, ms[0], ms[0 + 1]);
      Turned(fm, ms[0], ms[1]);
      var rest := ms[1..];
      forall i | 0 <= i < |rest| - 1 ensures Turn(fm, rest[i], rest[i + 1]) {
        assert Turn(fm, ms[i + 1], ms[i + 1 + 1]);
      }
      RepeatFaults(fm, rest, k - 1, n, a);
    }
  }

  lemma Turned(fm: Form, m: Machine, n: Machine)
    requires FormOk(fm) && (fm.rep || fm.repne) && Turn(fm, m, n)
    ensures Repeat(fm, m) == Repeat(fm, n) && Counter(n.regs, fm.asize) == Counter(m.regs, fm.asize) - 1
  {
    hide Element, Repeat, Decides;
    RepeatStep(fm, m);
  }
}
