/**
  Whole runs of the guest memory.  The reference is one address at a time: the value a byte
  has after a run is decided by the last operation that concerned it, with no pages, tables or
  caches in sight.
  */
module MemoryRuns {
  import opened Bytes
  import opened AddressSpace
  import opened FlatMemory
  import opened MemoryCore
  import opened GuestMemory

  datatype Op =
    | DoMap(addr: nat, size: nat)
    | DoUnmap(addr: nat, size: nat)
    | DoContiguous(addr: nat, size: nat)
    | DoWrite(addr: nat, src: seq<byte>)
    | DoRead(addr: nat, len: nat)
    | DoStore(addr: nat, size: nat, v: nat)
    | DoFetch(addr: nat, size: nat)
    | DoMark(page: nat)
    | DoReset
    | DoClone(from: seq<Op>) // clone_from() of a memory with a run of its own behind it

  /** A sized access is of 1, 2 or 4 bytes, or else of 8. */
  function Width(size: nat): nat { if size == 1 || size == 2 || size == 4 then size else 8 }

  function Apply(s: Space, op: Op): Space
    decreases op
  {
    match op
    case DoMap(a, n) => Mapped(s, a, n)
    case DoUnmap(a, n) => Unmapped(s, a, n)
    case DoContiguous(a, n) => Contiguous(s, a, n)
    case DoWrite(a, src) => Written(s, a, src[..Reach(s.flat, a, |src|)])
    case DoRead(_, _) => s
    case DoStore(a, n, v) => Written(s, a, ToLE(v, Width(n))[..Reach(s.flat, a, Width(n))])
    case DoFetch(_, _) => s
    case DoMark(_) => s
    case DoReset => EMPTY
    case DoClone(from) => Run(from)
  }

  function Run(ops: seq<Op>): Space
    decreases ops
  {
    if ops == [] then EMPTY else Apply(Run(ops[..|ops| - 1]), ops[|ops| - 1])
  }

  // ---- the reference ----------------------------------------------------------------------------

  /** The contiguous mappings in force. */
  function Extents'(ops: seq<Op>): set<Extent>
    decreases ops
  {
    if ops == [] then {} else
    var before := Extents'(ops[..|ops| - 1]);
    match ops[|ops| - 1]
    case DoMap(_, _) => before
    case DoWrite(_, _) => before
    case DoRead(_, _) => before
    case DoStore(_, _, _) => before
    case DoFetch(_, _) => before
    case DoMark(_) => before
    case DoReset => {}
    case DoClone(from) => Extents'(from)
    case DoUnmap(a, n) => if n == 0 then before else set e | e in before && !Touches(e, a, n)
    case DoContiguous(a, n) =>
      if n == 0 then before else
      var base := RoundDown(a);
      var len := RoundUp(a + n) - base;
      (set e | e in before && !Touches(e, base, len)) + if Tops(base, len) then {} else {Extent(base, len)}
  }

  datatype Cell = Absent | Present(b: byte)

  /** The byte at address x after a run: absent, zero when freshly mapped, or last written. */
  ghost function CellAfter(ops: seq<Op>, x: nat): Cell
    decreases ops
  {
    if ops == [] then Absent else
    var prev := ops[..|ops| - 1];
    var old' := CellAfter(prev, x);
    match ops[|ops| - 1]
    case DoRead(_, _) => old'
    case DoFetch(_, _) => old'
    case DoMark(_) => old'
    case DoStore(a, n, v) =>
      if a <= x < a + Width(n) && forall y | a <= y <= x :: CellAfter(prev, y).Present?
        then Present(ToLE(v, Width(n))[x - a]) else old'
    case DoReset => Absent
    case DoClone(from) => CellAfter(from, x)
    case DoMap(a, n) => if old'.Absent? && OnPage(x / 4096, a, Walked(a, n)) then Present(0) else old'
    case DoUnmap(a, n) => if Gone(Extents'(prev), a, n, x / 4096) then Absent else old'
    case DoContiguous(a, n) =>
      var base := RoundDown(a);
      var len := RoundUp(a + n) - base;
      if n == 0 then old'
      else if OnPage(x / 4096, base, len) && !Tops(base, len) then Present(0)
      else if Gone(Extents'(prev), base, len, x / 4096) then Absent
      else old'
    case DoWrite(a, src) =>
      if a <= x < a + |src| && forall y | a <= y <= x :: CellAfter(prev, y).Present? then Present(src[x - a]) else old'
  }

  /** No page is mapped underneath a contiguous mapping. */
  predicate NoUnderlay(ops: seq<Op>)
    decreases ops
  {
    ops == [] ||
    (NoUnderlay(ops[..|ops| - 1]) &&
     (ops[|ops| - 1].DoClone? ==> NoUnderlay(ops[|ops| - 1].from)) &&
     (ops[|ops| - 1].DoMap? ==>
        forall e, p | e in Extents'(ops[..|ops| - 1])
          && p in PagesOf(ops[|ops| - 1].addr, Walked(ops[|ops| - 1].addr, ops[|ops| - 1].size)) ::
          !Covers(e, p)))
  }

  predicate CellIs(f: Flat, x: nat, c: Cell)
  {
    (x / 4096 in f <==> c.Present?) && (c.Present? ==> At(f, x) == c.b)
  }

  ghost predicate Aligned(es: set<Extent>)
  {
    forall e | e in es :: e.base % 4096 == 0 && e.size % 4096 == 0
  }

  ghost predicate Plain(s: Space)
  {
    Consistent(s) && Shadowed(s.slots, s.extents) == {} && Aligned(s.extents)
    && forall e, f, p: nat | e in s.extents && f in s.extents && Covers(e, p) && Covers(f, p) :: e == f
  }

  // ---- runs without underlay stay plain -----------------------------------------------------------

  lemma PlainPage(s: Space, p: nat)
    requires Plain(s)
    ensures p in s.flat <==> p in s.slots || Covered(s.extents, p)
    ensures !(p in s.slots && Covered(s.extents, p))
  {
    assert p in Shadowed(s.slots, s.extents) <==> p in s.slots && Covered(s.extents, p);
  }

  lemma UnmappedPlain(s: Space, addr: nat, size: nat)
    requires Plain(s)
    ensures Plain(Unmapped(s, addr, size))
    ensures forall p :: p in Unmapped(s, addr, size).flat <==>
              p in s.flat && !Gone(s.extents, addr, size, p)
    ensures forall p | p in Unmapped(s, addr, size).flat :: Unmapped(s, addr, size).flat[p] == s.flat[p]
  {
    var u := Unmapped(s, addr, size);
    forall p: nat
      ensures p in u.flat <==> p in u.slots || Covered(u.extents, p)
      ensures !(p in u.slots && Covered(u.extents, p))
      ensures p in u.flat <==> p in s.flat && !Gone(s.extents, addr, size, p)
      ensures p in u.flat ==> u.flat[p] == s.flat[p]
    {
      UnmappedPage(s, addr, size, p);
    }
    assert Shadowed(u.slots, u.extents) == {};
  }

  lemma UnmappedPage(s: Space, addr: nat, size: nat, p: nat)
    requires Plain(s)
    ensures var u := Unmapped(s, addr, size);
            && (p in u.flat <==> p in u.slots || Covered(u.extents, p))
            && !(p in u.slots && Covered(u.extents, p))
            && (p in u.flat <==> p in s.flat && !Gone(s.extents, addr, size, p))
            && (p in u.flat ==> u.flat[p] == s.flat[p])
  {
    var u := Unmapped(s, addr, size);
    PlainPage(s, p);
    if Covered(s.extents, p) {
      var e :| e in s.extents && Covers(e, p);
      assert e.base % 4096 == 0 && e.size % 4096 == 0;
      assert Covered(u.extents, p) <==> e in u.extents;
    }
  }

  lemma ContiguousPlain(s: Space, addr: nat, size: nat)
    requires Plain(s) && size > 0 && !Tops(RoundDown(addr), RoundUp(addr + size) - RoundDown(addr))
    ensures Plain(Contiguous(s, addr, size))
    ensures var base := RoundDown(addr); var len := RoundUp(addr + size) - base; var c := Contiguous(s, addr, size);
            && (forall p :: p in c.flat <==> OnPage(p, base, len) || p in Unmapped(s, base, len).flat)
            && (forall p | p in c.flat ::
                c.flat[p] == if OnPage(p, base, len) then ZeroPage() else Unmapped(s, base, len).flat[p])
  {
    Rounded(addr, size);
    var base := RoundDown(addr);
    var len := RoundUp(addr + size) - base;
    hide RoundDown, RoundUp;
    UnmappedPlain(s, base, len);
    var u := Unmapped(s, base, len);
    forall p: nat | OnPage(p, base, len) ensures p !in u.flat {
      RangeGone(s, base, len, p);
    }
    var c := Contiguous(s, addr, size);
    NewExtent(u, base, len, c);
  }

  /** All of a range of whole pages goes, when it does not reach the top of the address space. */
  lemma RangeGone(s: Space, base: nat, len: nat, p: nat)
    requires Plain(s) && base % 4096 == 0 && OnPage(p, base, len) && !Tops(base, len)
    ensures Gone(s.extents, base, len, p)
  {
  }

  lemma NewExtent(u: Space, base: nat, len: nat, c: Space)
    requires Plain(u) && base % 4096 == 0 && len % 4096 == 0 && len > 0
    requires forall p | OnPage(p, base, len) :: p !in u.flat
    requires c.slots == u.slots && c.extents == u.extents + {Extent(base, len)}
    requires forall p :: p in c.flat <==> OnPage(p, base, len) || p in u.flat
    ensures Plain(c)
  {
    forall p: nat
      ensures p in c.flat <==> p in c.slots || Covered(c.extents, p)
      ensures !(p in c.slots && Covered(c.extents, p))
      ensures Covers(Extent(base, len), p) <==> OnPage(p, base, len)
    {
      PlainPage(u, p);
      if Covered(u.extents, p) {
        var e :| e in u.extents && Covers(e, p);
        assert e in c.extents;
      }
      assert Extent(base, len) in c.extents;
    }
    assert Shadowed(c.slots, c.extents) == {};
    forall e, f, p: nat | e in c.extents && f in c.extents && Covers(e, p) && Covers(f, p) ensures e == f {
      PlainPage(u, p);
      assert e in u.extents || f in u.extents ==> Covered(u.extents, p) || (e == f);
    }
  }

  lemma MappedPlain(s: Space, addr: nat, size: nat)
    requires Plain(s) && forall e, p | e in s.extents && p in PagesOf(addr, Walked(addr, size)) :: !Covers(e, p)
    ensures Plain(Mapped(s, addr, size))
  {
    var m := Mapped(s, addr, size);
    forall p: nat
      ensures (p in m.flat <==> p in m.slots || Covered(m.extents, p)) && !(p in m.slots && Covered(m.extents, p))
    {
      PlainPage(s, p);
    }
    assert Shadowed(m.slots, m.extents) == {};
  }

  lemma StepPlain(s: Space, op: Op)
    requires Plain(s)
    requires op.DoMap? ==>
               forall e, p | e in s.extents && p in PagesOf(op.addr, Walked(op.addr, op.size)) :: !Covers(e, p)
    requires op.DoClone? ==> Plain(Run(op.from))
    ensures Plain(Apply(s, op))
  {
    hide Plain, Run, Mapped, Unmapped, Contiguous;
    match op
    case DoMap(a, n) => MappedPlain(s, a, n);
    case DoUnmap(a, n) => UnmappedPlain(s, a, n);
    case DoContiguous(a, n) =>
      if n == 0 {
        ContiguousNothing(s, a);
      } else if Tops(RoundDown(a), RoundUp(a + n) - RoundDown(a)) {
        ContiguousLost(s, a, n);
        UnmappedPlain(s, RoundDown(a), RoundUp(a + n) - RoundDown(a));
      } else {
        ContiguousPlain(s, a, n);
      }
    case DoWrite(a, src) => WrittenPlain(s, a, src[..Reach(s.flat, a, |src|)]);
    case DoStore(a, n, v) => WrittenPlain(s, a, ToLE(v, Width(n))[..Reach(s.flat, a, Width(n))]);
    case DoRead(_, _) =>
    case DoFetch(_, _) =>
    case DoMark(_) =>
    case DoReset => EmptyPlain();
    case DoClone(_) =>
  }

  lemma ContiguousNothing(s: Space, a: nat)
    ensures Contiguous(s, a, 0) == s
  {
  }

  lemma ContiguousLost(s: Space, a: nat, n: nat)
    requires n > 0 && Tops(RoundDown(a), RoundUp(a + n) - RoundDown(a))
    ensures Contiguous(s, a, n) == Unmapped(s, RoundDown(a), RoundUp(a + n) - RoundDown(a))
  {
    Rounded(a, n);
  }

  lemma EmptyPlain()
    ensures Plain(EMPTY)
  {
    assert Shadowed(EMPTY.slots, EMPTY.extents) == {};
  }

  lemma WrittenPlain(s: Space, addr: nat, src: seq<byte>)
    requires Plain(s)
    ensures Plain(Written(s, addr, src)) && Written(s, addr, src).flat == Stored(s.flat, addr, src)
  {
    assert Skipped({}, addr, src) == {};
    StoredKeys(s.flat, addr, src, {});
    assert Written(s, addr, src).flat == Stored(s.flat, addr, src);
  }

  lemma {:induction false} RunPlain(ops: seq<Op>)
    requires NoUnderlay(ops)
    ensures Plain(Run(ops)) && Run(ops).extents == Extents'(ops)
    decreases ops
  {
    hide Plain, Apply;
    if ops == [] {
      EmptyPlain();
    } else {
      var prev, op := ops[..|ops| - 1], ops[|ops| - 1];
      RunPlain(prev);
      if op.DoClone? {
        RunPlain(op.from);
      }
      StepPlain(Run(prev), op);
      StepExtents(Run(prev), op);
    }
  }

  lemma StepExtents(s: Space, op: Op)
    ensures Apply(s, op).extents ==
            match op
            case DoReset => {}
            case DoClone(from) => Run(from).extents
            case DoUnmap(a, n) => (if n == 0 then s.extents else set e | e in s.extents && !Touches(e, a, n))
            case DoContiguous(a, n) =>
              (if n == 0 then s.extents else
               var base := RoundDown(a);
               var len := RoundUp(a + n) - base;
               (set e | e in s.extents && !Touches(e, base, len)) + if Tops(base, len) then {} else {Extent(base, len)})
            case _ => s.extents
  {
    if op.DoContiguous? && op.size > 0 {
      Rounded(op.addr, op.size);
    }
  }

  // ---- the value of every byte ----------------------------------------------------------------------

  lemma MapCell(s: Space, a: nat, n: nat, x: nat, c: Cell)
    requires CellIs(s.flat, x, c)
    ensures CellIs(Mapped(s, a, n).flat, x, if c.Absent? && OnPage(x / 4096, a, Walked(a, n)) then Present(0) else c)
  {
  }

  lemma UnmapCell(s: Space, a: nat, n: nat, x: nat, c: Cell)
    requires Plain(s) && CellIs(s.flat, x, c)
    ensures CellIs(Unmapped(s, a, n).flat, x, if Gone(s.extents, a, n, x / 4096) then Absent else c)
  {
    UnmappedPlain(s, a, n);
    hide Unmapped, Plain;
  }

  lemma ContiguousCell(s: Space, a: nat, n: nat, x: nat, c: Cell)
    requires Plain(s) && CellIs(s.flat, x, c) && n > 0
    ensures var base := RoundDown(a); var len := RoundUp(a + n) - base;
            CellIs(Contiguous(s, a, n).flat, x,
                   if OnPage(x / 4096, base, len) && !Tops(base, len) then Present(0)
                   else if Gone(s.extents, base, len, x / 4096) then Absent
                   else c)
  {
    hide Unmapped, Contiguous, Plain, RoundUp, RoundDown, OnPage, Tops, Gone;
    Rounded(a, n);
    UnmapCell(s, RoundDown(a), RoundUp(a + n) - RoundDown(a), x, c);
    if Tops(RoundDown(a), RoundUp(a + n) - RoundDown(a)) {
      ContiguousLost(s, a, n);
    } else {
      ContiguousPlain(s, a, n);
    }
  }

  lemma WriteCell(s: Space, a: nat, src: seq<byte>, x: nat, c: Cell)
    requires Plain(s) && CellIs(s.flat, x, c)
    ensures CellIs(Written(s, a, src).flat, x, if a <= x < a + |src| && c.Present? then Present(src[x - a]) else c)
  {
    hide Written, Plain, Stored;
    WrittenPlain(s, a, src);
    StoredAt(s.flat, a, src, x);
  }

  /** After any run that maps nothing underneath a contiguous mapping, every address is mapped
      exactly when the reference says so, and holds the byte the reference gives. */
  lemma {:induction false} CellRight(ops: seq<Op>, x: nat)
    requires NoUnderlay(ops)
    ensures CellIs(Run(ops).flat, x, CellAfter(ops, x))
    decreases ops
  {
    if ops != [] {
      var prev, op := ops[..|ops| - 1], ops[|ops| - 1];
      var s := Run(prev);
      RunPlain(prev);
      CellRight(prev, x);
      hide Plain, Run, Mapped, Unmapped, Contiguous, Written, OnPage, Touches, Covers, Gone, Walked, Tops, RoundUp,
           RoundDown;
      StepRight(ops, x);
    }
  }

  lemma StepRight(ops: seq<Op>, x: nat)
    requires ops != [] && NoUnderlay(ops)
    requires CellIs(Run(ops[..|ops| - 1]).flat, x, CellAfter(ops[..|ops| - 1], x))
    ensures CellIs(Run(ops).flat, x, CellAfter(ops, x))
    decreases ops, 1
  {
    hide Plain, Mapped, Unmapped, Contiguous, Written, ToLE, OnPage, Touches, Covers, Gone, Walked, Tops, RoundUp,
         RoundDown, Reach;
    var prev, op := ops[..|ops| - 1], ops[|ops| - 1];
    var s, c := Run(prev), CellAfter(prev, x);
    RunPlain(prev);
    match op
    case DoMap(a, n) => MapCell(s, a, n, x, c);
    case DoUnmap(a, n) => UnmapCell(s, a, n, x, c);
    case DoContiguous(a, n) => if n > 0 { ContiguousCell(s, a, n, x, c); } else { ContiguousNothing(s, a); }
    case DoWrite(a, src) => WriteRight(ops, a, src, x);
    case DoStore(a, n, v) => WriteRight(ops, a, ToLE(v, Width(n)), x);
    case DoRead(_, _) =>
    case DoFetch(_, _) =>
    case DoMark(_) =>
    case DoReset =>
    case DoClone(from) => CellRight(from, x);
  }

  /** A write, or a sized store of the same bytes, comes last. */
  lemma WriteRight(ops: seq<Op>, a: nat, src: seq<byte>, x: nat)
    requires ops != [] && NoUnderlay(ops[..|ops| - 1])
    requires var op := ops[|ops| - 1];
             op == DoWrite(a, src) || (op.DoStore? && op.addr == a && src == ToLE(op.v, Width(op.size)))
    requires CellIs(Run(ops[..|ops| - 1]).flat, x, CellAfter(ops[..|ops| - 1], x))
    ensures CellIs(Run(ops).flat, x, CellAfter(ops, x))
    decreases ops, 0
  {
    hide Plain, Written, Reach, ToLE, Mapped, Unmapped, Contiguous, Extents', OnPage, Touches, Covers, RoundUp,
         RoundDown;
    var prev := ops[..|ops| - 1];
    var s, c := Run(prev), CellAfter(prev, x);
    RunPlain(prev);
    var k := Reach(s.flat, a, |src|);
    WriteCell(s, a, src[..k], x, c);
    ReachIs(s.flat, a, |src|);
    forall y: nat ensures CellIs(s.flat, y, CellAfter(prev, y)) {
      CellRight(prev, y);
    }
    assert CellIs(s.flat, a + k, CellAfter(prev, a + k));
    if a <= x < a + |src| {
      assert x < a + k <==> forall y | a <= y <= x :: CellAfter(prev, y).Present?;
    }
  }

  // ---- the emulator's memory over a run -------------------------------------------------------------

  /**
    What a run lets the guest see: the bytes and values read, where each faulting access faulted, and which
    pages can be watched.
    */
  datatype Outcome = Quiet | Bytes(b: seq<byte>) | Word(v: nat) | Faulted(addr: nat) | Watchable(ok: bool)

  ghost function Observed(s: Space, op: Op): Outcome
  {
    match op
    case DoRead(a, n) => if AllMapped(s.flat, a, n) then Bytes(Loaded(s.flat, a, n))
      else Faulted(a + Reach(s.flat, a, n))
    case DoWrite(a, src) => (var k := Reach(s.flat, a, |src|); if k == |src| then Quiet else Faulted(a + k))
    case DoFetch(a, n) => if AllMapped(s.flat, a, Width(n)) then Word(FromLE(Loaded(s.flat, a, Width(n))))
      else Faulted(a + Reach(s.flat, a, Width(n)))
    case DoStore(a, n, _) => (var k := Reach(s.flat, a, Width(n)); if k == Width(n) then Quiet else Faulted(a + k))
    case DoMark(p) => Watchable(!Covered(s.extents, p))
    case _ => Quiet
  }

  /** The operations that take no page away: the mappings, accesses and marks that may go on under the journal. */
  predicate Additive(op: Op) { op.DoMap? || op.DoWrite? || op.DoRead? || op.DoStore? || op.DoFetch? || op.DoMark? }

  method Watch(m: Memory, page: nat) returns (o: Outcome)
    requires m.Valid()
    modifies m, m.tlb, m.tlbw
    ensures m.Valid() && m.Abs() == old(m.Abs()) && o == Observed(m.Abs(), DoMark(page))
    ensures Seen(old(m.Now()), m.Now()) && Journaled(old(m.Now()), m.Now()) && m.journalOn == old(m.journalOn)
  {
    hide Ok, TlbOk, NoEntries, Seen, Journaled, Covered, Extents;
    ghost var m0 := m.Now();
    CoveredIs(m.C(), page);
    var ok := m.MarkCodePage(page);
    SameJournal(m0, m.Now());
    o := Watchable(ok);
  }

  /** One operation on the real memory: the same outcome, and the same meaning afterwards. */
  method Perform(m: Memory, op: Op) returns (o: Outcome)
    requires m.Valid()
    modifies m, m.tlb, m.tlbw
    ensures m.Valid() && m.Abs() == Apply(old(m.Abs()), op) && o == Observed(old(m.Abs()), op)
    ensures Seen(old(m.Now()), m.Now())
    ensures Additive(op) ==> Journaled(old(m.Now()), m.Now())
    ensures m.journalOn == old(m.journalOn)
    decreases op
  {
    hide Run, Ok, TlbOk, NoEntries, Mapped, Unmapped, Contiguous, Written, Reach, AllMapped, Loaded, Covered, FromLE,
         ToLE, Seen, Journaled;
    hide Memory.Valid, Memory.Abs, Memory.Now;
    o := Quiet;
    AbsFlat(m);
    match op {
      case DoMap(a, n) => m.Map(a, n, "");
      case DoUnmap(a, n) => m.Unmap(a, n);
      case DoContiguous(a, n) => m.MapContiguous(a, n, "");
      case DoWrite(a, src) =>
        var w := m.Write(a, src);
        o := if w.WriteFault? then Faulted(w.addr) else Quiet;
      case DoRead(a, n) =>
        var r := m.Read(a, n);
        o := if r.ReadFault? then Faulted(r.addr) else Bytes(r.bytes);
      case DoStore(a, n, v) =>
        var w := m.WriteSized(a, Width(n), v);
        o := if w.WriteFault? then Faulted(w.addr) else Quiet;
      case DoFetch(a, n) =>
        var r := m.ReadSized(a, Width(n));
        o := if r.ValueFault? then Faulted(r.addr) else Word(r.v);
      case DoMark(p) =>
        o := Watch(m, p);
      case DoReset => m.Reset();
      case DoClone(from) =>
        var other, _ := Execute(from);
        m.CloneFrom(other);
    }
    AbsFlat(m);
  }

  /** From an empty memory, whatever the caches came to hold on the way. */
  method Execute(ops: seq<Op>) returns (m: Memory, seen: seq<Outcome>)
    ensures fresh(m) && fresh(m.tlb) && fresh(m.tlbw) && m.Valid() && m.Abs() == Run(ops)
    ensures |seen| == |ops| && forall i | 0 <= i < |ops| :: seen[i] == Observed(Run(ops[..i]), ops[i])
    decreases ops
  {
    m := new Memory();
    seen := [];
    hide Ok, TlbOk, NoEntries, View, Apply, Observed, Seen, Journaled;
    while |seen| < |ops|
      invariant fresh(m) && fresh(m.tlb) && fresh(m.tlbw) && m.Valid()
      invariant |seen| <= |ops| && m.Abs() == Run(ops[..|seen|])
      invariant forall i | 0 <= i < |seen| :: seen[i] == Observed(Run(ops[..i]), ops[i])
    {
      var k := |seen|;
      assert ops[..k + 1][..k] == ops[..k];
      var o := Perform(m, ops[k]);
      seen := seen + [o];
    }
    assert ops[..|ops|] == ops;
  }

  function RunFrom(s: Space, ops: seq<Op>): Space
    decreases |ops|
  {
    if ops == [] then s else Apply(RunFrom(s, ops[..|ops| - 1]), ops[|ops| - 1])
  }

  /** From any memory, with an observer or without: every watched page that changed was reported. */
  method Continue(m: Memory, ops: seq<Op>)
    requires m.Valid()
    modifies m, m.tlb, m.tlbw
    ensures m.Valid() && m.Abs() == RunFrom(old(m.Abs()), ops) && Seen(old(m.Now()), m.Now())
  {
    hide Ok, TlbOk, NoEntries, View, Apply, Observed, Seen, Journaled;
    ghost var m0, s0 := m.Now(), m.Abs();
    Later(m0, m0, m0);
    var i := 0;
    while i < |ops|
      invariant i <= |ops| && m.Valid() && m.Abs() == RunFrom(s0, ops[..i]) && Seen(m0, m.Now())
    {
      ghost var m1 := m.Now();
      assert ops[..i + 1][..i] == ops[..i];
      var o := Perform(m, ops[i]);
      Later(m0, m1, m.Now());
      i := i + 1;
    }
    assert ops[..|ops|] == ops;
  }

  // ---- running and rolling back -------------------------------------------------------------------------

  /** A block run under the journal and then rolled back: everything that was mapped is as it was.
      Accesses and fresh mappings are allowed in between; unmapping is not. */
  method RunAndRollBack(m: Memory, ops: seq<Op>)
    requires m.Valid() && forall i | 0 <= i < |ops| :: Additive(ops[i])
    modifies m, m.tlb, m.tlbw
    ensures m.Valid() && !m.journalOn
    ensures forall p | p in old(m.flat) :: p in m.flat && m.flat[p] == old(m.flat)[p]
  {
    hide Ok, TlbOk, NoEntries, View, Apply, Observed, Seen, SameOpening;
    m.JournalBegin();
    ghost var m0 := m.Now();
    Later(m0, m0, m0);
    var i := 0;
    while i < |ops|
      invariant i <= |ops| && m.Valid() && Journaled(m0, m.Now()) && m.journalOn
    {
      ghost var m1 := m.Now();
      var o := Perform(m, ops[i]);
      Later(m0, m1, m.Now());
      i := i + 1;
    }
    ghost var m2 := m.Now();
    m.JournalEnd();
    m.RollBack();
    Restored(m0, m2, m.flat);
  }

  lemma Restored(a: Moment, b: Moment, f: Flat)
    requires Journaled(a, b) && a.journalOn && a.journal == map[]
    requires f.Keys == b.flat.Keys && forall p | p in f :: f[p] == Opening(b.flat, b.journal, p)
    ensures forall p | p in a.flat :: p in f && f[p] == a.flat[p]
  {
  }
}
