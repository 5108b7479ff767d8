/** The state file field by field: what each record holds, in which order and how wide. */
module StateLayout {
  import opened Bytes
  import opened Stream
  import opened StateRecords
  import opened SavedState

  /** One number, several of the same width, or bytes as they are. */
  datatype Field = Num(width: nat, v: nat) | Nums(width: nat, vs: seq<nat>) | Raw(s: seq<byte>)

  function NumsOn(width: nat, vs: seq<nat>, t: seq<byte>): seq<byte>
  {
    if vs == [] then t else ToLE(vs[0], width) + NumsOn(width, vs[1..], t)
  }

  function FieldOn(f: Field, t: seq<byte>): seq<byte>
  {
    match f
    case Num(w, v) => ToLE(v, w) + t
    case Nums(w, vs) => NumsOn(w, vs, t)
    case Raw(s) => s + t
  }

  /** The fields, one after the other, and then t. */
  function Laid(fs: seq<Field>, t: seq<byte>): seq<byte> { if fs == [] then t else FieldOn(fs[0], Laid(fs[1..], t)) }

  function Truth(b: bool): nat { if b then 1 else 0 }

  function Truths(bs: seq<bool>): seq<nat> { seq(|bs|, i requires 0 <= i < |bs| => Truth(bs[i])) }

  /** Two's complement. */
  function Word(v: i32): nat { if v < 0 then v + 0x1_0000_0000 else v }

  /** A list of address ranges as the numbers it is written as. */
  function Ends(rs: seq<Range>): seq<nat> { if rs == [] then [] else [rs[0].0 as nat, rs[0].1 as nat] + Ends(rs[1..]) }

  // ---- the fields are laid one by one ------------------------------------------------------------------

  lemma LaidOne(fs: seq<Field>, i: nat, t: seq<byte>)
    requires i < |fs|
    ensures Laid(fs[i..], t) == FieldOn(fs[i], Laid(fs[i + 1..], t))
  {
    assert fs[i..][1..] == fs[i + 1..];
  }

  lemma LaidFour(fs: seq<Field>, i: nat, t: seq<byte>)
    requires i + 4 <= |fs|
    ensures Laid(fs[i..], t) ==
              FieldOn(fs[i], FieldOn(fs[i + 1], FieldOn(fs[i + 2], FieldOn(fs[i + 3], Laid(fs[i + 4..], t)))))
  {
    LaidOne(fs, i, t);
    LaidOne(fs, i + 1, t);
    LaidOne(fs, i + 2, t);
    LaidOne(fs, i + 3, t);
  }

  lemma LaidEnds(fs: seq<Field>, t: seq<byte>)
    ensures fs[0..] == fs && Laid(fs[|fs|..], t) == t
  {
  }

  lemma {:induction false} WordsLaid(xs: seq<u64>, t: seq<byte>)
    ensures PutWords(xs, t) == NumsOn(8, xs, t) && PutAll(PutU64, xs, t) == NumsOn(8, xs, t)
  {
    if xs != [] {
      WordsLaid(xs[1..], t);
    }
  }

  lemma {:induction false} FlagsLaid(xs: seq<bool>, t: seq<byte>)
    ensures PutFlags(xs, t) == NumsOn(1, Truths(xs), t)
  {
    if xs != [] {
      FlagsLaid(xs[1..], t);
      assert Truths(xs)[1..] == Truths(xs[1..]);
    }
  }

  lemma {:induction false} RangesLaid(rs: seq<Range>, t: seq<byte>)
    ensures PutAll(PutRange, rs, t) == NumsOn(8, Ends(rs), t)
  {
    if rs != [] {
      RangesLaid(rs[1..], t);
      var e := Ends(rs);
      assert e[1..] == [rs[0].1 as nat] + Ends(rs[1..]) && e[1..][1..] == Ends(rs[1..]);
    }
  }

  lemma WordIs(v: i32)
    ensures v % 0x1_0000_0000 == Word(v)
  {
  }

  // ---- the records -------------------------------------------------------------------------------------

  function CpuContext(c: CpuState): seq<Field>
  {
    var x := c.context;
    [Nums(8, x.regs), Nums(8, x.xmm), Num(4, x.mxcsr), Nums(8, x.st), Nums(1, Truths(x.stUsed)), Num(4, Word(x.stTop)),
     Num(2, x.fpuControl), Num(2, x.fpuStatus), Num(8, x.rip), Num(8, x.rflags), Num(8, x.fsBase), Num(8, x.gsBase)]
  }

  function CpuRest(c: CpuState): seq<Field>
  {
    [Num(2, c.fsSelector), Num(2, c.gsSelector), Num(8, c.executed), Num(1, Truth(c.halted)), Num(4, Word(c.exitCode))]
  }

  /** The runs of words and flags of a context. */
  lemma ContextLaid(x: Context)
    ensures forall u: seq<byte> :: PutWords(x.regs, u) == NumsOn(8, x.regs, u)
    ensures forall u: seq<byte> :: PutWords(x.xmm, u) == NumsOn(8, x.xmm, u)
    ensures forall u: seq<byte> :: PutWords(x.st, u) == NumsOn(8, x.st, u)
    ensures forall u: seq<byte> :: PutFlags(x.stUsed, u) == NumsOn(1, Truths(x.stUsed), u)
  {
    forall u: seq<byte>
      ensures PutWords(x.regs, u) == NumsOn(8, x.regs, u)
      ensures PutWords(x.xmm, u) == NumsOn(8, x.xmm, u)
      ensures PutWords(x.st, u) == NumsOn(8, x.st, u)
      ensures PutFlags(x.stUsed, u) == NumsOn(1, Truths(x.stUsed), u)
    {
      WordsLaid(x.regs, u);
      WordsLaid(x.xmm, u);
      WordsLaid(x.st, u);
      FlagsLaid(x.stUsed, u);
    }
  }

  /** The processor. */
  lemma CpuLayout(c: CpuState, t: seq<byte>)
    ensures PutCpu(c, t) == Laid(CpuContext(c) + CpuRest(c), t)
  {
    hide ToLE, NumsOn, PutWords, PutFlags, Laid, Truths, CpuRest;
    LaidBoth(CpuContext(c), CpuRest(c), t);
    CpuRestLaid(c, t);
    var fs, u := CpuContext(c), Laid(CpuRest(c), t);
    ContextLaid(c.context);
    WordIs(c.context.stTop);
    LaidEnds(fs, u);
    LaidFour(fs, 0, u);
    LaidFour(fs, 4, u);
    LaidFour(fs, 8, u);
  }

  lemma CpuRestLaid(c: CpuState, t: seq<byte>)
    ensures PutU16(c.fsSelector, PutU16(c.gsSelector, PutU64(c.executed, PutBool(c.halted, PutI32(c.exitCode, t))))) ==
            Laid(CpuRest(c), t)
  {
    hide ToLE, Laid;
    var fs := CpuRest(c);
    WordIs(c.exitCode);
    LaidEnds(fs, t);
    LaidFour(fs, 0, t);
    LaidOne(fs, 4, t);
  }

  lemma {:induction false} LaidBoth(a: seq<Field>, b: seq<Field>, t: seq<byte>)
    ensures Laid(a + b, t) == Laid(a, Laid(b, t))
  {
    if a == [] {
      assert a + b == b;
    } else {
      assert (a + b)[1..] == a[1..] + b;
      LaidBoth(a[1..], b, t);
    }
  }

  function ThreadContext(h: Thread): seq<Field>
  {
    var x := h.context;
    [Num(4, h.id), Num(8, h.handle), Nums(8, x.regs), Nums(8, x.xmm), Nums(8, x.st), Nums(1, Truths(x.stUsed)),
     Num(4, Word(x.stTop)), Num(2, x.fpuControl), Num(2, x.fpuStatus), Num(4, x.mxcsr), Num(8, x.rip), Num(8, x.rflags),
     Num(8, x.fsBase), Num(8, x.gsBase)]
  }

  function ThreadRest(h: Thread): seq<Field>
  {
    [Num(8, h.stackBase), Num(8, h.stackSize), Num(8, h.teb), Num(8, h.tlsArray), Num(8, |h.tlsSlots|),
     Nums(8, h.tlsSlots), Num(1, h.state), Num(4, h.exitCode), Num(8, h.waitHandle), Num(8, h.wakeAt),
     Num(8, h.clearChildTid)]
  }

  /** A thread. */
  lemma ThreadLayout(h: Thread, t: seq<byte>)
    ensures PutThread(h, t) == Laid(ThreadContext(h) + ThreadRest(h), t)
  {
    hide ToLE, NumsOn, PutWords, PutFlags, PutList, Laid, Truths, ThreadRest;
    LaidBoth(ThreadContext(h), ThreadRest(h), t);
    ThreadRestLaid(h, t);
    var fs, u := ThreadContext(h), Laid(ThreadRest(h), t);
    ContextLaid(h.context);
    WordIs(h.context.stTop);
    LaidEnds(fs, u);
    LaidFour(fs, 0, u);
    LaidFour(fs, 4, u);
    LaidFour(fs, 8, u);
    LaidOne(fs, 12, u);
    LaidOne(fs, 13, u);
  }

  lemma ThreadRestLaid(h: Thread, t: seq<byte>)
    ensures PutU64(h.stackBase, PutU64(h.stackSize, PutU64(h.teb, PutU64(h.tlsArray, PutList(PutU64, h.tlsSlots,
            PutU8(h.state, PutU32(h.exitCode, PutU64(h.waitHandle, PutU64(h.wakeAt,
            PutU64(h.clearChildTid, t)))))))))) == Laid(ThreadRest(h), t)
  {
    hide ToLE, NumsOn, PutAll, Laid;
    var fs := ThreadRest(h);
    forall u: seq<byte> ensures PutAll(PutU64, h.tlsSlots, u) == NumsOn(8, h.tlsSlots, u) {
      WordsLaid(h.tlsSlots, u);
    }
    LaidEnds(fs, t);
    LaidFour(fs, 0, t);
    LaidFour(fs, 4, t);
    LaidOne(fs, 8, t);
    LaidOne(fs, 9, t);
    LaidOne(fs, 10, t);
  }

  function AlloWindow(a: Allo): seq<Field>
  {
    [Num(8, a.stackBase), Num(8, a.stackSize), Num(8, a.stackTop), Num(8, a.heapBase), Num(8, a.heapNext),
     Num(8, a.heapLimit), Num(8, a.mmapNext), Num(8, a.mmapLimit), Num(1, Truth(a.noReuse)), Num(8, |a.free|),
     Nums(8, Ends(a.free))]
  }

  function AlloRest(a: Allo, order: seq<Range>): seq<Field>
  {
    [Num(8, |order|), Nums(8, Ends(order)), Num(8, a.miscBase), Num(8, a.miscNext), Num(8, a.brk), Num(8, a.teb),
     Num(8, a.errnoAddress), Num(8, a.lconvAddress), Num(8, a.tlsArray), Num(4, a.nextTlsSlot), Num(8, a.lastError)]
  }

  /** The allocators. */
  lemma AlloLayout(a: Allo, order: seq<Range>, t: seq<byte>)
    requires Counted(a.free) && Counted(order)
    ensures PutAllo(a, order, t) == Laid(AlloWindow(a) + AlloRest(a, order), t)
  {
    hide ToLE, NumsOn, PutRange, PutAll, Laid, Ends, AlloRest;
    LaidBoth(AlloWindow(a), AlloRest(a, order), t);
    AlloRestLaid(a, order, t);
    var fs, u := AlloWindow(a), Laid(AlloRest(a, order), t);
    forall v: seq<byte> ensures PutAll(PutRange, a.free, v) == NumsOn(8, Ends(a.free), v) {
      RangesLaid(a.free, v);
    }
    LaidEnds(fs, u);
    LaidFour(fs, 0, u);
    LaidFour(fs, 4, u);
    LaidOne(fs, 8, u);
    LaidOne(fs, 9, u);
    LaidOne(fs, 10, u);
  }

  lemma AlloRestLaid(a: Allo, order: seq<Range>, t: seq<byte>)
    requires Counted(order)
    ensures PutList(PutRange, order, PutU64(a.miscBase, PutU64(a.miscNext, PutU64(a.brk, PutU64(a.teb,
            PutU64(a.errnoAddress, PutU64(a.lconvAddress, PutU64(a.tlsArray, PutU32(a.nextTlsSlot,
            PutU64(a.lastError, t)))))))))) == Laid(AlloRest(a, order), t)
  {
    hide ToLE, NumsOn, PutRange, PutAll, Laid, Ends;
    var fs := AlloRest(a, order);
    forall v: seq<byte> ensures PutAll(PutRange, order, v) == NumsOn(8, Ends(order), v) {
      RangesLaid(order, v);
    }
    LaidEnds(fs, t);
    LaidFour(fs, 0, t);
    LaidFour(fs, 4, t);
    LaidOne(fs, 8, t);
    LaidOne(fs, 9, t);
    LaidOne(fs, 10, t);
  }

  /** The threads, before the records themselves. */
  lemma ThreadsLayout(s: Threads, t: seq<byte>)
    requires Counted(s.list)
    ensures PutThreads(s, t) ==
            Laid([Num(8, |s.list|), Num(8, s.current), Num(4, s.nextId)], PutAll(PutThread, s.list, t))
  {
    hide ToLE, PutAll, Laid;
    var fs, u := [Num(8, |s.list|), Num(8, s.current), Num(4, s.nextId)], PutAll(PutThread, s.list, t);
    LaidEnds(fs, u);
    LaidOne(fs, 0, u);
    LaidOne(fs, 1, u);
    LaidOne(fs, 2, u);
  }

  /** A waitable object, and a named one. */
  lemma SyncLayout(e: SyncEntry, n: NameEntry, t: seq<byte>)
    ensures PutSync(e, t) ==
            Laid([Num(8, e.0), Num(1, e.1.kind), Num(1, Truth(e.1.manualReset)), Num(1, Truth(e.1.signalled)),
                  Num(8, e.1.count), Num(4, e.1.owner), Num(8, e.1.recursion)], t)
    ensures PutName(n, t) == Laid([Num(8, |n.0|), Raw(n.0), Num(8, n.1)], t)
  {
    hide ToLE, Laid;
    var fs := [Num(8, e.0), Num(1, e.1.kind), Num(1, Truth(e.1.manualReset)), Num(1, Truth(e.1.signalled)),
               Num(8, e.1.count), Num(4, e.1.owner), Num(8, e.1.recursion)];
    var gs := [Num(8, |n.0|), Raw(n.0), Num(8, n.1)];
    LaidEnds(fs, t);
    LaidFour(fs, 0, t);
    LaidOne(fs, 4, t);
    LaidOne(fs, 5, t);
    LaidOne(fs, 6, t);
    LaidEnds(gs, t);
    LaidOne(gs, 0, t);
    LaidOne(gs, 1, t);
    LaidOne(gs, 2, t);
  }

  function FdFields(d: Fd): seq<Field>
  {
    [Num(4, Word(d.fd)), Num(8, |d.path|), Raw(d.path), Num(1, Truth(d.readable)), Num(1, Truth(d.writable)),
     Num(1, Truth(d.append)), Num(1, Truth(d.standard)), Num(1, Truth(d.tty))]
  }

  function FdRest(d: Fd): seq<Field>
  {
    [Num(1, Truth(d.directory)), Num(1, Truth(d.text)), Num(1, d.wideIo), Num(1, Truth(d.cloexec)),
     Num(1, Truth(d.closed)), Num(8, d.at)]
  }

  /** A descriptor. */
  lemma FdLayout(d: Fd, t: seq<byte>)
    ensures PutFd(d, t) == Laid(FdFields(d) + FdRest(d), t)
  {
    hide ToLE, Laid, FdRest;
    LaidBoth(FdFields(d), FdRest(d), t);
    FdRestLaid(d, t);
    var fs, u := FdFields(d), Laid(FdRest(d), t);
    WordIs(d.fd);
    LaidEnds(fs, u);
    LaidFour(fs, 0, u);
    LaidFour(fs, 4, u);
  }

  lemma FdRestLaid(d: Fd, t: seq<byte>)
    ensures PutBool(d.directory, PutBool(d.text, PutU8(d.wideIo, PutBool(d.cloexec, PutBool(d.closed,
            PutU64(d.at, t)))))) == Laid(FdRest(d), t)
  {
    hide ToLE, Laid;
    var fs := FdRest(d);
    LaidEnds(fs, t);
    LaidFour(fs, 0, t);
    LaidOne(fs, 4, t);
    LaidOne(fs, 5, t);
  }

  /** A region, and a carried page. */
  lemma PlaceLayout(p: Place, g: WholePage, t: seq<byte>)
    ensures PutPlace(p, t) ==
            Laid([Num(8, p.base), Num(8, p.size), Num(8, |p.name|), Raw(p.name), Num(8, |p.file|), Raw(p.file),
                  Num(8, p.fileOffset), Num(1, Truth(p.contiguous))], t)
    ensures PutPage(g, t) == Laid([Num(8, g.index), Raw(g.bytes)], t)
  {
    hide ToLE, Laid;
    var fs := [Num(8, p.base), Num(8, p.size), Num(8, |p.name|), Raw(p.name), Num(8, |p.file|), Raw(p.file),
               Num(8, p.fileOffset), Num(1, Truth(p.contiguous))];
    var gs := [Num(8, g.index), Raw(g.bytes)];
    LaidEnds(fs, t);
    LaidFour(fs, 0, t);
    LaidFour(fs, 4, t);
    LaidEnds(gs, t);
    LaidOne(gs, 0, t);
    LaidOne(gs, 1, t);
  }

  /** The header of the file, and a section of it. */
  lemma FileLayout(s: Section, t: seq<byte>)
    ensures PutHeader(t) == Laid([Raw(MAGIC), Num(4, 1), Num(4, 0)], t)
    ensures PutSection(s, t) == Laid([Num(4, s.tag), Num(8, |s.body|), Raw(s.body)], t)
  {
    hide ToLE, Laid;
    var fs := [Raw(MAGIC), Num(4, 1), Num(4, 0)];
    var gs := [Num(4, s.tag), Num(8, |s.body|), Raw(s.body)];
    LaidEnds(fs, t);
    LaidOne(fs, 0, t);
    LaidOne(fs, 1, t);
    LaidOne(fs, 2, t);
    LaidEnds(gs, t);
    LaidOne(gs, 0, t);
    LaidOne(gs, 1, t);
    LaidOne(gs, 2, t);
  }

  lemma LaidPair(f: Field, g: Field, t: seq<byte>)
    ensures Laid([f], t) == FieldOn(f, t) && Laid([f, g], t) == FieldOn(f, FieldOn(g, t))
  {
    assert [f][1..] == [] && [f, g][1..] == [g] && [g][1..] == [];
  }

  /** The waitable objects and their names. */
  lemma SyncsLayout(s: Syncs, objects: seq<SyncEntry>, names: seq<NameEntry>, t: seq<byte>)
    requires Counted(objects) && Counted(names)
    ensures PutSyncs(s, objects, names, t) ==
            Laid([Num(8, |objects|)], PutAll(PutSync, objects,
                 Laid([Num(8, s.nextHandle), Num(8, |names|)], PutAll(PutName, names, t))))
  {
    hide ToLE, PutAll, Laid;
    var u := PutAll(PutName, names, t);
    LaidPair(Num(8, s.nextHandle), Num(8, |names|), u);
    LaidPair(Num(8, |objects|), Num(8, 0),
             PutAll(PutSync, objects, Laid([Num(8, s.nextHandle), Num(8, |names|)], u)));
  }

  /** The carried pages, and the list of those left to files. */
  lemma PagesLayout(p: Pages, t: seq<byte>)
    requires Counted(p.kept) && Counted(p.fromFile)
    ensures PutPages(p, t) ==
            Laid([Num(8, |p.kept|)], PutAll(PutPage, p.kept, Laid([Num(8, |p.fromFile|), Nums(8, p.fromFile)], t)))
  {
    hide ToLE, PutAll, Laid;
    WordsLaid(p.fromFile, t);
    LaidPair(Num(8, |p.fromFile|), Nums(8, p.fromFile), t);
    LaidPair(Num(8, |p.kept|), Num(8, 0),
             PutAll(PutPage, p.kept, Laid([Num(8, |p.fromFile|), Nums(8, p.fromFile)], t)));
  }

  /** The order of the sections. */
  lemma SectionsInOrder(m: Machine)
    requires Writable(m)
    ensures |File(m)| == 8
    ensures forall i | 0 <= i < 8 :: File(m)[i].tag == [CPU, ALLO, THRD, SYNC, FDS, REGN, MAPD, PAGE][i]
  {
  }
}
