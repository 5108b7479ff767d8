/** save_state() and load_state() as they run: field by field, through a writer and a reader. */
module StateIO {
  import opened Bytes
  import opened Wrappers
  import opened Stream
  import opened StateRecords
  import opened AddressSpace
  import G = GuestMemory
  import opened Snapshot
  import opened SavedState

  // ---- writing records ------------------------------------------------------------------------------

  method WriteWords(w: Writer, xs: seq<u64>)
    modifies w
    ensures forall t: seq<byte> {:trigger Upto(w.buf, t)} :: Upto(w.buf, t) == Upto(old(w.buf), PutWords(xs, t))
  {
    hide PutU64, Upto;
    ghost var b := w.buf;
    for i := 0 to |xs|
      invariant forall t: seq<byte> :: Upto(w.buf, PutWords(xs[i..], t)) == Upto(b, PutWords(xs, t))
    {
      assert xs[i..][0] == xs[i] && xs[i..][1..] == xs[i + 1..];
      w.U64(xs[i]);
    }
    assert forall t: seq<byte> :: PutWords(xs[|xs|..], t) == t;
  }

  method WriteFlags(w: Writer, xs: seq<bool>)
    modifies w
    ensures forall t: seq<byte> {:trigger Upto(w.buf, t)} :: Upto(w.buf, t) == Upto(old(w.buf), PutFlags(xs, t))
  {
    hide PutBool, Upto;
    ghost var b := w.buf;
    for i := 0 to |xs|
      invariant forall t: seq<byte> :: Upto(w.buf, PutFlags(xs[i..], t)) == Upto(b, PutFlags(xs, t))
    {
      assert xs[i..][0] == xs[i] && xs[i..][1..] == xs[i + 1..];
      w.Bool(xs[i]);
    }
    assert forall t: seq<byte> :: PutFlags(xs[|xs|..], t) == t;
  }

  method WriteCpu(w: Writer, c: CpuState)
    modifies w
    ensures forall t: seq<byte> {:trigger Upto(w.buf, t)} :: Upto(w.buf, t) == Upto(old(w.buf), PutCpu(c, t))
  {
    hide Upto, PutWords, PutFlags, PutU16, PutU32, PutU64, PutI32, PutBool;
    var x := c.context;
    WriteWords(w, x.regs);
    WriteWords(w, x.xmm);
    w.U32(x.mxcsr);
    WriteWords(w, x.st);
    WriteFlags(w, x.stUsed);
    w.I32(x.stTop);
    w.U16(x.fpuControl);
    w.U16(x.fpuStatus);
    w.U64(x.rip);
    w.U64(x.rflags);
    w.U64(x.fsBase);
    w.U64(x.gsBase);
    w.U16(c.fsSelector);
    w.U16(c.gsSelector);
    w.U64(c.executed);
    w.Bool(c.halted);
    w.I32(c.exitCode);
  }

  method WriteU64s(w: Writer, xs: seq<u64>)
    requires Counted(xs)
    modifies w
    ensures forall t: seq<byte> {:trigger Upto(w.buf, t)} :: Upto(w.buf, t) == Upto(old(w.buf), PutList(PutU64, xs, t))
  {
    hide PutU8, PutU32, PutU64, PutI32, PutBool, PutText, PutRaw, Upto;
    ghost var b := w.buf;
    w.U64(|xs|);
    for i := 0 to |xs|
      invariant forall t: seq<byte> :: Upto(w.buf, PutAll(PutU64, xs[i..], t)) == Upto(b, PutList(PutU64, xs, t))
    {
      assert xs[i..][0] == xs[i] && xs[i..][1..] == xs[i + 1..];
      w.U64(xs[i]);
    }
    assert forall t: seq<byte> :: PutAll(PutU64, xs[|xs|..], t) == t;
  }

  method WriteRanges(w: Writer, xs: seq<Range>)
    requires Counted(xs)
    modifies w
    ensures forall t: seq<byte> {:trigger Upto(w.buf, t)} ::
              Upto(w.buf, t) == Upto(old(w.buf), PutList(PutRange, xs, t))
  {
    hide PutU8, PutU32, PutU64, PutI32, PutBool, PutText, PutRaw, Upto;
    ghost var b := w.buf;
    w.U64(|xs|);
    for i := 0 to |xs|
      invariant forall t: seq<byte> :: Upto(w.buf, PutAll(PutRange, xs[i..], t)) == Upto(b, PutList(PutRange, xs, t))
    {
      assert xs[i..][0] == xs[i] && xs[i..][1..] == xs[i + 1..];
      w.U64(xs[i].0);
      w.U64(xs[i].1);
    }
    assert forall t: seq<byte> :: PutAll(PutRange, xs[|xs|..], t) == t;
  }

  method WriteObjects(w: Writer, xs: seq<SyncEntry>)
    requires Counted(xs)
    modifies w
    ensures forall t: seq<byte> {:trigger Upto(w.buf, t)} :: Upto(w.buf, t) == Upto(old(w.buf), PutList(PutSync, xs, t))
  {
    hide PutU8, PutU32, PutU64, PutI32, PutBool, PutText, PutRaw, Upto;
    ghost var b := w.buf;
    w.U64(|xs|);
    for i := 0 to |xs|
      invariant forall t: seq<byte> :: Upto(w.buf, PutAll(PutSync, xs[i..], t)) == Upto(b, PutList(PutSync, xs, t))
    {
      assert xs[i..][0] == xs[i] && xs[i..][1..] == xs[i + 1..];
      var o := xs[i].1;
      w.U64(xs[i].0);
      w.U8(o.kind);
      w.Bool(o.manualReset);
      w.Bool(o.signalled);
      w.U64(o.count);
      w.U32(o.owner);
      w.U64(o.recursion);
    }
    assert forall t: seq<byte> :: PutAll(PutSync, xs[|xs|..], t) == t;
  }

  method WriteNames(w: Writer, xs: seq<NameEntry>)
    requires Counted(xs)
    modifies w
    ensures forall t: seq<byte> {:trigger Upto(w.buf, t)} :: Upto(w.buf, t) == Upto(old(w.buf), PutList(PutName, xs, t))
  {
    hide PutU8, PutU32, PutU64, PutI32, PutBool, PutText, PutRaw, Upto;
    ghost var b := w.buf;
    w.U64(|xs|);
    for i := 0 to |xs|
      invariant forall t: seq<byte> :: Upto(w.buf, PutAll(PutName, xs[i..], t)) == Upto(b, PutList(PutName, xs, t))
    {
      assert xs[i..][0] == xs[i] && xs[i..][1..] == xs[i + 1..];
      w.Str(xs[i].0);
      w.U64(xs[i].1);
    }
    assert forall t: seq<byte> :: PutAll(PutName, xs[|xs|..], t) == t;
  }

  method WriteFd(w: Writer, e: Fd)
    modifies w
    ensures forall t: seq<byte> {:trigger Upto(w.buf, t)} :: Upto(w.buf, t) == Upto(old(w.buf), PutFd(e, t))
  {
    hide PutU8, PutU64, PutI32, PutBool, PutText, Upto;
    w.I32(e.fd);
    w.Str(e.path);
    w.Bool(e.readable);
    w.Bool(e.writable);
    w.Bool(e.append);
    w.Bool(e.standard);
    w.Bool(e.tty);
    w.Bool(e.directory);
    w.Bool(e.text);
    w.U8(e.wideIo);
    w.Bool(e.cloexec);
    w.Bool(e.closed);
    w.U64(e.at);
  }

  method WriteFds(w: Writer, xs: seq<Fd>)
    requires Counted(xs)
    modifies w
    ensures forall t: seq<byte> {:trigger Upto(w.buf, t)} :: Upto(w.buf, t) == Upto(old(w.buf), PutList(PutFd, xs, t))
  {
    hide PutU64, PutFd, Upto;
    ghost var b := w.buf;
    w.U64(|xs|);
    for i := 0 to |xs|
      invariant forall t: seq<byte> :: Upto(w.buf, PutAll(PutFd, xs[i..], t)) == Upto(b, PutList(PutFd, xs, t))
    {
      assert xs[i..][0] == xs[i] && xs[i..][1..] == xs[i + 1..];
      WriteFd(w, xs[i]);
    }
    assert forall t: seq<byte> :: PutAll(PutFd, xs[|xs|..], t) == t;
  }

  method WritePlaces(w: Writer, xs: seq<Place>)
    requires Counted(xs)
    modifies w
    ensures forall t: seq<byte> {:trigger Upto(w.buf, t)} ::
              Upto(w.buf, t) == Upto(old(w.buf), PutList(PutPlace, xs, t))
  {
    hide PutU8, PutU32, PutU64, PutI32, PutBool, PutText, PutRaw, Upto;
    ghost var b := w.buf;
    w.U64(|xs|);
    for i := 0 to |xs|
      invariant forall t: seq<byte> :: Upto(w.buf, PutAll(PutPlace, xs[i..], t)) == Upto(b, PutList(PutPlace, xs, t))
    {
      assert xs[i..][0] == xs[i] && xs[i..][1..] == xs[i + 1..];
      var r := xs[i];
      w.U64(r.base);
      w.U64(r.size);
      w.Str(r.name);
      w.Str(r.file);
      w.U64(r.fileOffset);
      w.Bool(r.contiguous);
    }
    assert forall t: seq<byte> :: PutAll(PutPlace, xs[|xs|..], t) == t;
  }

  method WriteCarried(w: Writer, xs: seq<WholePage>)
    requires Counted(xs)
    modifies w
    ensures forall t: seq<byte> {:trigger Upto(w.buf, t)} :: Upto(w.buf, t) == Upto(old(w.buf), PutList(PutPage, xs, t))
  {
    hide PutU8, PutU32, PutU64, PutI32, PutBool, PutText, PutRaw, Upto;
    ghost var b := w.buf;
    w.U64(|xs|);
    for i := 0 to |xs|
      invariant forall t: seq<byte> :: Upto(w.buf, PutAll(PutPage, xs[i..], t)) == Upto(b, PutList(PutPage, xs, t))
    {
      assert xs[i..][0] == xs[i] && xs[i..][1..] == xs[i + 1..];
      w.U64(xs[i].index);
      w.Raw(xs[i].bytes);
    }
    assert forall t: seq<byte> :: PutAll(PutPage, xs[|xs|..], t) == t;
  }

  method WriteThread(w: Writer, h: Thread)
    modifies w
    ensures forall t: seq<byte> {:trigger Upto(w.buf, t)} :: Upto(w.buf, t) == Upto(old(w.buf), PutThread(h, t))
  {
    hide Upto, PutWords, PutFlags, PutU8, PutU16, PutU32, PutU64, PutI32, PutList;
    var x := h.context;
    w.U32(h.id);
    w.U64(h.handle);
    WriteWords(w, x.regs);
    WriteWords(w, x.xmm);
    WriteWords(w, x.st);
    WriteFlags(w, x.stUsed);
    w.I32(x.stTop);
    w.U16(x.fpuControl);
    w.U16(x.fpuStatus);
    w.U32(x.mxcsr);
    w.U64(x.rip);
    w.U64(x.rflags);
    w.U64(x.fsBase);
    w.U64(x.gsBase);
    w.U64(h.stackBase);
    w.U64(h.stackSize);
    w.U64(h.teb);
    w.U64(h.tlsArray);
    WriteU64s(w, h.tlsSlots);
    w.U8(h.state);
    w.U32(h.exitCode);
    w.U64(h.waitHandle);
    w.U64(h.wakeAt);
    w.U64(h.clearChildTid);
  }

  method WriteThreads(w: Writer, guests: seq<Guest>, current: u64, nextId: u32, cpu: CpuState)
    requires Counted(guests)
    modifies w
    ensures forall t: seq<byte> {:trigger Upto(w.buf, t)} ::
              Upto(w.buf, t) == Upto(old(w.buf), PutThreads(Threads(Records(guests, current, cpu), current, nextId), t))
  {
    hide PutU32, PutU64, Upto, PutAll, Records;
    w.U64(|guests|);
    w.U64(current);
    w.U32(nextId);
    WriteThreadList(w, guests, current, cpu);
  }

  method WriteThreadList(w: Writer, guests: seq<Guest>, current: u64, cpu: CpuState)
    modifies w
    ensures forall t: seq<byte> {:trigger Upto(w.buf, t)} ::
              Upto(w.buf, t) == Upto(old(w.buf), PutAll(PutThread, Records(guests, current, cpu), t))
  {
    hide Upto, PutThread, PutAll, Record, Records;
    ghost var b, rs := w.buf, Records(guests, current, cpu);
    assert rs[0..] == rs;
    for i := 0 to |guests|
      invariant forall t: seq<byte> :: Upto(w.buf, PutAll(PutThread, rs[i..], t)) == Upto(b, PutAll(PutThread, rs, t))
    {
      RecordAt(guests, current, cpu, i);
      ghost var done := w.buf;
      WriteThread(w, Record(guests[i], i == current, cpu));
      forall t: seq<byte> ensures Upto(w.buf, PutAll(PutThread, rs[i + 1..], t)) == Upto(b, PutAll(PutThread, rs, t)) {
        ThreadsStep(rs, i, t);
      }
    }
    forall t: seq<byte> ensures Upto(w.buf, t) == Upto(b, PutAll(PutThread, rs, t)) {
      ThreadsEnd(rs, t);
    }
  }

  lemma ThreadsStep(rs: seq<Thread>, i: nat, t: seq<byte>)
    requires i < |rs|
    ensures PutAll(PutThread, rs[i..], t) == PutThread(rs[i], PutAll(PutThread, rs[i + 1..], t))
  {
    assert rs[i..][1..] == rs[i + 1..];
  }

  lemma ThreadsEnd(rs: seq<Thread>, t: seq<byte>)
    ensures PutAll(PutThread, rs[|rs|..], t) == t
  {
  }

  lemma RecordAt(guests: seq<Guest>, current: u64, cpu: CpuState, i: nat)
    requires i < |guests|
    ensures Records(guests, current, cpu)[i] == Record(guests[i], i == current, cpu)
  {
  }

  method WriteAllo(w: Writer, a: Allo, live: seq<Range>)
    requires Counted(a.free) && Counted(live)
    modifies w
    ensures forall t: seq<byte> {:trigger Upto(w.buf, t)} :: Upto(w.buf, t) == Upto(old(w.buf), PutAllo(a, live, t))
  {
    hide Upto, PutU32, PutU64, PutBool, PutList;
    w.U64(a.stackBase);
    w.U64(a.stackSize);
    w.U64(a.stackTop);
    w.U64(a.heapBase);
    w.U64(a.heapNext);
    w.U64(a.heapLimit);
    w.U64(a.mmapNext);
    w.U64(a.mmapLimit);
    w.Bool(a.noReuse);
    WriteRanges(w, a.free);
    WriteRanges(w, live);
    w.U64(a.miscBase);
    w.U64(a.miscNext);
    w.U64(a.brk);
    w.U64(a.teb);
    w.U64(a.errnoAddress);
    w.U64(a.lconvAddress);
    w.U64(a.tlsArray);
    w.U32(a.nextTlsSlot);
    w.U64(a.lastError);
  }

  method WriteSyncs(w: Writer, s: Syncs, objects: seq<SyncEntry>, names: seq<NameEntry>)
    requires Counted(objects) && Counted(names)
    modifies w
    ensures forall t: seq<byte> {:trigger Upto(w.buf, t)} ::
              Upto(w.buf, t) == Upto(old(w.buf), PutSyncs(s, objects, names, t))
  {
    hide Upto, PutU64, PutList;
    WriteObjects(w, objects);
    w.U64(s.nextHandle);
    WriteNames(w, names);
  }

  // ---- the file -----------------------------------------------------------------------------------------

  /** One framed section at the end of the file. */
  method Frame(out: seq<byte>, tag: u32, body: seq<byte>) returns (file: seq<byte>)
    requires |body| < 0x1_0000_0000_0000_0000
    ensures forall t: seq<byte> {:trigger Upto(file, t)} ::
              Upto(file, t) == Upto(out, PutSection(Section(tag, body), t))
  {
    file := out + ToLE(tag, 4) + ToLE(|body|, 8) + body;
    forall t: seq<byte> ensures Upto(file, t) == Upto(out, PutSection(Section(tag, body), t)) {
      assert out + ToLE(tag, 4) + ToLE(|body|, 8) + body + t == out + (ToLE(tag, 4) + (ToLE(|body|, 8) + (body + t)));
    }
  }

  /** The page section is streamed, its length computed rather than measured. */
  method FramePages(out: seq<byte>, pages: Pages) returns (file: seq<byte>)
    requires Counted(pages.kept) && Counted(pages.fromFile)
             && 16 + |pages.kept| * 4104 + |pages.fromFile| * 8 < 0x1_0000_0000_0000_0000
    ensures |PutPages(pages, [])| == 16 + |pages.kept| * 4104 + |pages.fromFile| * 8
    ensures forall t: seq<byte> {:trigger Upto(file, t)} ::
              Upto(file, t) == Upto(out, PutSection(Section(PAGE, PutPages(pages, [])), t))
  {
    hide PutPages, PutList, Upto;
    PagesLength(pages);
    var w := new Writer();
    WriteCarried(w, pages.kept);
    WriteU64s(w, pages.fromFile);
    PagesWritten(w.buf, pages);
    file := Frame(out, PAGE, w.buf);
  }

  lemma PagesWritten(b: seq<byte>, pages: Pages)
    requires Counted(pages.kept) && Counted(pages.fromFile)
    requires Upto(b, []) == Upto([], PutList(PutPage, pages.kept, PutList(PutU64, pages.fromFile, [])))
    ensures b == PutPages(pages, [])
  {
    hide PutList;
    assert b + [] == b;
  }

  lemma {:induction false} WordsLength(xs: seq<u64>, t: seq<byte>)
    ensures |PutAll(PutU64, xs, t)| == |xs| * 8 + |t|
  {
    if xs != [] {
      WordsLength(xs[1..], t);
    }
  }

  lemma {:induction false} CarriedLength(ps: seq<WholePage>, t: seq<byte>)
    ensures |PutAll(PutPage, ps, t)| == |ps| * 4104 + |t|
  {
    if ps != [] {
      CarriedLength(ps[1..], t);
    }
  }

  /** The length given for the page section is the length it has. */
  lemma PagesLength(pages: Pages)
    requires Counted(pages.kept) && Counted(pages.fromFile)
    ensures |PutPages(pages, [])| == 16 + |pages.kept| * 4104 + |pages.fromFile| * 8
  {
    WordsLength(pages.fromFile, []);
    CarriedLength(pages.kept, PutList(PutU64, pages.fromFile, []));
  }

  lemma Emptied(b: seq<byte>, body: seq<byte>)
    requires Upto(b, []) == Upto([], body)
    ensures b == body
  {
    assert b + [] == b && [] + body == body;
  }

  lemma PutStep(ss: seq<Section>, i: nat, t: seq<byte>)
    requires i < |ss|
    ensures PutSections(ss[i..], t) == PutSection(ss[i], PutSections(ss[i + 1..], t))
  {
    assert ss[i..][1..] == ss[i + 1..];
  }

  lemma EightSections(ss: seq<Section>, t: seq<byte>)
    requires |ss| == 8
    ensures PutSections(ss, t) == PutSection(ss[0], PutSection(ss[1], PutSection(ss[2], PutSection(ss[3],
                                  PutSection(ss[4], PutSection(ss[5], PutSection(ss[6], PutSection(ss[7], t))))))))
  {
    hide PutSections, PutSection;
    assert ss[0..] == ss;
    PutStep(ss, 0, t);
    PutStep(ss, 1, t);
    PutStep(ss, 2, t);
    PutStep(ss, 3, t);
    PutStep(ss, 4, t);
    PutStep(ss, 5, t);
    PutStep(ss, 6, t);
    PutStep(ss, 7, t);
    assert ss[8..] == [];
    NoSections(t);
  }

  lemma NoSections(t: seq<byte>)
    ensures PutSections([], t) == t
  {
  }

  lemma HeaderWritten(file: seq<byte>)
    requires file == MAGIC + ToLE(VERSION, 4) + ToLE(0, 4)
    ensures forall t: seq<byte> {:trigger Upto(file, t)} :: Upto(file, t) == PutHeader(t)
  {
    forall t: seq<byte> ensures Upto(file, t) == PutHeader(t) {
      assert MAGIC + ToLE(VERSION, 4) + ToLE(0, 4) + t == MAGIC + (ToLE(VERSION, 4) + (ToLE(0, 4) + t));
    }
  }

  lemma AllWritten(file: seq<byte>)
    ensures Upto(file, []) == file
  {
  }

  lemma SectionAt(m: Machine, i: nat)
    requires Writable(m) && i < 8
    ensures |File(m)| == 8 && File(m)[i] == Section(Bodies(m)[i].0, Bodies(m)[i].1)
  {
  }

  /** save_state(), once everything it reads has been gathered. */
  method SaveFile(m: Machine) returns (file: seq<byte>)
    requires Writable(m)
    ensures file == WholeFile(File(m))
  {
    hide PutCpu, PutAllo, PutThreads, PutSyncs, PutList, PutPages, PutSection, PutHeader, PutSections, Upto, Records,
         File;
    ghost var ss := File(m);
    assert |ss| == 8 && forall i | 0 <= i < 8 :: ss[i] == Section(Bodies(m)[i].0, Bodies(m)[i].1) by {
      forall i | 0 <= i < 8 ensures |ss| == 8 && ss[i] == Section(Bodies(m)[i].0, Bodies(m)[i].1) {
        SectionAt(m, i);
      }
    }
    EightSections(ss, PutSection(Section(END, []), []));
    file := MAGIC + ToLE(VERSION, 4) + ToLE(0, 4);
    HeaderWritten(file);
    var w := new Writer();
    WriteCpu(w, m.cpu);
    Emptied(w.buf, PutCpu(m.cpu, []));
    file := Frame(file, CPU, w.buf);
    w.Clear();
    WriteAllo(w, m.allo, m.live);
    Emptied(w.buf, PutAllo(m.allo, m.live, []));
    file := Frame(file, ALLO, w.buf);
    w.Clear();
    WriteThreads(w, m.guests, m.current, m.nextId, m.cpu);
    Emptied(w.buf, PutThreads(SavedThreads(m), []));
    file := Frame(file, THRD, w.buf);
    w.Clear();
    WriteSyncs(w, m.syncs, m.objects, m.names);
    Emptied(w.buf, PutSyncs(m.syncs, m.objects, m.names, []));
    file := Frame(file, SYNC, w.buf);
    w.Clear();
    WriteFds(w, m.fds);
    Emptied(w.buf, PutList(PutFd, m.fds, []));
    file := Frame(file, FDS, w.buf);
    w.Clear();
    WritePlaces(w, m.places);
    Emptied(w.buf, PutList(PutPlace, m.places, []));
    file := Frame(file, REGN, w.buf);
    w.Clear();
    WriteU64s(w, m.mapped);
    Emptied(w.buf, PutList(PutU64, m.mapped, []));
    file := Frame(file, MAPD, w.buf);
    PagesLength(m.pages);
    file := FramePages(file, m.pages);
    file := Frame(file, END, []);
    AllWritten(file);
  }

  // ---- reading records ----------------------------------------------------------------------------------

  /** A list read so far, in front of the rest of it. */
  function Cat<T>(acc: seq<T>, g: Got<seq<T>>): Got<seq<T>> { Got(acc + g.v, g.f) }

  lemma CatNone<T>(g: Got<seq<T>>)
    ensures Cat([], g) == g
  {
    assert [] + g.v == g.v;
  }

  /** One more record of a list. */
  lemma CatStep<T>(get: Feed -> Got<T>, acc: seq<T>, f: Feed, n: nat)
    requires n > 0 && f.ok
    ensures Cat(acc, GetAll(get, f, n)) == Cat(acc + [get(f).v], GetAll(get, get(f).f, n - 1))
  {
    var r := GetAll(get, get(f).f, n - 1);
    assert acc + ([get(f).v] + r.v) == acc + [get(f).v] + r.v;
  }

  lemma CatEnd<T>(get: Feed -> Got<T>, acc: seq<T>, f: Feed, n: nat)
    requires n == 0 || !f.ok
    ensures Cat(acc, GetAll(get, f, n)) == Got(acc, f)
  {
    assert acc + [] == acc;
  }

  /** One more entry of a table. */
  lemma TableStep<K, V>(get: Feed -> Got<(K, V)>, m: map<K, V>, f: Feed, n: nat)
    requires n > 0 && f.ok
    ensures var x := get(f);
            Table(m, GetAll(get, f, n).v) == Table(m[x.v.0 := x.v.1], GetAll(get, x.f, n - 1).v)
              && GetAll(get, f, n).f == GetAll(get, x.f, n - 1).f
  {
    var r := GetAll(get, get(f).f, n - 1);
    assert ([get(f).v] + r.v)[1..] == r.v;
  }

  method ReadWords(s: Reader, n: nat) returns (xs: seq<u64>)
    requires s.Valid()
    modifies s
    ensures s.Valid() && Got(xs, s.Now()) == GetWords(old(s.Now()), n)
  {
    hide GetU64;
    xs := [];
    CatNone(GetWords(s.Now(), n));
    for i := 0 to n
      invariant s.Valid() && Cat(xs, GetWords(s.Now(), n - i)) == GetWords(old(s.Now()), n)
    {
      var x := s.U64();
      assert xs + ([x] + GetWords(s.Now(), n - i - 1).v) == xs + [x] + GetWords(s.Now(), n - i - 1).v;
      xs := xs + [x];
    }
    assert xs + [] == xs;
  }

  method ReadFlags(s: Reader, n: nat) returns (xs: seq<bool>)
    requires s.Valid()
    modifies s
    ensures s.Valid() && Got(xs, s.Now()) == GetFlags(old(s.Now()), n)
  {
    hide GetBool;
    xs := [];
    CatNone(GetFlags(s.Now(), n));
    for i := 0 to n
      invariant s.Valid() && Cat(xs, GetFlags(s.Now(), n - i)) == GetFlags(old(s.Now()), n)
    {
      var x := s.Bool();
      assert xs + ([x] + GetFlags(s.Now(), n - i - 1).v) == xs + [x] + GetFlags(s.Now(), n - i - 1).v;
      xs := xs + [x];
    }
    assert xs + [] == xs;
  }

  method ReadCpu(s: Reader) returns (v: CpuState)
    requires s.Valid()
    modifies s
    ensures s.Valid() && Got(v, s.Now()) == GetCpu(old(s.Now()))
  {
    hide GetU8, GetU16, GetU32, GetU64, GetI32, GetBool, GetText, GetRaw, GetWords, GetFlags, GetList;
    var regs := ReadWords(s, 16);
    var xmm := ReadWords(s, 32);
    var mxcsr := s.U32();
    var st := ReadWords(s, 8);
    var used := ReadFlags(s, 8);
    var top := s.I32();
    var control := s.U16();
    var status := s.U16();
    var rip := s.U64();
    var rflags := s.U64();
    var fs := s.U64();
    var gs := s.U64();
    var fsSel := s.U16();
    var gsSel := s.U16();
    var executed := s.U64();
    var halted := s.Bool();
    var exit := s.I32();
    v := CpuState(Context(regs, xmm, st, used, top, control, status, mxcsr, rip, rflags, fs, gs), fsSel, gsSel,
                  executed, halted, exit);
  }

  method ReadU64s(s: Reader, n: nat) returns (xs: seq<u64>)
    requires s.Valid()
    modifies s
    ensures s.Valid() && Got(xs, s.Now()) == GetAll(GetU64, old(s.Now()), n)
  {
    hide GetU64, GetAll, Cat;
    xs := [];
    CatNone(GetAll(GetU64, s.Now(), n));
    var i := 0;
    while i < n && s.ok
      invariant i <= n && s.Valid() && Cat(xs, GetAll(GetU64, s.Now(), n - i)) == GetAll(GetU64, old(s.Now()), n)
    {
      CatStep(GetU64, xs, s.Now(), n - i);
      var x := s.U64();
      xs := xs + [x];
      i := i + 1;
    }
    CatEnd(GetU64, xs, s.Now(), n - i);
  }

  method ReadThread(s: Reader) returns (v: Thread)
    requires s.Valid()
    modifies s
    ensures s.Valid() && Got(v, s.Now()) == GetThread(old(s.Now()))
  {
    hide GetU8, GetU16, GetU32, GetU64, GetI32, GetBool, GetText, GetRaw, GetWords, GetFlags, GetAll;
    var id := s.U32();
    var handle := s.U64();
    var regs := ReadWords(s, 16);
    var xmm := ReadWords(s, 32);
    var st := ReadWords(s, 8);
    var used := ReadFlags(s, 8);
    var top := s.I32();
    var control := s.U16();
    var status := s.U16();
    var mxcsr := s.U32();
    var rip := s.U64();
    var rflags := s.U64();
    var fs := s.U64();
    var gs := s.U64();
    var stackBase := s.U64();
    var stackSize := s.U64();
    var teb := s.U64();
    var tlsArray := s.U64();
    var count := s.U64();
    var slots := ReadU64s(s, count);
    var state := s.U8();
    var exit := s.U32();
    var wait := s.U64();
    var wake := s.U64();
    var child := s.U64();
    v := Thread(id, handle, Context(regs, xmm, st, used, top, control, status, mxcsr, rip, rflags, fs, gs),
                stackBase, stackSize, teb, tlsArray, slots, state, exit, wait, wake, child);
  }

  method ReadThreadList(s: Reader, n: nat) returns (xs: seq<Thread>)
    requires s.Valid()
    modifies s
    ensures s.Valid() && Got(xs, s.Now()) == GetAll(GetThread, old(s.Now()), n)
  {
    hide GetThread, GetAll, Cat;
    xs := [];
    CatNone(GetAll(GetThread, s.Now(), n));
    var i := 0;
    while i < n && s.ok
      invariant i <= n && s.Valid() && Cat(xs, GetAll(GetThread, s.Now(), n - i)) == GetAll(GetThread, old(s.Now()), n)
    {
      CatStep(GetThread, xs, s.Now(), n - i);
      var x := ReadThread(s);
      xs := xs + [x];
      i := i + 1;
    }
    CatEnd(GetThread, xs, s.Now(), n - i);
  }

  method ReadThreads(s: Reader) returns (v: Threads)
    requires s.Valid()
    modifies s
    ensures s.Valid() && Got(v, s.Now()) == GetThreads(old(s.Now()))
  {
    hide GetU32, GetU64, GetAll, GetThread;
    var count := s.U64();
    var current := s.U64();
    var next := s.U32();
    var list := ReadThreadList(s, count);
    v := Threads(list, if current >= |list| then 0 else current, next);
  }

  method ReadRange(s: Reader) returns (v: Range)
    requires s.Valid()
    modifies s
    ensures s.Valid() && Got(v, s.Now()) == GetRange(old(s.Now()))
  {
    hide GetU64;
    var base := s.U64();
    var size := s.U64();
    v := (base, size);
  }

  method ReadRanges(s: Reader, n: nat) returns (xs: seq<Range>)
    requires s.Valid()
    modifies s
    ensures s.Valid() && Got(xs, s.Now()) == GetAll(GetRange, old(s.Now()), n)
  {
    hide GetRange, GetAll, Cat;
    xs := [];
    CatNone(GetAll(GetRange, s.Now(), n));
    var i := 0;
    while i < n && s.ok
      invariant i <= n && s.Valid() && Cat(xs, GetAll(GetRange, s.Now(), n - i)) == GetAll(GetRange, old(s.Now()), n)
    {
      CatStep(GetRange, xs, s.Now(), n - i);
      var x := ReadRange(s);
      xs := xs + [x];
      i := i + 1;
    }
    CatEnd(GetRange, xs, s.Now(), n - i);
  }

  method ReadSync(s: Reader) returns (v: SyncEntry)
    requires s.Valid()
    modifies s
    ensures s.Valid() && Got(v, s.Now()) == GetSync(old(s.Now()))
  {
    hide GetU8, GetU32, GetU64, GetBool;
    var handle := s.U64();
    var kind := s.U8();
    var manual := s.Bool();
    var signalled := s.Bool();
    var count := s.U64();
    var owner := s.U32();
    var recursion := s.U64();
    v := (handle, Sync(kind, manual, signalled, count, owner, recursion));
  }

  method ReadName(s: Reader) returns (v: NameEntry)
    requires s.Valid()
    modifies s
    ensures s.Valid() && Got(v, s.Now()) == GetName(old(s.Now()))
  {
    hide GetU64, GetText;
    var name := s.Str();
    var handle := s.U64();
    v := (name, handle);
  }

  lemma TableNone<K, V>(m: map<K, V>)
    ensures Table(m, []) == m
  {
  }

  method ReadLive(s: Reader) returns (m: map<u64, u64>)
    requires s.Valid()
    modifies s
    ensures s.Valid() && var g := GetList(GetRange, old(s.Now())); m == Table(map[], g.v) && s.Now() == g.f
  {
    hide GetU64, GetRange, GetAll, Table;
    var n := s.U64();
    ghost var f := s.Now();
    m := map[];
    var i := 0;
    while i < n && s.ok
      invariant i <= n && s.Valid()
                && Table(map[], GetAll(GetRange, f, n).v) == Table(m, GetAll(GetRange, s.Now(), n - i).v)
      invariant GetAll(GetRange, f, n).f == GetAll(GetRange, s.Now(), n - i).f
    {
      TableStep(GetRange, m, s.Now(), n - i);
      var x := ReadRange(s);
      m := m[x.0 := x.1];
      i := i + 1;
    }
    CatEnd(GetRange, [], s.Now(), n - i);
    TableNone(m);
  }

  method ReadObjects(s: Reader) returns (m: map<u64, Sync>)
    requires s.Valid()
    modifies s
    ensures s.Valid() && var g := GetList(GetSync, old(s.Now())); m == Table(map[], g.v) && s.Now() == g.f
  {
    hide GetU64, GetSync, GetAll, Table;
    var n := s.U64();
    ghost var f := s.Now();
    m := map[];
    var i := 0;
    while i < n && s.ok
      invariant i <= n && s.Valid()
                && Table(map[], GetAll(GetSync, f, n).v) == Table(m, GetAll(GetSync, s.Now(), n - i).v)
      invariant GetAll(GetSync, f, n).f == GetAll(GetSync, s.Now(), n - i).f
    {
      TableStep(GetSync, m, s.Now(), n - i);
      var x := ReadSync(s);
      m := m[x.0 := x.1];
      i := i + 1;
    }
    CatEnd(GetSync, [], s.Now(), n - i);
    TableNone(m);
  }

  method ReadNames(s: Reader) returns (m: map<Text, u64>)
    requires s.Valid()
    modifies s
    ensures s.Valid() && var g := GetList(GetName, old(s.Now())); m == Table(map[], g.v) && s.Now() == g.f
  {
    hide GetU64, GetName, GetAll, Table;
    var n := s.U64();
    ghost var f := s.Now();
    m := map[];
    var i := 0;
    while i < n && s.ok
      invariant i <= n && s.Valid()
                && Table(map[], GetAll(GetName, f, n).v) == Table(m, GetAll(GetName, s.Now(), n - i).v)
      invariant GetAll(GetName, f, n).f == GetAll(GetName, s.Now(), n - i).f
    {
      TableStep(GetName, m, s.Now(), n - i);
      var x := ReadName(s);
      m := m[x.0 := x.1];
      i := i + 1;
    }
    CatEnd(GetName, [], s.Now(), n - i);
    TableNone(m);
  }

  method ReadAllo(s: Reader) returns (v: Allo)
    requires s.Valid()
    modifies s
    ensures s.Valid() && Got(v, s.Now()) == GetAllo(old(s.Now()))
  {
    hide GetU32, GetU64, GetBool, GetAll, Table, GetRange;
    var stackBase := s.U64();
    var stackSize := s.U64();
    var stackTop := s.U64();
    var heapBase := s.U64();
    var heapNext := s.U64();
    var heapLimit := s.U64();
    var mmapNext := s.U64();
    var mmapLimit := s.U64();
    var noReuse := s.Bool();
    var count := s.U64();
    var free := ReadRanges(s, count);
    var live := ReadLive(s);
    var miscBase := s.U64();
    var miscNext := s.U64();
    var brk := s.U64();
    var teb := s.U64();
    var errno := s.U64();
    var lconv := s.U64();
    var tls := s.U64();
    var slot := s.U32();
    var last := s.U64();
    v := Allo(stackBase, stackSize, stackTop, heapBase, heapNext, heapLimit, mmapNext, mmapLimit, noReuse, free, live,
              miscBase, miscNext, brk, teb, errno, lconv, tls, slot, last);
  }

  method ReadSyncs(s: Reader) returns (v: Syncs)
    requires s.Valid()
    modifies s
    ensures s.Valid() && Got(v, s.Now()) == GetSyncs(old(s.Now()))
  {
    hide GetU64, GetList, Table;
    var objects := ReadObjects(s);
    var next := s.U64();
    var names := ReadNames(s);
    v := Syncs(objects, next, names);
  }

  method ReadFd(s: Reader) returns (v: Fd)
    requires s.Valid()
    modifies s
    ensures s.Valid() && Got(v, s.Now()) == GetFd(old(s.Now()))
  {
    hide GetU8, GetU64, GetI32, GetBool, GetText;
    var fd := s.I32();
    var path := s.Str();
    var readable := s.Bool();
    var writable := s.Bool();
    var append := s.Bool();
    var standard := s.Bool();
    var tty := s.Bool();
    var directory := s.Bool();
    var text := s.Bool();
    var wide := s.U8();
    var cloexec := s.Bool();
    var closed := s.Bool();
    var at := s.U64();
    v := Fd(fd, path, readable, writable, append, standard, tty, directory, text, wide, cloexec, closed, at);
  }

  method ReadFds(s: Reader, n: nat) returns (xs: seq<Fd>)
    requires s.Valid()
    modifies s
    ensures s.Valid() && Got(xs, s.Now()) == GetAll(GetFd, old(s.Now()), n)
  {
    hide GetFd, GetAll, Cat;
    xs := [];
    CatNone(GetAll(GetFd, s.Now(), n));
    var i := 0;
    while i < n && s.ok
      invariant i <= n && s.Valid() && Cat(xs, GetAll(GetFd, s.Now(), n - i)) == GetAll(GetFd, old(s.Now()), n)
    {
      CatStep(GetFd, xs, s.Now(), n - i);
      var x := ReadFd(s);
      xs := xs + [x];
      i := i + 1;
    }
    CatEnd(GetFd, xs, s.Now(), n - i);
  }

  method ReadPlace(s: Reader) returns (v: Place)
    requires s.Valid()
    modifies s
    ensures s.Valid() && Got(v, s.Now()) == GetPlace(old(s.Now()))
  {
    hide GetU64, GetBool, GetText;
    var base := s.U64();
    var size := s.U64();
    var name := s.Str();
    var file := s.Str();
    var offset := s.U64();
    var contiguous := s.Bool();
    v := Place(base, size, name, file, offset, contiguous);
  }

  method ReadPlaces(s: Reader, n: nat) returns (xs: seq<Place>)
    requires s.Valid()
    modifies s
    ensures s.Valid() && Got(xs, s.Now()) == GetAll(GetPlace, old(s.Now()), n)
  {
    hide GetPlace, GetAll, Cat;
    xs := [];
    CatNone(GetAll(GetPlace, s.Now(), n));
    var i := 0;
    while i < n && s.ok
      invariant i <= n && s.Valid() && Cat(xs, GetAll(GetPlace, s.Now(), n - i)) == GetAll(GetPlace, old(s.Now()), n)
    {
      CatStep(GetPlace, xs, s.Now(), n - i);
      var x := ReadPlace(s);
      xs := xs + [x];
      i := i + 1;
    }
    CatEnd(GetPlace, xs, s.Now(), n - i);
  }

  method ReadPage(s: Reader) returns (v: WholePage)
    requires s.Valid()
    modifies s
    ensures s.Valid() && Got(v, s.Now()) == GetPage(old(s.Now()))
  {
    hide GetU64;
    var index := s.U64();
    var bytes := s.Block(4096);
    v := Page(index, if s.ok then bytes else seq(4096, i => 0));
  }

  method ReadCarried(s: Reader, n: nat) returns (xs: seq<WholePage>)
    requires s.Valid()
    modifies s
    ensures s.Valid() && Got(xs, s.Now()) == GetAll(GetPage, old(s.Now()), n)
  {
    hide GetPage, GetAll, Cat;
    xs := [];
    CatNone(GetAll(GetPage, s.Now(), n));
    var i := 0;
    while i < n && s.ok
      invariant i <= n && s.Valid() && Cat(xs, GetAll(GetPage, s.Now(), n - i)) == GetAll(GetPage, old(s.Now()), n)
    {
      CatStep(GetPage, xs, s.Now(), n - i);
      var x := ReadPage(s);
      xs := xs + [x];
      i := i + 1;
    }
    CatEnd(GetPage, xs, s.Now(), n - i);
  }
}
