/** The records of a saved state, and that each is read back as it was written. */
module StateRecords {
  import opened Bytes
  import opened Stream

  /** Sixteen general registers; sixteen XMM registers as pairs; the x87 stack, as bit patterns. */
  type Words16 = s: seq<u64> | |s| == 16 witness seq(16, i => 0)
  type Words32 = s: seq<u64> | |s| == 32 witness seq(32, i => 0)
  type Words8 = s: seq<u64> | |s| == 8 witness seq(8, i => 0)
  type Flags8 = s: seq<bool> | |s| == 8 witness seq(8, i => false)

  /** A list short enough for its length to be written down. */
  predicate Counted<T>(s: seq<T>) { |s| < 0x1_0000_0000_0000_0000 }

  type Words = s: seq<u64> | Counted(s) witness []

  /** What a thread switch saves: the part of the processor that a thread record repeats. */
  datatype Context = Context(regs: Words16, xmm: Words32, st: Words8, stUsed: Flags8, stTop: i32, fpuControl: u16,
                             fpuStatus: u16, mxcsr: u32, rip: u64, rflags: u64, fsBase: u64, gsBase: u64)

  datatype CpuState = CpuState(context: Context, fsSelector: u16, gsSelector: u16, executed: u64, halted: bool,
                               exitCode: i32)

  /** A thread; its wait predicate is a closure, and is not written down. */
  datatype Thread = Thread(id: u32, handle: u64, context: Context, stackBase: u64, stackSize: u64, teb: u64,
                           tlsArray: u64, tlsSlots: Words, state: byte, exitCode: u32, waitHandle: u64, wakeAt: u64,
                           clearChildTid: u64)

  datatype Sync = Sync(kind: byte, manualReset: bool, signalled: bool, count: u64, owner: u32, recursion: u64)

  // ---- runs of words and flags ------------------------------------------------------------------

  function PutWords(xs: seq<u64>, t: seq<byte>): seq<byte>
  {
    if xs == [] then t else PutU64(xs[0], PutWords(xs[1..], t))
  }

  function GetWords(f: Feed, n: nat): (g: Got<seq<u64>>)
    ensures |g.v| == n
    decreases n
  {
    if n == 0 then Got([], f) else
    var x := GetU64(f);
    var r := GetWords(x.f, n - 1);
    Got([x.v] + r.v, r.f)
  }

  lemma {:induction false} WordsBack(xs: seq<u64>, t: seq<byte>)
    ensures GetWords(Feed(PutWords(xs, t), true), |xs|) == Got(xs, Feed(t, true))
  {
    hide PutU64, GetU64;
    if xs != [] {
      Back64(xs[0], PutWords(xs[1..], t));
      WordsBack(xs[1..], t);
      assert [xs[0]] + xs[1..] == xs;
    }
  }

  function PutFlags(xs: seq<bool>, t: seq<byte>): seq<byte>
  {
    if xs == [] then t else PutBool(xs[0], PutFlags(xs[1..], t))
  }

  function GetFlags(f: Feed, n: nat): (g: Got<seq<bool>>)
    ensures |g.v| == n
    decreases n
  {
    if n == 0 then Got([], f) else
    var x := GetBool(f);
    var r := GetFlags(x.f, n - 1);
    Got([x.v] + r.v, r.f)
  }

  lemma {:induction false} FlagsBack(xs: seq<bool>, t: seq<byte>)
    ensures GetFlags(Feed(PutFlags(xs, t), true), |xs|) == Got(xs, Feed(t, true))
  {
    hide PutBool, GetBool;
    if xs != [] {
      BackBool(xs[0], PutFlags(xs[1..], t));
      FlagsBack(xs[1..], t);
      assert [xs[0]] + xs[1..] == xs;
    }
  }

  // ---- lists of records ---------------------------------------------------------------------------

  function PutAll<T>(put: (T, seq<byte>) -> seq<byte>, xs: seq<T>, t: seq<byte>): seq<byte>
    decreases |xs|
  {
    if xs == [] then t else put(xs[0], PutAll(put, xs[1..], t))
  }

  /** As many records as there should be, or as far as the bytes go. */
  function GetAll<T>(get: Feed -> Got<T>, f: Feed, n: nat): (g: Got<seq<T>>)
    ensures |g.v| <= n
    decreases n
  {
    if n == 0 || !f.ok then Got([], f) else
    var x := get(f);
    var r := GetAll(get, x.f, n - 1);
    Got([x.v] + r.v, r.f)
  }

  /** Records that are each read back are read back as a list. */
  lemma {:induction false} AllBack<T(!new)>(put: (T, seq<byte>) -> seq<byte>, get: Feed -> Got<T>, xs: seq<T>,
                                            t: seq<byte>)
    requires forall x: T, u: seq<byte> :: get(Feed(put(x, u), true)) == Got(x, Feed(u, true))
    ensures GetAll(get, Feed(PutAll(put, xs, t), true), |xs|) == Got(xs, Feed(t, true))
    decreases |xs|
  {
    if xs != [] {
      AllBack(put, get, xs[1..], t);
      assert [xs[0]] + xs[1..] == xs;
    }
  }

  /** A list with its length in front. */
  function PutList<T>(put: (T, seq<byte>) -> seq<byte>, xs: seq<T>, t: seq<byte>): seq<byte>
    requires Counted(xs)
  {
    PutU64(|xs|, PutAll(put, xs, t))
  }

  function GetList<T>(get: Feed -> Got<T>, f: Feed): (g: Got<seq<T>>)
    ensures Counted(g.v)
  {
    var n := GetU64(f);
    GetAll(get, n.f, n.v)
  }

  lemma ListBack<T(!new)>(put: (T, seq<byte>) -> seq<byte>, get: Feed -> Got<T>, xs: seq<T>, t: seq<byte>)
    requires Counted(xs) && forall x: T, u: seq<byte> :: get(Feed(put(x, u), true)) == Got(x, Feed(u, true))
    ensures GetList(get, Feed(PutList(put, xs, t), true)) == Got(xs, Feed(t, true))
  {
    hide PutU64, GetU64;
    Back64(|xs|, PutAll(put, xs, t));
    AllBack(put, get, xs, t);
  }

  // ---- the processor ----------------------------------------------------------------------------

  function PutCpu(c: CpuState, t: seq<byte>): seq<byte>
  {
    var x := c.context;
    PutWords(x.regs, PutWords(x.xmm, PutU32(x.mxcsr, PutWords(x.st, PutFlags(x.stUsed, PutI32(x.stTop,
    PutU16(x.fpuControl, PutU16(x.fpuStatus, PutU64(x.rip, PutU64(x.rflags, PutU64(x.fsBase, PutU64(x.gsBase,
    PutU16(c.fsSelector, PutU16(c.gsSelector, PutU64(c.executed, PutBool(c.halted, PutI32(c.exitCode, t)))))))))))))))))
  }

  function GetCpu(f: Feed): Got<CpuState>
  {
    var regs := GetWords(f, 16);
    var xmm := GetWords(regs.f, 32);
    var mxcsr := GetU32(xmm.f);
    var st := GetWords(mxcsr.f, 8);
    var used := GetFlags(st.f, 8);
    var top := GetI32(used.f);
    var control := GetU16(top.f);
    var status := GetU16(control.f);
    var rip := GetU64(status.f);
    var rflags := GetU64(rip.f);
    var fs := GetU64(rflags.f);
    var gs := GetU64(fs.f);
    var fsSel := GetU16(gs.f);
    var gsSel := GetU16(fsSel.f);
    var executed := GetU64(gsSel.f);
    var halted := GetBool(executed.f);
    var exit := GetI32(halted.f);
    Got(CpuState(Context(regs.v, xmm.v, st.v, used.v, top.v, control.v, status.v, mxcsr.v, rip.v, rflags.v, fs.v, gs.v),
                 fsSel.v, gsSel.v, executed.v, halted.v, exit.v), exit.f)
  }

  lemma CpuBack(c: CpuState, t: seq<byte>)
    ensures GetCpu(Feed(PutCpu(c, t), true)) == Got(c, Feed(t, true))
  {
    hide GetU16, GetU32, GetU64, GetI32, GetBool, GetWords, GetFlags, PutU16, PutU32, PutU64, PutI32, PutBool, PutWords,
         PutFlags;
    FieldsBack();
    RunsBack();
  }

  lemma RunsBack()
    ensures forall xs: Words8, t: seq<byte> :: GetWords(Feed(PutWords(xs, t), true), 8) == Got(xs, Feed(t, true))
    ensures forall xs: Words16, t: seq<byte> :: GetWords(Feed(PutWords(xs, t), true), 16) == Got(xs, Feed(t, true))
    ensures forall xs: Words32, t: seq<byte> :: GetWords(Feed(PutWords(xs, t), true), 32) == Got(xs, Feed(t, true))
    ensures forall xs: Flags8, t: seq<byte> :: GetFlags(Feed(PutFlags(xs, t), true), 8) == Got(xs, Feed(t, true))
  {
    hide GetWords, GetFlags, PutWords, PutFlags;
    forall xs: Words8, t: seq<byte>
      ensures GetWords(Feed(PutWords(xs, t), true), 8) == Got(xs, Feed(t, true))
    {
      WordsBack(xs, t);
    }
    forall xs: Words16, t: seq<byte>
      ensures GetWords(Feed(PutWords(xs, t), true), 16) == Got(xs, Feed(t, true))
    {
      WordsBack(xs, t);
    }
    forall xs: Words32, t: seq<byte>
      ensures GetWords(Feed(PutWords(xs, t), true), 32) == Got(xs, Feed(t, true))
    {
      WordsBack(xs, t);
    }
    forall xs: Flags8, t: seq<byte>
      ensures GetFlags(Feed(PutFlags(xs, t), true), 8) == Got(xs, Feed(t, true))
    {
      FlagsBack(xs, t);
    }
  }

  // ---- the threads --------------------------------------------------------------------------------

  function PutThread(h: Thread, t: seq<byte>): seq<byte>
  {
    var x := h.context;
    PutU32(h.id, PutU64(h.handle, PutWords(x.regs, PutWords(x.xmm, PutWords(x.st, PutFlags(x.stUsed, PutI32(x.stTop,
    PutU16(x.fpuControl, PutU16(x.fpuStatus, PutU32(x.mxcsr, PutU64(x.rip, PutU64(x.rflags,
    PutU64(x.fsBase, PutU64(x.gsBase, PutU64(h.stackBase, PutU64(h.stackSize, PutU64(h.teb,
    PutU64(h.tlsArray, PutList(PutU64, h.tlsSlots, PutU8(h.state, PutU32(h.exitCode,
    PutU64(h.waitHandle, PutU64(h.wakeAt, PutU64(h.clearChildTid, t))))))))))))))))))))))))
  }

  function GetThread(f: Feed): Got<Thread>
  {
    var id := GetU32(f);
    var handle := GetU64(id.f);
    var regs := GetWords(handle.f, 16);
    var xmm := GetWords(regs.f, 32);
    var st := GetWords(xmm.f, 8);
    var used := GetFlags(st.f, 8);
    var top := GetI32(used.f);
    var control := GetU16(top.f);
    var status := GetU16(control.f);
    var mxcsr := GetU32(status.f);
    var rip := GetU64(mxcsr.f);
    var rflags := GetU64(rip.f);
    var fs := GetU64(rflags.f);
    var gs := GetU64(fs.f);
    var stackBase := GetU64(gs.f);
    var stackSize := GetU64(stackBase.f);
    var teb := GetU64(stackSize.f);
    var tlsArray := GetU64(teb.f);
    var slots := GetList(GetU64, tlsArray.f);
    var state := GetU8(slots.f);
    var exit := GetU32(state.f);
    var wait := GetU64(exit.f);
    var wake := GetU64(wait.f);
    var child := GetU64(wake.f);
    Got(Thread(id.v, handle.v,
               Context(regs.v, xmm.v, st.v, used.v, top.v, control.v, status.v, mxcsr.v, rip.v, rflags.v, fs.v, gs.v),
               stackBase.v, stackSize.v, teb.v, tlsArray.v, slots.v, state.v, exit.v, wait.v, wake.v, child.v), child.f)
  }

  lemma ThreadBack(h: Thread, t: seq<byte>)
    ensures GetThread(Feed(PutThread(h, t), true)) == Got(h, Feed(t, true))
  {
    hide GetU8, GetU16, GetU32, GetU64, GetI32, GetWords, GetFlags, GetList, PutU8, PutU16, PutU32, PutU64, PutI32,
         PutWords, PutFlags, PutList;
    FieldsBack();
    RunsBack();
    ListBack(PutU64, GetU64, h.tlsSlots,
             PutU8(h.state, PutU32(h.exitCode, PutU64(h.waitHandle, PutU64(h.wakeAt, PutU64(h.clearChildTid, t))))));
  }

  /** Every thread, which one is running, and the next identifier. */
  datatype Threads = Threads(list: seq<Thread>, current: u64, nextId: u32)

  function PutThreads(s: Threads, t: seq<byte>): seq<byte>
    requires Counted(s.list)
  {
    PutU64(|s.list|, PutU64(s.current, PutU32(s.nextId, PutAll(PutThread, s.list, t))))
  }

  /** A current thread that is not in the list becomes the first. */
  function GetThreads(f: Feed): Got<Threads>
  {
    var count := GetU64(f);
    var current := GetU64(count.f);
    var next := GetU32(current.f);
    var list := GetAll(GetThread, next.f, count.v);
    Got(Threads(list.v, if current.v >= |list.v| then 0 else current.v, next.v), list.f)
  }

  lemma ThreadsBack(s: Threads, t: seq<byte>)
    requires Counted(s.list)
    ensures GetThreads(Feed(PutThreads(s, t), true)) ==
              Got(s.(current := if s.current >= |s.list| then 0 else s.current), Feed(t, true))
  {
    hide GetU32, GetU64, PutU32, PutU64, GetAll, PutAll, GetThread, PutThread;
    FieldsBack();
    forall h: Thread, u: seq<byte> ensures GetThread(Feed(PutThread(h, u), true)) == Got(h, Feed(u, true)) {
      ThreadBack(h, u);
    }
    AllBack(PutThread, GetThread, s.list, t);
  }

  // ---- tables written in no particular order ----------------------------------------------------------

  /** The entries of a table, in some order, each once. */
  ghost predicate Lists<K(!new), V(!new)>(es: seq<(K, V)>, m: map<K, V>)
  {
    && Agrees(es, m)
    && (forall k | k in m :: exists i :: 0 <= i < |es| && es[i].0 == k)
  }

  /** Storing entries one after another, as the reader does. */
  function Table<K, V>(m: map<K, V>, es: seq<(K, V)>): map<K, V>
    decreases |es|
  {
    if es == [] then m else Table(m[es[0].0 := es[0].1], es[1..])
  }

  ghost predicate Agrees<K(!new), V(!new)>(es: seq<(K, V)>, m: map<K, V>)
  {
    forall i | 0 <= i < |es| :: es[i].0 in m && m[es[i].0] == es[i].1
  }

  lemma {:induction false} TableAgrees<K(!new), V(!new)>(part: map<K, V>, es: seq<(K, V)>, m: map<K, V>)
    requires Agrees(es, m) && forall k | k in part :: k in m && part[k] == m[k]
    ensures forall k | k in Table(part, es) :: k in m && Table(part, es)[k] == m[k]
    ensures forall k | k in part :: k in Table(part, es)
    ensures forall i | 0 <= i < |es| :: es[i].0 in Table(part, es)
    decreases |es|
  {
    if es != [] {
      TableAgrees(part[es[0].0 := es[0].1], es[1..], m);
      forall i | 0 <= i < |es| ensures es[i].0 in Table(part, es) {
        if i > 0 {
          assert es[1..][i - 1].0 == es[i].0;
        }
      }
    }
  }

  /** Whatever order a table was listed in, storing the list gives the table back. */
  lemma TableBack<K(!new), V(!new)>(es: seq<(K, V)>, m: map<K, V>)
    requires Lists(es, m)
    ensures Table(map[], es) == m
  {
    TableAgrees(map[], es, m);
    forall k | k in m ensures k in Table(map[], es) {
      var i :| 0 <= i < |es| && es[i].0 == k;
    }
  }

  // ---- the allocators -------------------------------------------------------------------------------

  type Range = (u64, u64)

  function PutRange(r: Range, t: seq<byte>): seq<byte> { PutU64(r.0, PutU64(r.1, t)) }

  function GetRange(f: Feed): Got<Range>
  {
    var base := GetU64(f);
    var size := GetU64(base.f);
    Got((base.v, size.v), size.f)
  }

  lemma RangesBack()
    ensures forall r: Range, t: seq<byte> :: GetRange(Feed(PutRange(r, t), true)) == Got(r, Feed(t, true))
  {
    hide GetU64, PutU64;
    FieldsBack();
  }

  datatype Allo = Allo(stackBase: u64, stackSize: u64, stackTop: u64, heapBase: u64, heapNext: u64, heapLimit: u64,
                       mmapNext: u64, mmapLimit: u64, noReuse: bool, free: seq<Range>, live: map<u64, u64>,
                       miscBase: u64, miscNext: u64, brk: u64, teb: u64, errnoAddress: u64, lconvAddress: u64,
                       tlsArray: u64, nextTlsSlot: u32, lastError: u64)

  /** The table of live ranges is written in whatever order it comes. */
  function PutAllo(a: Allo, order: seq<Range>, t: seq<byte>): seq<byte>
    requires Counted(a.free) && Counted(order)
  {
    PutU64(a.stackBase, PutU64(a.stackSize, PutU64(a.stackTop, PutU64(a.heapBase, PutU64(a.heapNext, PutU64(a.heapLimit,
    PutU64(a.mmapNext, PutU64(a.mmapLimit, PutBool(a.noReuse, PutList(PutRange, a.free, PutList(PutRange, order,
    PutU64(a.miscBase, PutU64(a.miscNext, PutU64(a.brk, PutU64(a.teb, PutU64(a.errnoAddress, PutU64(a.lconvAddress,
    PutU64(a.tlsArray, PutU32(a.nextTlsSlot, PutU64(a.lastError, t))))))))))))))))))))
  }

  function GetAllo(f: Feed): Got<Allo>
  {
    var stackBase := GetU64(f);
    var stackSize := GetU64(stackBase.f);
    var stackTop := GetU64(stackSize.f);
    var heapBase := GetU64(stackTop.f);
    var heapNext := GetU64(heapBase.f);
    var heapLimit := GetU64(heapNext.f);
    var mmapNext := GetU64(heapLimit.f);
    var mmapLimit := GetU64(mmapNext.f);
    var noReuse := GetBool(mmapLimit.f);
    var free := GetList(GetRange, noReuse.f);
    var live := GetList(GetRange, free.f);
    var miscBase := GetU64(live.f);
    var miscNext := GetU64(miscBase.f);
    var brk := GetU64(miscNext.f);
    var teb := GetU64(brk.f);
    var errno := GetU64(teb.f);
    var lconv := GetU64(errno.f);
    var tls := GetU64(lconv.f);
    var slot := GetU32(tls.f);
    var last := GetU64(slot.f);
    Got(Allo(stackBase.v, stackSize.v, stackTop.v, heapBase.v, heapNext.v, heapLimit.v, mmapNext.v, mmapLimit.v,
             noReuse.v, free.v, Table(map[], live.v), miscBase.v, miscNext.v, brk.v, teb.v, errno.v, lconv.v,
             tls.v, slot.v, last.v), last.f)
  }

  lemma AlloBack(a: Allo, order: seq<Range>, t: seq<byte>)
    requires Counted(a.free) && Counted(order) && Lists(order, a.live)
    ensures GetAllo(Feed(PutAllo(a, order, t), true)) == Got(a, Feed(t, true))
  {
    hide GetU32, GetU64, GetBool, GetList, PutU32, PutU64, PutBool, PutList, GetRange, PutRange, Table, Lists;
    FieldsBack();
    RangesBack();
    var after := PutU64(a.miscBase, PutU64(a.miscNext, PutU64(a.brk, PutU64(a.teb, PutU64(a.errnoAddress,
                 PutU64(a.lconvAddress, PutU64(a.tlsArray, PutU32(a.nextTlsSlot, PutU64(a.lastError, t)))))))));
    ListBack(PutRange, GetRange, order, after);
    ListBack(PutRange, GetRange, a.free, PutList(PutRange, order, after));
    TableBack(order, a.live);
  }

  // ---- the waitable objects ---------------------------------------------------------------------------

  type SyncEntry = (u64, Sync)
  type NameEntry = (Text, u64)

  function PutSync(e: SyncEntry, t: seq<byte>): seq<byte>
  {
    var o := e.1;
    PutU64(e.0, PutU8(o.kind, PutBool(o.manualReset, PutBool(o.signalled,
    PutU64(o.count, PutU32(o.owner, PutU64(o.recursion, t)))))))
  }

  function GetSync(f: Feed): Got<SyncEntry>
  {
    var handle := GetU64(f);
    var kind := GetU8(handle.f);
    var manual := GetBool(kind.f);
    var signalled := GetBool(manual.f);
    var count := GetU64(signalled.f);
    var owner := GetU32(count.f);
    var recursion := GetU64(owner.f);
    Got((handle.v, Sync(kind.v, manual.v, signalled.v, count.v, owner.v, recursion.v)), recursion.f)
  }

  function PutName(e: NameEntry, t: seq<byte>): seq<byte> { PutText(e.0, PutU64(e.1, t)) }

  function GetName(f: Feed): Got<NameEntry>
  {
    var name := GetText(f);
    var handle := GetU64(name.f);
    Got((name.v, handle.v), handle.f)
  }

  lemma EntriesBack()
    ensures forall e: SyncEntry, t: seq<byte> :: GetSync(Feed(PutSync(e, t), true)) == Got(e, Feed(t, true))
    ensures forall e: NameEntry, t: seq<byte> :: GetName(Feed(PutName(e, t), true)) == Got(e, Feed(t, true))
  {
    hide GetU8, GetU32, GetU64, GetBool, GetText, PutU8, PutU32, PutU64, PutBool, PutText;
    FieldsBack();
  }

  datatype Syncs = Syncs(objects: map<u64, Sync>, nextHandle: u64, named: map<Text, u64>)

  function PutSyncs(s: Syncs, objects: seq<SyncEntry>, names: seq<NameEntry>, t: seq<byte>): seq<byte>
    requires Counted(objects) && Counted(names)
  {
    PutList(PutSync, objects, PutU64(s.nextHandle, PutList(PutName, names, t)))
  }

  function GetSyncs(f: Feed): Got<Syncs>
  {
    var objects := GetList(GetSync, f);
    var next := GetU64(objects.f);
    var names := GetList(GetName, next.f);
    Got(Syncs(Table(map[], objects.v), next.v, Table(map[], names.v)), names.f)
  }

  lemma SyncsBack(s: Syncs, objects: seq<SyncEntry>, names: seq<NameEntry>, t: seq<byte>)
    requires Counted(objects) && Counted(names) && Lists(objects, s.objects) && Lists(names, s.named)
    ensures GetSyncs(Feed(PutSyncs(s, objects, names, t), true)) == Got(s, Feed(t, true))
  {
    hide GetU64, GetList, PutU64, PutList, GetSync, PutSync, GetName, PutName, Table, Lists;
    FieldsBack();
    EntriesBack();
    ListBack(PutName, GetName, names, t);
    ListBack(PutSync, GetSync, objects, PutU64(s.nextHandle, PutList(PutName, names, t)));
    TableBack(objects, s.objects);
    TableBack(names, s.named);
  }

  // ---- the open descriptors, as paths and offsets -------------------------------------------------------

  datatype Fd = Fd(fd: i32, path: Text, readable: bool, writable: bool, append: bool, standard: bool, tty: bool,
                   directory: bool, text: bool, wideIo: byte, cloexec: bool, closed: bool, at: u64)

  function PutFd(d: Fd, t: seq<byte>): seq<byte>
  {
    PutI32(d.fd, PutText(d.path, PutBool(d.readable, PutBool(d.writable, PutBool(d.append, PutBool(d.standard,
    PutBool(d.tty, PutBool(d.directory, PutBool(d.text, PutU8(d.wideIo, PutBool(d.cloexec, PutBool(d.closed,
    PutU64(d.at, t)))))))))))))
  }

  function GetFd(f: Feed): Got<Fd>
  {
    var fd := GetI32(f);
    var path := GetText(fd.f);
    var readable := GetBool(path.f);
    var writable := GetBool(readable.f);
    var append := GetBool(writable.f);
    var standard := GetBool(append.f);
    var tty := GetBool(standard.f);
    var directory := GetBool(tty.f);
    var text := GetBool(directory.f);
    var wide := GetU8(text.f);
    var cloexec := GetBool(wide.f);
    var closed := GetBool(cloexec.f);
    var at := GetU64(closed.f);
    Got(Fd(fd.v, path.v, readable.v, writable.v, append.v, standard.v, tty.v, directory.v, text.v, wide.v, cloexec.v,
           closed.v, at.v), at.f)
  }

  lemma FdsBack(ds: seq<Fd>, t: seq<byte>)
    requires Counted(ds)
    ensures GetList(GetFd, Feed(PutList(PutFd, ds, t), true)) == Got(ds, Feed(t, true))
  {
    hide GetList, PutList;
    forall d: Fd, u: seq<byte> ensures GetFd(Feed(PutFd(d, u), true)) == Got(d, Feed(u, true)) {
      FdBack(d, u);
    }
    ListBack(PutFd, GetFd, ds, t);
  }

  lemma FdBack(d: Fd, t: seq<byte>)
    ensures GetFd(Feed(PutFd(d, t), true)) == Got(d, Feed(t, true))
  {
    hide GetU8, GetU64, GetI32, GetBool, GetText, PutU8, PutU64, PutI32, PutBool, PutText;
    FieldsBack();
  }

  // ---- the memory map and the pages ---------------------------------------------------------------------

  datatype Place = Place(base: u64, size: u64, name: Text, file: Text, fileOffset: u64, contiguous: bool)

  function PutPlace(p: Place, t: seq<byte>): seq<byte>
  {
    PutU64(p.base, PutU64(p.size, PutText(p.name, PutText(p.file, PutU64(p.fileOffset, PutBool(p.contiguous, t))))))
  }

  function GetPlace(f: Feed): Got<Place>
  {
    var base := GetU64(f);
    var size := GetU64(base.f);
    var name := GetText(size.f);
    var file := GetText(name.f);
    var offset := GetU64(file.f);
    var contiguous := GetBool(offset.f);
    Got(Place(base.v, size.v, name.v, file.v, offset.v, contiguous.v), contiguous.f)
  }

  /** A page that is carried: its number and its 4096 bytes. */
  datatype Page = Page(index: u64, bytes: seq<byte>)

  type WholePage = p: Page | |p.bytes| == 4096 witness Page(0, seq(4096, i => 0))

  function PutPage(p: WholePage, t: seq<byte>): seq<byte> { PutU64(p.index, PutRaw(p.bytes, t)) }

  /** A page cut short reads as blank; the section is refused. */
  function GetPage(f: Feed): Got<WholePage>
  {
    var index := GetU64(f);
    var bytes := GetRaw(index.f, 4096);
    Got(Page(index.v, if bytes.f.ok then bytes.v else seq(4096, i => 0)), bytes.f)
  }

  lemma PlacesBack()
    ensures forall p: Place, t: seq<byte> :: GetPlace(Feed(PutPlace(p, t), true)) == Got(p, Feed(t, true))
    ensures forall p: WholePage, t: seq<byte> :: GetPage(Feed(PutPage(p, t), true)) == Got(p, Feed(t, true))
  {
    hide GetU64, GetBool, GetText, PutU64, PutBool, PutText, GetRaw, PutRaw;
    FieldsBack();
    forall p: WholePage, t: seq<byte>
      ensures GetRaw(Feed(PutRaw(p.bytes, t), true), 4096) == Got(p.bytes, Feed(t, true))
    {
      RawBack(p.bytes, t);
    }
  }

  /** The pages carried, and the ones left to their files. */
  datatype Pages = Pages(kept: seq<WholePage>, fromFile: seq<u64>)

  function PutPages(s: Pages, t: seq<byte>): seq<byte>
    requires Counted(s.kept) && Counted(s.fromFile)
  {
    PutList(PutPage, s.kept, PutList(PutU64, s.fromFile, t))
  }

  function GetPages(f: Feed): (g: Got<Pages>)
    ensures Counted(g.v.kept) && Counted(g.v.fromFile)
  {
    var kept := GetList(GetPage, f);
    var named := GetList(GetU64, kept.f);
    Got(Pages(kept.v, named.v), named.f)
  }

  lemma PagesBack(s: Pages, t: seq<byte>)
    requires Counted(s.kept) && Counted(s.fromFile)
    ensures GetPages(Feed(PutPages(s, t), true)) == Got(s, Feed(t, true))
  {
    hide GetList, PutList, GetPage, PutPage, GetU64, PutU64;
    FieldsBack();
    PlacesBack();
    ListBack(PutU64, GetU64, s.fromFile, t);
    ListBack(PutPage, GetPage, s.kept, PutList(PutU64, s.fromFile, t));
  }
}
