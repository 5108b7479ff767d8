/** The saved state as a file: tagged sections, what loading makes of them, and what a save puts in. */
module SavedState {
  import opened Bytes
  import opened Stream
  import opened StateRecords
  import opened AddressSpace
  import G = GuestMemory
  import opened Snapshot

  const MAGIC: seq<byte> := [0x58, 0x38, 0x36, 0x45, 0x4D, 0x55, 0x53, 0x54]
  const VERSION: u32 := 1

  const CPU: u32 := 0x2055_5043
  const ALLO: u32 := 0x4F4C_4C41
  const THRD: u32 := 0x4452_4854
  const SYNC: u32 := 0x434E_5953
  const FDS: u32 := 0x2053_4446
  const REGN: u32 := 0x4E47_4552
  const MAPD: u32 := 0x4450_414D
  const PAGE: u32 := 0x4547_4150
  const END: u32 := 0x2044_4E45

  // ---- loading ------------------------------------------------------------------------------------

  /** The emulator's fields that a saved state carries, and the memory it rebuilds. */
  datatype State = State(cpu: CpuState, allo: Allo, threads: Threads, syncs: Syncs, reopened: seq<Fd>,
                         regions: seq<G.Region>, space: Space)

  datatype Outcome = Refused | Loaded(st: State)

  function Str(t: Text): string { seq(|t|, i requires 0 <= i < |t| => t[i] as char) }

  function FromPlace(p: Place): G.Region {
    G.Region(p.base, p.size, Str(p.name), Str(p.file), p.fileOffset, p.contiguous)
  }

  function FromPlaces(ps: seq<Place>): seq<G.Region> { seq(|ps|, i requires 0 <= i < |ps| => FromPlace(ps[i])) }

  /** A page number turned into a 64-bit address names the page modulo 2^52. */
  function PageOf(index: u64): nat { index % 0x10_0000_0000_0000 }

  function PagesIn(xs: seq<u64>): seq<nat> { seq(|xs|, i requires 0 <= i < |xs| => PageOf(xs[i])) }

  function CarriedIn(ps: seq<WholePage>): seq<Carried> {
    seq(|ps|, i requires 0 <= i < |ps| => (PageOf(ps[i].index), ps[i].bytes))
  }

  /** Closed descriptors, directories and the standard streams are not reopened. */
  predicate Reopens(d: Fd) { !d.closed && !d.directory && !d.standard }

  function Reopened(ds: seq<Fd>): seq<Fd>
  {
    if ds == [] then [] else Reopened(ds[..|ds| - 1]) + if Reopens(ds[|ds| - 1]) then [ds[|ds| - 1]] else []
  }

  /** What one section does; a section that comes up short refuses the file. */
  function Apply(st: State, tag: u32, body: seq<byte>, disk: Disk): Outcome
  {
    var f := Feed(body, true);
    if tag == CPU then
      var g := GetCpu(f);
      if g.f.ok then Loaded(st.(cpu := g.v)) else Refused
    else if tag == ALLO then
      var g := GetAllo(f);
      if g.f.ok then Loaded(st.(allo := g.v)) else Refused
    else if tag == THRD then
      var g := GetThreads(f);
      if g.f.ok then Loaded(st.(threads := g.v)) else Refused
    else if tag == SYNC then
      var g := GetSyncs(f);
      if g.f.ok then Loaded(st.(syncs := g.v)) else Refused
    else if tag == FDS then
      var g := GetList(GetFd, f);
      if g.f.ok then Loaded(st.(reopened := st.reopened + Reopened(g.v))) else Refused
    else if tag == REGN then
      var g := GetList(GetPlace, f);
      var regions := st.regions + FromPlaces(g.v);
      if g.f.ok then Loaded(st.(regions := regions, space := LayAll(EMPTY, regions))) else Refused
    else if tag == MAPD then
      var g := GetList(GetU64, f);
      if g.f.ok then Loaded(st.(space := EnsureAll(st.space, PagesIn(g.v)))) else Refused
    else if tag == PAGE then
      var g := GetPages(f);
      if g.f.ok
        then Loaded(st.(space := RefillAll(FillAll(st.space, CarriedIn(g.v.kept)), st.regions, disk,
                                           PagesIn(g.v.fromFile))))
      else Refused
    else Loaded(st)
  }

  predicate Known(tag: u32) { tag in {CPU, ALLO, THRD, SYNC, FDS, REGN, MAPD, PAGE, END} }

  /** The loop over sections. */
  function Sections(f: Feed, st: State, disk: Disk): Outcome
    decreases |f.rest|
  {
    if !f.ok then Refused
    else if |f.rest| < 12 then Loaded(st)
    else
      var tag := GetU32(f);
      var n := GetU64(tag.f);
      if tag.v == END then Loaded(st)
      else
        var body := GetRaw(n.f, n.v);
        if !body.f.ok then Refused
        else
          match Apply(st, tag.v, body.v, disk)
          case Refused => Refused
          case Loaded(next) => Sections(body.f, next, disk)
  }

  /** load_state(); the regions and reopened descriptors start out empty. */
  function Load(file: seq<byte>, st: State, disk: Disk): Outcome
  {
    var magic := GetRaw(Feed(file, true), 8);
    if magic.v != MAGIC then Refused
    else
      var version := GetU32(magic.f);
      var reserved := GetU32(version.f);
      if version.v != VERSION then Refused
      else Sections(reserved.f, st.(regions := [], reopened := []), disk)
  }

  // ---- framing ------------------------------------------------------------------------------------

  datatype Section = Section(tag: u32, body: Text)

  function PutSection(s: Section, t: seq<byte>): (r: seq<byte>)
    ensures |r| == 12 + |s.body| + |t|
  {
    PutU32(s.tag, PutU64(|s.body|, PutRaw(s.body, t)))
  }

  function PutSections(ss: seq<Section>, t: seq<byte>): seq<byte>
    decreases |ss|
  {
    if ss == [] then t else PutSection(ss[0], PutSections(ss[1..], t))
  }

  function PutHeader(t: seq<byte>): seq<byte> { PutRaw(MAGIC, PutU32(VERSION, PutU32(0, t))) }

  /** One section after another. */
  function Fold(st: State, ss: seq<Section>, disk: Disk): Outcome
    decreases |ss|
  {
    if ss == [] then Loaded(st)
    else
      match Apply(st, ss[0].tag, ss[0].body, disk)
      case Refused => Refused
      case Loaded(next) => Fold(next, ss[1..], disk)
  }

  lemma SectionTaken(s: Section, t: seq<byte>, st: State, disk: Disk)
    requires s.tag != END
    ensures Sections(Feed(PutSection(s, t), true), st, disk) ==
            match Apply(st, s.tag, s.body, disk)
            case Refused => Refused
            case Loaded(next) => Sections(Feed(t, true), next, disk)
  {
    hide GetU32, GetU64, PutU32, PutU64, GetRaw, PutRaw, Apply;
    Back32(s.tag, PutU64(|s.body|, PutRaw(s.body, t)));
    Back64(|s.body|, PutRaw(s.body, t));
    RawBack(s.body, t);
  }

  /** Reading framed sections is applying them in order, and then going on with what follows. */
  lemma {:induction false} SectionsTaken(ss: seq<Section>, t: seq<byte>, st: State, disk: Disk)
    requires forall s | s in ss :: s.tag != END
    ensures Sections(Feed(PutSections(ss, t), true), st, disk) ==
            match Fold(st, ss, disk)
            case Refused => Refused
            case Loaded(next) => Sections(Feed(t, true), next, disk)
    decreases |ss|
  {
    hide Sections, PutSection, Apply;
    if ss != [] {
      SectionTaken(ss[0], PutSections(ss[1..], t), st, disk);
      match Apply(st, ss[0].tag, ss[0].body, disk) {
        case Refused =>
        case Loaded(next) => SectionsTaken(ss[1..], t, next, disk);
      }
    }
  }

  lemma EndTaken(t: seq<byte>, st: State, disk: Disk)
    ensures Sections(Feed(PutSection(Section(END, []), t), true), st, disk) == Loaded(st)
  {
    hide GetU32, GetU64, PutU32, PutU64, GetRaw, PutRaw, Apply;
    Back32(END, PutU64(0, PutRaw([], t)));
    Back64(0, PutRaw([], t));
  }

  lemma HeaderTaken(t: seq<byte>, st: State, disk: Disk)
    ensures Load(PutHeader(t), st, disk) == Sections(Feed(t, true), st.(regions := [], reopened := []), disk)
  {
    hide GetU32, PutU32, GetRaw, PutRaw, Sections;
    RawBack(MAGIC, PutU32(VERSION, PutU32(0, t)));
    Back32(VERSION, PutU32(0, t));
    Back32(0, t);
  }

  function WholeFile(ss: seq<Section>): seq<byte> { PutHeader(PutSections(ss, PutSection(Section(END, []), []))) }

  /** A whole file loads as its sections do, one after another. */
  lemma WholeLoads(ss: seq<Section>, st: State, disk: Disk)
    requires forall s | s in ss :: s.tag != END
    ensures Load(WholeFile(ss), st, disk) == Fold(st.(regions := [], reopened := []), ss, disk)
  {
    hide Load, Sections, PutSections, PutSection, Fold;
    var t := PutSection(Section(END, []), []);
    HeaderTaken(PutSections(ss, t), st, disk);
    SectionsTaken(ss, t, st.(regions := [], reopened := []), disk);
    match Fold(st.(regions := [], reopened := []), ss, disk) {
      case Refused =>
      case Loaded(next) => EndTaken([], next, disk);
    }
  }

  lemma {:induction false} FoldSplit(st: State, a: seq<Section>, b: seq<Section>, disk: Disk)
    ensures Fold(st, a + b, disk) ==
            match Fold(st, a, disk)
            case Refused => Refused
            case Loaded(next) => Fold(next, b, disk)
    decreases |a|
  {
    hide Apply;
    if a == [] {
      assert a + b == b;
    } else {
      assert (a + b)[0] == a[0] && (a + b)[1..] == a[1..] + b;
      match Apply(st, a[0].tag, a[0].body, disk) {
        case Refused =>
        case Loaded(next) => FoldSplit(next, a[1..], b, disk);
      }
    }
  }

  /** A section with an unknown tag changes nothing, wherever it is put. */
  lemma UnknownSkipped(a: seq<Section>, s: Section, b: seq<Section>, st: State, disk: Disk)
    requires !Known(s.tag) && forall x | x in a + b :: x.tag != END
    ensures Load(WholeFile(a + [s] + b), st, disk) == Load(WholeFile(a + b), st, disk)
  {
    hide Load, WholeFile, Apply;
    var st' := st.(regions := [], reopened := []);
    assert forall x | x in a + [s] + b :: x in a + b || x == s;
    WholeLoads(a + [s] + b, st, disk);
    WholeLoads(a + b, st, disk);
    FoldSplit(st', a + [s], b, disk);
    FoldSplit(st', a, [s], disk);
    FoldSplit(st', a, b, disk);
    match Fold(st', a, disk) {
      case Refused =>
      case Loaded(next) =>
        UnknownApplied(next, s, disk);
    }
  }

  lemma UnknownApplied(st: State, s: Section, disk: Disk)
    requires !Known(s.tag)
    ensures Fold(st, [s], disk) == Loaded(st)
  {
    assert Apply(st, s.tag, s.body, disk) == Loaded(st);
    assert [s][1..] == [];
  }

  // ---- truncation -----------------------------------------------------------------------------------

  /**
    A file cut m bytes into a section is refused exactly when the cut leaves its tag and length but
    not all of its body; cut at or just after a section boundary it is accepted without an end mark.
    */
  lemma CutAccepted(ss: seq<Section>, s: Section, m: nat, st: State, disk: Disk)
    requires s.tag != END && forall x | x in ss :: x.tag != END
    requires m < 12 + |s.body|
    requires Fold(st.(regions := [], reopened := []), ss, disk).Loaded?
    ensures Load(PutHeader(PutSections(ss, PutSection(s, [])[..m])), st, disk).Loaded? <==> m < 12
  {
    hide Load, Sections, PutSections, PutSection, Fold;
    var t := PutSection(s, [])[..m];
    HeaderTaken(PutSections(ss, t), st, disk);
    SectionsTaken(ss, t, st.(regions := [], reopened := []), disk);
    CutSection(s, m, Fold(st.(regions := [], reopened := []), ss, disk).st, disk);
  }

  lemma CutSection(s: Section, m: nat, st: State, disk: Disk)
    requires s.tag != END && m < 12 + |s.body|
    ensures Sections(Feed(PutSection(s, [])[..m], true), st, disk) == if m < 12 then Loaded(st) else Refused
  {
    if m >= 12 {
      var w := PutSection(s, [])[..m];
      CutParts(s, m);
      hide GetU32, GetU64, PutU32, PutU64, PutSection, Apply;
      Back32(s.tag, PutU64(|s.body|, s.body[..m - 12]));
      Back64(|s.body|, s.body[..m - 12]);
    }
  }

  lemma CutParts(s: Section, m: nat)
    requires 12 <= m <= 12 + |s.body|
    ensures PutSection(s, [])[..m] == PutU32(s.tag, PutU64(|s.body|, s.body[..m - 12]))
  {
    assert PutRaw(s.body, []) == s.body;
  }

  /** Files of another kind, or written by another version, are refused. */
  lemma OthersRefused(file: seq<byte>, st: State, disk: Disk)
    ensures |file| < 16 || file[..8] != MAGIC || FromLE(file[8..12]) != 1 ==> Load(file, st, disk) == Refused
  {
    if |file| >= 12 && file[..8] == MAGIC {
      assert file[8..][..4] == file[8..12] && file[8..][4..] == file[12..];
    }
  }

  // ---- saving -------------------------------------------------------------------------------------

  /** A thread, and whether it waits on a host-side predicate. */
  datatype Guest = Guest(thread: Thread, predicated: bool)

  const RUNNABLE: byte := 0

  /** What is written for a thread: the processor's context if it is running, runnable if a predicate holds it. */
  function Record(g: Guest, running: bool, cpu: CpuState): Thread
  {
    var t := if running then g.thread.(context := cpu.context) else g.thread;
    if g.predicated then t.(state := RUNNABLE, waitHandle := 0) else t
  }

  function Records(gs: seq<Guest>, current: u64, cpu: CpuState): (r: seq<Thread>)
    ensures |r| == |gs|
  {
    seq(|gs|, i requires 0 <= i < |gs| => Record(gs[i], i == current, cpu))
  }

  /** Everything a save reads, with the tables in the order their iteration happens to give. */
  datatype Machine = Machine(cpu: CpuState, allo: Allo, guests: seq<Guest>, current: u64, nextId: u32, syncs: Syncs,
                             fds: seq<Fd>, live: seq<Range>, objects: seq<SyncEntry>, names: seq<NameEntry>,
                             places: seq<Place>, mapped: seq<u64>, pages: Pages)

  /** No list is too long to count. */
  predicate Countable(m: Machine)
  {
    && Counted(m.allo.free) && Counted(m.live) && Counted(m.guests) && Counted(m.objects) && Counted(m.names)
    && Counted(m.fds) && Counted(m.places) && Counted(m.mapped) && Counted(m.pages.kept) && Counted(m.pages.fromFile)
  }

  /** The tables are listed whole. */
  ghost predicate Listed(m: Machine)
  {
    Lists(m.live, m.allo.live) && Lists(m.objects, m.syncs.objects) && Lists(m.names, m.syncs.named)
  }

  function SavedThreads(m: Machine): Threads { Threads(Records(m.guests, m.current, m.cpu), m.current, m.nextId) }

  function Bodies(m: Machine): seq<(u32, seq<byte>)>
    requires Countable(m)
  {
    [(CPU, PutCpu(m.cpu, [])), (ALLO, PutAllo(m.allo, m.live, [])), (THRD, PutThreads(SavedThreads(m), [])),
     (SYNC, PutSyncs(m.syncs, m.objects, m.names, [])), (FDS, PutList(PutFd, m.fds, [])),
     (REGN, PutList(PutPlace, m.places, [])), (MAPD, PutList(PutU64, m.mapped, [])), (PAGE, PutPages(m.pages, []))]
  }

  /** The sections of a save, when each is short enough for its length to be written down. */
  function SaveSections(bs: seq<(u32, seq<byte>)>): seq<Section>
    requires forall i | 0 <= i < |bs| :: |bs[i].1| < 0x1_0000_0000_0000_0000
  {
    seq(|bs|, i requires 0 <= i < |bs| => Section(bs[i].0, bs[i].1))
  }

  /** What the saved machine looks like after loading. */
  function Restored(m: Machine, disk: Disk): State
  {
    var regions := FromPlaces(m.places);
    State(m.cpu, m.allo, SavedThreads(m).(current := if m.current >= |m.guests| then 0 else m.current), m.syncs,
          Reopened(m.fds), regions,
          RefillAll(FillAll(EnsureAll(LayAll(EMPTY, regions), PagesIn(m.mapped)), CarriedIn(m.pages.kept)),
                    regions, disk, PagesIn(m.pages.fromFile)))
  }

  /** Each section, read back, sets its own fields to what was saved. */
  lemma SectionsApplied(m: Machine, st: State, disk: Disk)
    requires Countable(m) && Listed(m)
    ensures Apply(st, CPU, PutCpu(m.cpu, []), disk) == Loaded(st.(cpu := m.cpu))
    ensures Apply(st, ALLO, PutAllo(m.allo, m.live, []), disk) == Loaded(st.(allo := m.allo))
    ensures Apply(st, THRD, PutThreads(SavedThreads(m), []), disk) ==
            Loaded(st.(threads := SavedThreads(m).(current := if m.current >= |m.guests| then 0 else m.current)))
    ensures Apply(st, SYNC, PutSyncs(m.syncs, m.objects, m.names, []), disk) == Loaded(st.(syncs := m.syncs))
    ensures Apply(st, FDS, PutList(PutFd, m.fds, []), disk) == Loaded(st.(reopened := st.reopened + Reopened(m.fds)))
  {
    hide GetCpu, PutCpu, GetAllo, PutAllo, GetThreads, PutThreads, GetSyncs, PutSyncs, GetList, PutList, Reopened,
         Records;
    CpuBack(m.cpu, []);
    AlloBack(m.allo, m.live, []);
    ThreadsBack(SavedThreads(m), []);
    SyncsBack(m.syncs, m.objects, m.names, []);
    FdsBack(m.fds, []);
  }

  lemma MemoryApplied(m: Machine, st: State, disk: Disk)
    requires Countable(m) && Listed(m)
    ensures var regions := st.regions + FromPlaces(m.places);
            Apply(st, REGN, PutList(PutPlace, m.places, []), disk) ==
              Loaded(st.(regions := regions, space := LayAll(EMPTY, regions)))
    ensures Apply(st, MAPD, PutList(PutU64, m.mapped, []), disk) ==
              Loaded(st.(space := EnsureAll(st.space, PagesIn(m.mapped))))
    ensures Apply(st, PAGE, PutPages(m.pages, []), disk) ==
            Loaded(st.(space := RefillAll(FillAll(st.space, CarriedIn(m.pages.kept)), st.regions, disk,
                                          PagesIn(m.pages.fromFile))))
  {
    hide GetPages, PutPages, GetList, PutList, LayAll, EnsureAll, FillAll, RefillAll, GetU64, PutU64, GetPlace,
         PutPlace;
    FieldsBack();
    PlacesBack();
    ListBack(PutPlace, GetPlace, m.places, []);
    ListBack(PutU64, GetU64, m.mapped, []);
    PagesBack(m.pages, []);
  }

  /** The sections still to come, from number i. */
  lemma FoldStep(st: State, ss: seq<Section>, i: nat, disk: Disk)
    requires i < |ss| && Apply(st, ss[i].tag, ss[i].body, disk).Loaded?
    ensures Fold(st, ss[i..], disk) == Fold(Apply(st, ss[i].tag, ss[i].body, disk).st, ss[i + 1..], disk)
  {
    hide Apply;
    assert ss[i..][1..] == ss[i + 1..];
  }

  predicate Writable(m: Machine)
  {
    Countable(m) && forall i | 0 <= i < |Bodies(m)| :: |Bodies(m)[i].1| < 0x1_0000_0000_0000_0000
  }

  function File(m: Machine): seq<Section>
    requires Writable(m)
  {
    SaveSections(Bodies(m))
  }

  lemma FirstSections(m: Machine, s0: State, disk: Disk)
    requires Writable(m) && Listed(m)
    ensures Fold(s0, File(m), disk) ==
            Fold(s0.(cpu := m.cpu, allo := m.allo, threads := Restored(m, disk).threads, syncs := m.syncs,
                     reopened := s0.reopened + Reopened(m.fds)),
                 File(m)[5..], disk)
  {
    hide Apply, PutCpu, PutAllo, PutThreads, PutSyncs, PutList, PutPages, LayAll, EnsureAll, FillAll, RefillAll, Listed,
         Fold, Reopened;
    var ss := File(m);
    assert ss[0..] == ss;
    SectionsApplied(m, s0, disk);
    FoldStep(s0, ss, 0, disk);
    var s1 := s0.(cpu := m.cpu);
    SectionsApplied(m, s1, disk);
    FoldStep(s1, ss, 1, disk);
    var s2 := s1.(allo := m.allo);
    SectionsApplied(m, s2, disk);
    FoldStep(s2, ss, 2, disk);
    var s3 := s2.(threads := Restored(m, disk).threads);
    SectionsApplied(m, s3, disk);
    FoldStep(s3, ss, 3, disk);
    var s4 := s3.(syncs := m.syncs);
    SectionsApplied(m, s4, disk);
    FoldStep(s4, ss, 4, disk);
  }

  lemma LastSections(m: Machine, s5: State, disk: Disk)
    requires Writable(m) && Listed(m) && s5.regions == []
    ensures Fold(s5, File(m)[5..], disk) ==
              Loaded(s5.(regions := FromPlaces(m.places), space := Restored(m, disk).space))
  {
    hide Apply, PutCpu, PutAllo, PutThreads, PutSyncs, PutList, PutPages, LayAll, EnsureAll, FillAll, RefillAll, Listed;
    var ss := File(m);
    MemoryApplied(m, s5, disk);
    FoldStep(s5, ss, 5, disk);
    assert [] + FromPlaces(m.places) == FromPlaces(m.places);
    var s6 := s5.(regions := FromPlaces(m.places), space := LayAll(EMPTY, FromPlaces(m.places)));
    MemoryApplied(m, s6, disk);
    FoldStep(s6, ss, 6, disk);
    var s7 := s6.(space := EnsureAll(s6.space, PagesIn(m.mapped)));
    MemoryApplied(m, s7, disk);
    FoldStep(s7, ss, 7, disk);
    assert ss[8..] == [];
  }

  /** Loading what was saved gives it back, the running thread live and predicate waits runnable. */
  lemma SaveLoads(m: Machine, st: State, disk: Disk)
    requires Writable(m) && Listed(m)
    ensures Load(WholeFile(File(m)), st, disk) == Loaded(Restored(m, disk))
  {
    hide Load, WholeFile, Apply, Fold, Listed, PutCpu, PutAllo, PutThreads, PutSyncs, PutList, PutPages, LayAll,
         EnsureAll, FillAll, RefillAll, Reopened;
    var s0 := st.(regions := [], reopened := []);
    WholeLoads(File(m), st, disk);
    FirstSections(m, s0, disk);
    assert [] + Reopened(m.fds) == Reopened(m.fds);
    LastSections(m, s0.(cpu := m.cpu, allo := m.allo, threads := Restored(m, disk).threads, syncs := m.syncs,
                        reopened := Reopened(m.fds)), disk);
  }

  /**
    A thread's record as it is saved: every field its own, but for the context, which is the live
    processor's when the thread is running, and for what it waits on, which is nothing when a
    predicate holds it.
    */
  predicate ThreadSaved(t: Thread, g: Guest, running: bool, cpu: CpuState)
  {
    && t.id == g.thread.id && t.handle == g.thread.handle && t.stackBase == g.thread.stackBase
    && t.stackSize == g.thread.stackSize && t.teb == g.thread.teb && t.tlsArray == g.thread.tlsArray
    && t.tlsSlots == g.thread.tlsSlots && t.exitCode == g.thread.exitCode && t.wakeAt == g.thread.wakeAt
    && t.clearChildTid == g.thread.clearChildTid
    && t.context == (if running then cpu.context else g.thread.context)
    && t.state == (if g.predicated then 0 else g.thread.state)
    && t.waitHandle == (if g.predicated then 0 else g.thread.waitHandle)
  }

  lemma RecordsSaved(gs: seq<Guest>, current: u64, cpu: CpuState)
    ensures forall i | 0 <= i < |gs| :: ThreadSaved(Records(gs, current, cpu)[i], gs[i], i == current, cpu)
  {
  }

  /**
    After loading the file, every thread's record is its own, the running one with the live
    processor's context, and no thread waits on a predicate.
    */
  lemma RunningIsLive(m: Machine, st: State, disk: Disk)
    requires Writable(m) && Listed(m)
    ensures var o := Load(WholeFile(File(m)), st, disk);
            && o.Loaded? && |o.st.threads.list| == |m.guests| && o.st.threads.nextId == m.nextId
            && o.st.threads.current == (if m.current >= |m.guests| then 0 else m.current) && o.st.cpu == m.cpu
            && forall i | 0 <= i < |m.guests| ::
                 ThreadSaved(o.st.threads.list[i], m.guests[i], i == m.current, m.cpu)
  {
    hide Load, WholeFile, File, Writable, Listed, Records, ThreadSaved;
    SaveLoads(m, st, disk);
    RecordsSaved(m.guests, m.current, m.cpu);
  }

  /** The descriptors among the first n that are neither closed nor directories nor standard. */
  function Files(ds: seq<Fd>, n: nat): set<nat>
    requires n <= |ds|
  {
    set i: nat | i < n && !(ds[i].closed || ds[i].directory || ds[i].standard)
  }

  /** Entry i is where the entries like it before it put it. */
  predicate InPlace(ds: seq<Fd>, r: seq<Fd>, i: nat)
    requires i < |ds|
  {
    |Files(ds, i)| < |r| && r[|Files(ds, i)|] == ds[i]
  }

  lemma FilesBefore(ds: seq<Fd>, k: nat)
    requires ds != [] && k < |ds|
    ensures Files(ds[..|ds| - 1], k) == Files(ds, k)
  {
  }

  lemma FilesNext(ds: seq<Fd>, n: nat)
    requires n < |ds|
    ensures var d := ds[n];
            |Files(ds, n + 1)| == |Files(ds, n)| + if d.closed || d.directory || d.standard then 0 else 1
    ensures forall i | i in Files(ds, n + 1) :: i == n || i in Files(ds, n)
  {
    assert n !in Files(ds, n);
    assert Files(ds, n + 1) == if n in Files(ds, n + 1) then Files(ds, n) + {n} else Files(ds, n);
  }

  /** Those are the ones reopened, in the order they were saved. */
  lemma {:induction false} ReopenedIs(ds: seq<Fd>)
    ensures |Reopened(ds)| == |Files(ds, |ds|)|
    ensures forall i | i in Files(ds, |ds|) :: InPlace(ds, Reopened(ds), i)
    decreases |ds|
  {
    if ds != [] {
      var before, n := ds[..|ds| - 1], |ds| - 1;
      ReopenedIs(before);
      FilesNext(ds, n);
      FilesBefore(ds, n);
      forall i | i in Files(ds, |ds|)
        ensures InPlace(ds, Reopened(ds), i)
      {
        FilesBefore(ds, i);
        if i < n {
          assert InPlace(before, Reopened(before), i);
        }
      }
    }
  }

  /** The word whose bytes are those four characters, the first one lowest. */
  predicate Spells(x: u32, s: string)
  {
    |s| == 4 && ToLE(x, 4) == [s[0] as int % 256, s[1] as int % 256, s[2] as int % 256, s[3] as int % 256]
  }

  /** The magic and the tags are what they spell. */
  lemma TagsSpell()
    ensures Spells(CPU, "CPU ") && Spells(ALLO, "ALLO") && Spells(THRD, "THRD") && Spells(SYNC, "SYNC")
    ensures Spells(FDS, "FDS ") && Spells(REGN, "REGN") && Spells(MAPD, "MAPD") && Spells(PAGE, "PAGE")
    ensures Spells(END, "END ")
    ensures MAGIC == ['X' as int, '8' as int, '6' as int, 'E' as int, 'M' as int, 'U' as int, 'S' as int, 'T' as int]
  {
    hide ToLE;
    FourBytes(CPU, 0x43, 0x50, 0x55, 0x20);
    FourBytes(ALLO, 0x41, 0x4C, 0x4C, 0x4F);
    FourBytes(THRD, 0x54, 0x48, 0x52, 0x44);
    FourBytes(SYNC, 0x53, 0x59, 0x4E, 0x43);
    FourBytes(FDS, 0x46, 0x44, 0x53, 0x20);
    FourBytes(REGN, 0x52, 0x45, 0x47, 0x4E);
    FourBytes(MAPD, 0x4D, 0x41, 0x50, 0x44);
    FourBytes(PAGE, 0x50, 0x41, 0x47, 0x45);
    FourBytes(END, 0x45, 0x4E, 0x44, 0x20);
  }

  lemma FourBytes(x: nat, a: byte, b: byte, c: byte, d: byte)
    requires x == a + 256 * (b + 256 * (c + 256 * d))
    ensures ToLE(x, 4) == [a, b, c, d]
  {
    assert ToLE(d, 1) == [d] + ToLE(0, 0);
    assert ToLE(c + 256 * d, 2) == [c] + ToLE(d, 1);
    assert ToLE(b + 256 * (c + 256 * d), 3) == [b] + ToLE(c + 256 * d, 2);
  }
}
