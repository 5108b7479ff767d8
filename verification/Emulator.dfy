/** The emulator's side of saving and loading: which fields go where, and what a round trip gives. */
module Emulator {
  import opened Bytes
  import opened Wrappers
  import opened Stream
  import opened StateRecords
  import opened AddressSpace
  import G = GuestMemory
  import S = Snapshot
  import opened SavedState
  import IO = StateIO

  function ThreadsOf(gs: seq<Guest>): seq<Thread> { seq(|gs|, i requires 0 <= i < |gs| => gs[i].thread) }

  function GuestsOf(ts: seq<Thread>): seq<Guest> { seq(|ts|, i requires 0 <= i < |ts| => Guest(ts[i], false)) }

  lemma GuestsBack(ts: seq<Thread>)
    ensures ThreadsOf(GuestsOf(ts)) == ts
  {
  }

  // ---- what the file can hold -----------------------------------------------------------------------

  /** A name made of bytes. */
  predicate Narrow(s: string) { |s| < 0x1_0000_0000_0000_0000 && forall i | 0 <= i < |s| :: (s[i] as int) < 256 }

  function Unstr(s: string): Text
    requires Narrow(s)
  {
    seq<byte>(|s|, i requires 0 <= i < |s| => s[i] as int)
  }

  lemma StrBack(s: string)
    requires Narrow(s)
    ensures Str(Unstr(s)) == s
  {
  }

  predicate NarrowRegion(r: G.Region)
  {
    && r.base < 0x1_0000_0000_0000_0000 && r.size < 0x1_0000_0000_0000_0000 && r.fileOffset < 0x1_0000_0000_0000_0000
    && Narrow(r.name) && Narrow(r.file)
  }

  function ToPlace(r: G.Region): Place
    requires NarrowRegion(r)
  {
    Place(r.base, r.size, Unstr(r.name), Unstr(r.file), r.fileOffset, r.contiguous)
  }

  /** The memory's addresses and names fit the 64-bit words and byte strings of the file. */
  ghost predicate Portable(mem: G.Memory)
    reads mem
  {
    (forall r | r in mem.regions :: NarrowRegion(r)) && forall p | p in mem.flat :: p < 0x10_0000_0000_0000
  }

  function ToPlaces(rs: seq<G.Region>): (ps: seq<Place>)
    requires forall r | r in rs :: NarrowRegion(r)
  {
    seq(|rs|, i requires 0 <= i < |rs| => assert rs[i] in rs; ToPlace(rs[i]))
  }

  lemma PlacesRestored(rs: seq<G.Region>)
    requires forall r | r in rs :: NarrowRegion(r)
    ensures FromPlaces(ToPlaces(rs)) == rs
  {
    forall i | 0 <= i < |rs| ensures FromPlaces(ToPlaces(rs))[i] == rs[i] {
      assert rs[i] in rs;
      StrBack(rs[i].name);
      StrBack(rs[i].file);
    }
  }

  function ToWords(ps: seq<nat>): seq<u64>
    requires forall i | 0 <= i < |ps| :: ps[i] < 0x10_0000_0000_0000
  {
    seq<u64>(|ps|, i requires 0 <= i < |ps| => ps[i])
  }

  lemma WordsRestored(ps: seq<nat>)
    requires forall i | 0 <= i < |ps| :: ps[i] < 0x10_0000_0000_0000
    ensures PagesIn(ToWords(ps)) == ps
  {
    forall i | 0 <= i < |ps| ensures PagesIn(ToWords(ps))[i] == ps[i] {
    }
  }

  function ToPages(cs: seq<S.Carried>): seq<WholePage>
    requires forall c | c in cs :: c.0 < 0x10_0000_0000_0000
  {
    seq<WholePage>(|cs|, i requires 0 <= i < |cs| => assert cs[i] in cs; Page(cs[i].0, cs[i].1))
  }

  lemma PagesRestored(cs: seq<S.Carried>)
    requires forall c | c in cs :: c.0 < 0x10_0000_0000_0000
    ensures CarriedIn(ToPages(cs)) == cs
  {
    forall i | 0 <= i < |cs| ensures CarriedIn(ToPages(cs))[i] == cs[i] {
      assert cs[i] in cs;
    }
  }

  /** The entries of a table in the order its iteration happens to give. */
  method ListTable<K(==, !new), V(!new)>(m: map<K, V>) returns (es: seq<(K, V)>)
    ensures Lists(es, m)
  {
    es := [];
    var todo := m.Keys;
    while todo != {}
      invariant todo <= m.Keys && Agrees(es, m)
      invariant forall k | k in m && k !in todo :: exists i :: 0 <= i < |es| && es[i].0 == k
    {
      var k :| k in todo;
      ghost var before := es;
      es := es + [(k, m[k])];
      todo := todo - {k};
      forall j | j in m && j !in todo ensures exists i :: 0 <= i < |es| && es[i].0 == j {
        if j == k {
          assert es[|before|].0 == k;
        } else {
          var i :| 0 <= i < |before| && before[i].0 == j;
          assert es[i].0 == j;
        }
      }
    }
  }

  /** What follows the header, when the header is right. */
  function HeaderOf(f: Feed): Option<Feed>
  {
    var magic := GetRaw(f, 8);
    var version := GetU32(magic.f);
    if magic.v != MAGIC || version.v != VERSION then None else Some(GetU32(version.f).f)
  }

  method ReadHeader(r: Reader) returns (ok: bool)
    requires r.Valid()
    modifies r
    ensures r.Valid() && ok == HeaderOf(old(r.Now())).Some?
    ensures ok ==> r.Now() == HeaderOf(old(r.Now())).value
  {
    hide GetU32, GetRaw;
    var magic := r.Block(8);
    if magic != MAGIC {
      return false;
    }
    var version := r.U32();
    var _ := r.U32();
    ok := version == VERSION;
  }

  method OpenFile(file: seq<byte>) returns (ok: bool, r: Reader)
    ensures fresh(r) && r.Valid() && ok == HeaderOf(Feed(file, true)).Some?
    ensures ok ==> r.Now() == HeaderOf(Feed(file, true)).value
  {
    r := new Reader(file);
    ok := ReadHeader(r);
  }

  class Emulator {
    const mem: G.Memory
    var cpu: CpuState
    var allo: Allo
    var guests: seq<Guest>
    var current: u64
    var nextId: u32
    var syncs: Syncs
    /** The descriptor table as paths and offsets; a pipe among them cannot be saved. */
    var fds: seq<Fd>
    var hasPipe: bool
    /** The descriptors a load has asked to have reopened. */
    var reopened: seq<Fd>

    constructor (memory: G.Memory, c: CpuState, a: Allo, gs: seq<Guest>, running: u64, nextThread: u32, y: Syncs,
                 ds: seq<Fd>, pipe: bool)
      ensures mem == memory && cpu == c && allo == a && guests == gs && current == running && nextId == nextThread
      ensures syncs == y && fds == ds && hasPipe == pipe && reopened == []
    {
      mem, cpu, allo, guests, current, nextId, syncs := memory, c, a, gs, running, nextThread, y;
      fds, hasPipe, reopened := ds, pipe, [];
    }

    ghost function Now(regions: seq<G.Region>): (st: State)
      reads this, mem
      ensures st.regions == regions && st.reopened == reopened
    {
      State(cpu, allo, Threads(ThreadsOf(guests), current, nextId), syncs, reopened, regions, mem.Abs())
    }

    /** No thread waits on a predicate. */
    ghost predicate Unblocked()
      reads this
    {
      forall i | 0 <= i < |guests| :: !guests[i].predicated
    }

    method LoadThreads(s: Reader)
      requires s.Valid()
      modifies s, `guests, `current, `nextId
      ensures s.Valid() && Got(Threads(ThreadsOf(guests), current, nextId), s.Now()) == GetThreads(old(s.Now()))
      ensures Unblocked()
    {
      hide GetThreads;
      var t := IO.ReadThreads(s);
      GuestsBack(t.list);
      guests, current, nextId := GuestsOf(t.list), t.current, t.nextId;
    }

    method LoadFds(s: Reader)
      requires s.Valid()
      modifies s, `reopened
      ensures s.Valid() && var g := GetList(GetFd, old(s.Now()));
              reopened == old(reopened) + Reopened(g.v) && s.Now() == g.f
    {
      hide GetFd, GetU64, GetAll, Reopened;
      var n := s.U64();
      var ds := IO.ReadFds(s, n);
      Reopen(ds);
    }

    method LoadRegions(s: Reader, regions: seq<G.Region>, ghost disk: S.Disk) returns (all: seq<G.Region>)
      requires s.Valid() && s.ok && mem.Valid()
      modifies s, mem, mem.tlb, mem.tlbw
      ensures s.Valid() && mem.Valid()
      ensures s.ok <==> Apply(old(Now(regions)), REGN, old(s.Now().rest), disk).Loaded?
      ensures s.ok ==> Now(all) == Apply(old(Now(regions)), REGN, old(s.Now().rest), disk).st
    {
      hide G.Memory.Valid, G.Memory.Abs, GetPlace, GetU64, GetAll, FromPlaces, ThreadsOf, S.LayAll;
      var n := s.U64();
      var ps := IO.ReadPlaces(s, n);
      all := regions + FromPlaces(ps);
      S.LayRegions(mem, all);
    }

    method LoadMapped(s: Reader, ghost regions: seq<G.Region>, ghost disk: S.Disk)
      requires s.Valid() && s.ok && mem.Valid()
      modifies s, mem, mem.tlb, mem.tlbw
      ensures s.Valid() && mem.Valid()
      ensures s.ok <==> Apply(old(Now(regions)), MAPD, old(s.Now().rest), disk).Loaded?
      ensures s.ok ==> Now(regions) == Apply(old(Now(regions)), MAPD, old(s.Now().rest), disk).st
    {
      hide G.Memory.Valid, G.Memory.Abs, GetU64, GetAll, PagesIn, ThreadsOf, S.EnsureAll;
      var n := s.U64();
      var ps := IO.ReadU64s(s, n);
      S.EnsurePages(mem, PagesIn(ps));
    }

    method LoadPages(s: Reader, regions: seq<G.Region>, disk: S.Disk)
      requires s.Valid() && s.ok && mem.Valid()
      modifies s, mem, mem.tlb, mem.tlbw
      ensures s.Valid() && mem.Valid()
      ensures s.ok <==> Apply(old(Now(regions)), PAGE, old(s.Now().rest), disk).Loaded?
      ensures s.ok ==> Now(regions) == Apply(old(Now(regions)), PAGE, old(s.Now().rest), disk).st
    {
      hide G.Memory.Valid, G.Memory.Abs, GetU64, GetAll, GetPage, PagesIn, CarriedIn, ThreadsOf, S.FillAll, S.RefillAll;
      var n := s.U64();
      var ps := IO.ReadCarried(s, n);
      S.FillPages(mem, CarriedIn(ps));
      var k := s.U64();
      var named := IO.ReadU64s(s, k);
      S.RefillPages(mem, regions, disk, PagesIn(named));
    }

    /** One section of the emulator's own fields. */
    method LoadRecords(tag: u32, s: Reader, ghost regions: seq<G.Region>, ghost disk: S.Disk)
      requires s.Valid() && s.ok && mem.Valid() && tag != REGN && tag != MAPD && tag != PAGE
      modifies s, `cpu, `allo, `guests, `current, `nextId, `syncs, `reopened
      ensures s.Valid() && mem.Valid() && (old(Unblocked()) ==> Unblocked())
      ensures s.ok <==> Apply(old(Now(regions)), tag, old(s.Now().rest), disk).Loaded?
      ensures s.ok ==> Now(regions) == Apply(old(Now(regions)), tag, old(s.Now().rest), disk).st
    {
      hide G.Memory.Valid, G.Memory.Abs, GetCpu, GetAllo, GetThreads, GetSyncs, GetList, Reopened, ThreadsOf;
      if tag == CPU {
        cpu := IO.ReadCpu(s);
      } else if tag == ALLO {
        allo := IO.ReadAllo(s);
      } else if tag == THRD {
        LoadThreads(s);
      } else if tag == SYNC {
        syncs := IO.ReadSyncs(s);
      } else if tag == FDS {
        LoadFds(s);
      }
    }

    /** One section. */
    method LoadSection(tag: u32, body: seq<byte>, regions: seq<G.Region>, disk: S.Disk)
      returns (ok: bool, regions': seq<G.Region>)
      requires mem.Valid()
      modifies this, mem, mem.tlb, mem.tlbw
      ensures mem.Valid() && (old(Unblocked()) ==> Unblocked())
      ensures ok == Apply(old(Now(regions)), tag, body, disk).Loaded?
      ensures ok ==> Now(regions') == Apply(old(Now(regions)), tag, body, disk).st
    {
      hide G.Memory.Valid, Now, Apply;
      regions' := regions;
      var s := new Reader(body);
      if tag == REGN {
        regions' := LoadRegions(s, regions, disk);
      } else if tag == MAPD {
        LoadMapped(s, regions, disk);
      } else if tag == PAGE {
        LoadPages(s, regions, disk);
      } else {
        LoadRecords(tag, s, regions, disk);
      }
      ok := s.ok;
    }

    method Reopen(ds: seq<Fd>)
      modifies `reopened
      ensures reopened == old(reopened) + Reopened(ds)
    {
      for i := 0 to |ds|
        invariant reopened == old(reopened) + Reopened(ds[..i])
      {
        assert ds[..i + 1][..i] == ds[..i];
        if Reopens(ds[i]) {
          reopened := reopened + [ds[i]];
        }
      }
      assert ds[..|ds|] == ds;
    }

    /** load_state() */
    method LoadState(file: seq<byte>, disk: S.Disk) returns (ok: bool, regions: seq<G.Region>)
      requires mem.Valid() && reopened == []
      modifies this, mem, mem.tlb, mem.tlbw
      ensures mem.Valid() && (old(Unblocked()) ==> Unblocked())
      ensures ok == Load(file, old(Now([])), disk).Loaded?
      ensures ok ==> Now(regions) == Load(file, old(Now([])), disk).st
    {
      hide HeaderOf, Load, Sections, Now, G.Memory.Valid, G.Memory.Abs;
      LoadIs(file, Now([]), disk);
      var good, r := OpenFile(file);
      if !good {
        return false, [];
      }
      ok, regions := LoadSections(r, disk);
    }

    method LoadSections(r: Reader, disk: S.Disk) returns (ok: bool, regions: seq<G.Region>)
      requires r.Valid() && mem.Valid()
      modifies r, this, mem, mem.tlb, mem.tlbw
      ensures mem.Valid() && (old(Unblocked()) ==> Unblocked())
      ensures ok == Sections(old(r.Now()), old(Now([])), disk).Loaded?
      ensures ok ==> Now(regions) == Sections(old(r.Now()), old(Now([])), disk).st
    {
      hide Sections, Now, G.Memory.Valid, G.Memory.Abs, Apply, GetU32, GetU64, GetRaw;
      regions := [];
      ghost var o := Sections(r.Now(), Now([]), disk);
      while r.ok && |r.buf| - r.at >= 12
        invariant r.Valid() && mem.Valid() && o == Sections(r.Now(), Now(regions), disk)
        invariant old(Unblocked()) ==> Unblocked()
        decreases |r.buf| - r.at
      {
        SectionsStep(r.Now(), Now(regions), disk);
        var tag := r.U32();
        var n := r.U64();
        if tag == END {
          return true, regions;
        }
        var body := r.Block(n);
        if !r.ok {
          return false, [];
        }
        ghost var st := Now(regions);
        var fine;
        fine, regions := LoadSection(tag, body, regions, disk);
        if !fine {
          return false, [];
        }
      }
      SectionsEnd(r.Now(), Now(regions), disk);
      ok := r.ok;
    }

    /** m holds what a save of this emulator writes, and snap what it takes of the memory. */
    ghost predicate Describes(m: Machine, snap: S.Snapshot, disk: S.Disk)
      reads this, mem
    {
      && Listed(m) && m.cpu == cpu && m.allo == allo && m.guests == guests && m.current == current && m.nextId == nextId
      && m.syncs == syncs && m.fds == fds && S.Takes(snap, mem.flat, mem.regions, disk)
      && FromPlaces(m.places) == snap.regions && PagesIn(m.mapped) == snap.mapped
      && CarriedIn(m.pages.kept) == snap.kept && PagesIn(m.pages.fromFile) == snap.fromFile
    }

    /** The memory's part of a save, in the words of the file. */
    method TakeMemory(disk: S.Disk) returns (ghost snap: S.Snapshot, places: seq<Place>, mapped: seq<u64>, pages: Pages)
      requires mem.Valid() && Portable(mem)
      ensures S.Takes(snap, mem.flat, mem.regions, disk)
      ensures FromPlaces(places) == snap.regions && PagesIn(mapped) == snap.mapped
      ensures CarriedIn(pages.kept) == snap.kept && PagesIn(pages.fromFile) == snap.fromFile
    {
      hide G.Memory.Valid, NarrowRegion, ToPlace, FromPlaces, CarriedIn, PagesIn, ToPlaces, ToWords, ToPages;
      var taken := S.SaveMemory(mem, disk);
      Fits(taken, mem, disk);
      PlacesRestored(taken.regions);
      WordsRestored(taken.mapped);
      WordsRestored(taken.fromFile);
      PagesRestored(taken.kept);
      snap, places, mapped := taken, ToPlaces(taken.regions), ToWords(taken.mapped);
      pages := Pages(ToPages(taken.kept), ToWords(taken.fromFile));
    }

    /** save_state(): refused with a pipe open; no list on a host is too long to be counted. */
    method SaveState(disk: S.Disk) returns (r: Option<seq<byte>>, ghost m: Machine, ghost snap: S.Snapshot)
      requires mem.Valid() && Portable(mem)
      ensures r.Some? <==> !hasPipe && Writable(m)
      ensures Describes(m, snap, disk) && (r.Some? ==> r.value == WholeFile(File(m)))
    {
      hide G.Memory.Valid, Portable, FromPlaces, CarriedIn, PagesIn, Lists, Writable, File, WholeFile, S.Takes;
      var live := ListTable(allo.live);
      var objects := ListTable(syncs.objects);
      var names := ListTable(syncs.named);
      var places, mapped, pages;
      snap, places, mapped, pages := TakeMemory(disk);
      var all := Machine(cpu, allo, guests, current, nextId, syncs, fds, live, objects, names, places, mapped, pages);
      m := all;
      if hasPipe || !Writable(all) {
        return None, m, snap;
      }
      var file := IO.SaveFile(all);
      r := Some(file);
    }
  }

  /** The header, for an emulator that has recorded no regions and reopened nothing yet. */
  lemma LoadIs(file: seq<byte>, st: State, disk: S.Disk)
    requires st.regions == [] && st.reopened == []
    ensures Load(file, st, disk) ==
            match HeaderOf(Feed(file, true))
            case None => Refused
            case Some(f) => Sections(f, st, disk)
  {
    hide Sections, GetRaw, GetU32;
    assert st.(regions := [], reopened := []) == st;
  }

  lemma SectionsEnd(f: Feed, st: State, disk: S.Disk)
    requires !f.ok || |f.rest| < 12
    ensures Sections(f, st, disk) == if f.ok then Loaded(st) else Refused
  {
  }

  /** One turn of the loop over sections: tag and length can be read, and so the feed gets shorter. */
  lemma SectionsStep(f: Feed, st: State, disk: S.Disk)
    requires f.ok && |f.rest| >= 12
    ensures var tag := GetU32(f); var n := GetU64(tag.f); var body := GetRaw(n.f, n.v);
            && n.f.ok && |n.f.rest| == |f.rest| - 12 && |body.f.rest| <= |n.f.rest|
            && Sections(f, st, disk) ==
               if tag.v == END then Loaded(st)
               else if !body.f.ok then Refused
               else
                 match Apply(st, tag.v, body.v, disk)
                 case Refused => Refused
                 case Loaded(next) => Sections(body.f, next, disk)
  {
    hide Apply;
  }

  lemma Fits(snap: S.Snapshot, mem: G.Memory, disk: S.Disk)
    requires Portable(mem) && S.Takes(snap, mem.flat, mem.regions, disk)
    ensures forall r | r in snap.regions :: NarrowRegion(r)
    ensures forall i | 0 <= i < |snap.mapped| :: snap.mapped[i] < 0x10_0000_0000_0000
    ensures forall i | 0 <= i < |snap.fromFile| :: snap.fromFile[i] < 0x10_0000_0000_0000
    ensures forall c | c in snap.kept :: c.0 < 0x10_0000_0000_0000
  {
    forall i | 0 <= i < |snap.mapped| ensures snap.mapped[i] < 0x10_0000_0000_0000 {
      assert snap.mapped[i] in snap.mapped;
    }
    forall i | 0 <= i < |snap.fromFile| ensures snap.fromFile[i] < 0x10_0000_0000_0000 {
      assert snap.fromFile[i] in snap.fromFile;
    }
  }

  /** What loading rebuilds is what the snapshot says. */
  lemma RestoredSpace(m: Machine, snap: S.Snapshot, disk: S.Disk)
    requires FromPlaces(m.places) == snap.regions && PagesIn(m.mapped) == snap.mapped
    requires CarriedIn(m.pages.kept) == snap.kept && PagesIn(m.pages.fromFile) == snap.fromFile
    ensures Restored(m, disk).space == S.Rebuilt(snap, disk) && Restored(m, disk).regions == snap.regions
  {
  }

  /**
    Saved and loaded into another emulator, with the mapped files unchanged: the processor, the
    allocators, the threads and the waitable objects are as they were saved; every page has its
    bytes; and any other page mapped is blank and inside a recorded region.
    */
  method SaveThenLoad(e: Emulator, other: Emulator, disk: S.Disk)
    returns (saved: bool, ghost m: Machine, ghost snap: S.Snapshot)
    requires e.mem.Valid() && Portable(e.mem) && other.mem.Valid() && other.reopened == []
    requires e != other && e.mem != other.mem && {e.mem.tlb, e.mem.tlbw} !! {other.mem.tlb, other.mem.tlbw}
    modifies other, other.mem, other.mem.tlb, other.mem.tlbw
    ensures old(e.Describes(m, snap, disk)) && (saved <==> !e.hasPipe && Writable(m))
    ensures saved ==>
              other.mem.Valid() && other.cpu == e.cpu && other.allo == e.allo && other.syncs == e.syncs
                && other.reopened == Reopened(e.fds)
    ensures saved ==> other.nextId == e.nextId && other.current == (if e.current >= |e.guests| then 0 else e.current)
                      && |other.guests| == |e.guests|
                      && forall i | 0 <= i < |e.guests| ::
                           ThreadSaved(other.guests[i].thread, e.guests[i], i == e.current, e.cpu)
    ensures old(other.Unblocked()) ==> other.Unblocked()
    ensures saved ==> forall p | p in e.mem.flat :: p in other.mem.flat && other.mem.flat[p] == e.mem.flat[p]
    ensures saved ==>
              forall p | p in other.mem.flat && p !in e.mem.flat ::
                other.mem.flat[p] == ZeroPage() && S.InRegion(e.mem.regions, p)
  {
    hide G.Memory.Valid, G.Memory.Abs, Portable, Load, WholeFile, File, S.Takes, S.Rebuilt, Writable, Listed, Records,
         FromPlaces, PagesIn, CarriedIn, S.InRegion, ThreadSaved;
    var r;
    r, m, snap := e.SaveState(disk);
    if r.None? {
      return false, m, snap;
    }
    SaveLoads(m, other.Now([]), disk);
    RestoredSpace(m, snap, disk);
    var ok, regions := other.LoadState(r.value, disk);
    G.AbsFlat(other.mem);
    RecordsSaved(e.guests, e.current, e.cpu);
    assert forall i | 0 <= i < |other.guests| :: ThreadsOf(other.guests)[i] == other.guests[i].thread;
    forall p: nat
      ensures p in e.mem.flat ==> p in S.Rebuilt(snap, disk).flat && S.Rebuilt(snap, disk).flat[p] == e.mem.flat[p]
      ensures p in S.Rebuilt(snap, disk).flat && p !in e.mem.flat ==>
                S.Rebuilt(snap, disk).flat[p] == ZeroPage() && S.InRegion(e.mem.regions, p)
    {
      S.Restores(snap, e.mem.flat, e.mem.regions, disk, p);
    }
    saved := true;
  }
}
