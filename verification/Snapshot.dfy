/** Saving and rebuilding the guest's memory: pages carried, pages left to their files, blank pages. */
module Snapshot {
  import opened Bytes
  import opened Wrappers
  import opened AddressSpace
  import opened FlatMemory
  import opened GuestMemory

  /** The page of a file at an offset, zero past its end; none when the file cannot be read. */
  type Disk = (string, nat) -> Option<PageBytes>

  type Carried = (nat, PageBytes)

  datatype Snapshot = Snapshot(regions: seq<Region>, mapped: seq<nat>, kept: seq<Carried>, fromFile: seq<nat>)

  /** The first region with a file that the page's address is in. */
  function Home(regions: seq<Region>, addr: nat): Option<Region>
    decreases |regions|
  {
    if regions == [] then None
    else if regions[0].base <= addr < regions[0].base + regions[0].size && regions[0].file != "" then Some(regions[0])
    else Home(regions[1..], addr)
  }

  /** What that file has for the page. */
  function Original(regions: seq<Region>, disk: Disk, p: nat): Option<PageBytes>
  {
    match Home(regions, p * 4096)
    case None => None
    case Some(r) => HomeCovers(regions, p * 4096); disk(r.file, r.fileOffset + (p * 4096 - r.base))
  }

  lemma {:induction false} HomeCovers(regions: seq<Region>, addr: nat)
    ensures Home(regions, addr).Some? ==> Home(regions, addr).value.base <= addr
    decreases |regions|
  {
    if regions != [] {
      HomeCovers(regions[1..], addr);
    }
  }

  /** The region has a file, and holds the page. */
  predicate Backs(r: Region, p: nat) { r.base <= p * 4096 < r.base + r.size && r.file != "" }

  predicate FirstBacks(regions: seq<Region>, i: nat, p: nat)
  {
    i < |regions| && Backs(regions[i], p) && forall j | 0 <= j < i :: !Backs(regions[j], p)
  }

  lemma {:induction false} HomeIs(regions: seq<Region>, i: nat, p: nat)
    ensures FirstBacks(regions, i, p) ==> Home(regions, p * 4096) == Some(regions[i])
    decreases |regions|
  {
    if FirstBacks(regions, i, p) && i > 0 {
      assert forall j | 0 <= j < i :: regions[1..][j] == regions[j + 1];
      assert FirstBacks(regions[1..], i - 1, p);
      HomeIs(regions[1..], i - 1, p);
    }
  }

  lemma {:induction false} HomeNone(regions: seq<Region>, p: nat)
    ensures (forall r | r in regions :: !Backs(r, p)) ==> Home(regions, p * 4096) == None
    decreases |regions|
  {
    if regions != [] && forall r | r in regions :: !Backs(r, p) {
      assert !Backs(regions[0], p);
      HomeNone(regions[1..], p);
    }
  }

  /** A page comes from the first region that has a file and holds it, that far into the file. */
  lemma OriginalIs(regions: seq<Region>, disk: Disk, i: nat, p: nat)
    ensures (forall r | r in regions :: !Backs(r, p)) ==> Original(regions, disk, p) == None
    ensures FirstBacks(regions, i, p) ==>
              Original(regions, disk, p) == disk(regions[i].file, regions[i].fileOffset + p * 4096 - regions[i].base)
  {
    hide Home;
    HomeNone(regions, p);
    HomeIs(regions, i, p);
  }

  /** Every page mapped at the save is in the snapshot the way its contents call for. */
  ghost predicate Takes(snap: Snapshot, f: Flat, regions: seq<Region>, disk: Disk)
  {
    && snap.regions == regions
    && (forall p :: p in snap.mapped <==> p in f)
    && (forall c | c in snap.kept :: c.0 in f && c.1 == f[c.0] && c.1 != ZeroPage()
                                     && Original(regions, disk, c.0) != Some(c.1))
    && (forall p | p in snap.fromFile :: p in f && f[p] != ZeroPage() && Original(regions, disk, p) == Some(f[p]))
    && (forall p | p in f && f[p] != ZeroPage() :: (p, f[p]) in snap.kept || p in snap.fromFile)
  }

  // ---- rebuilding ---------------------------------------------------------------------------------

  function Lay(s: Space, r: Region): Space {
    if r.contiguous then Contiguous(s, r.base, r.size) else Mapped(s, r.base, r.size)
  }

  function LayAll(s: Space, rs: seq<Region>): Space {
    if rs == [] then s else Lay(LayAll(s, rs[..|rs| - 1]), rs[|rs| - 1])
  }

  function Ensure(s: Space, p: nat): Space { if p in s.flat then s else Mapped(s, p * 4096, 4096) }

  function EnsureAll(s: Space, ps: seq<nat>): Space {
    if ps == [] then s else Ensure(EnsureAll(s, ps[..|ps| - 1]), ps[|ps| - 1])
  }

  function Fill(s: Space, c: Carried): Space { Written(Ensure(s, c.0), c.0 * 4096, c.1) }

  function FillAll(s: Space, cs: seq<Carried>): Space {
    if cs == [] then s else Fill(FillAll(s, cs[..|cs| - 1]), cs[|cs| - 1])
  }

  /** A page whose file cannot be read is left as it is. */
  function Refill(s: Space, regions: seq<Region>, disk: Disk, p: nat): Space
  {
    match Original(regions, disk, p)
    case None => s
    case Some(b) => Fill(s, (p, b))
  }

  function RefillAll(s: Space, regions: seq<Region>, disk: Disk, ps: seq<nat>): Space
  {
    if ps == [] then s else Refill(RefillAll(s, regions, disk, ps[..|ps| - 1]), regions, disk, ps[|ps| - 1])
  }

  function Rebuilt(snap: Snapshot, disk: Disk): Space
  {
    RefillAll(FillAll(EnsureAll(LayAll(EMPTY, snap.regions), snap.mapped), snap.kept), snap.regions, disk,
              snap.fromFile)
  }

  // ---- what a rebuilt memory holds ----------------------------------------------------------------

  ghost predicate InRegion(rs: seq<Region>, p: nat) { exists r | r in rs :: OnPage(p, r.base, r.size) }

  /** Laying the regions maps blank pages, inside them and nowhere else. */
  lemma {:induction false} LaidBlank(rs: seq<Region>, p: nat)
    requires p in LayAll(EMPTY, rs).flat
    ensures LayAll(EMPTY, rs).flat[p] == ZeroPage() && InRegion(rs, p)
    decreases |rs|
  {
    if rs != [] {
      var s, r := LayAll(EMPTY, rs[..|rs| - 1]), rs[|rs| - 1];
      LayPage(s, r, p);
      if p in s.flat {
        LaidBlank(rs[..|rs| - 1], p);
        var q :| q in rs[..|rs| - 1] && OnPage(p, q.base, q.size);
        assert q in rs;
      } else {
        assert r in rs;
      }
    }
  }

  lemma LayPage(s: Space, r: Region, p: nat)
    requires p in Lay(s, r).flat
    ensures p in s.flat || OnPage(p, r.base, r.size)
    ensures Lay(s, r).flat[p] == ZeroPage() || (p in s.flat && Lay(s, r).flat[p] == s.flat[p])
  {
    if r.contiguous && r.size > 0 {
      Widened(r.base, r.size, p);
    }
  }

  /** Only a region recorded as contiguous is laid as one contiguous mapping; another maps what was not mapped. */
  lemma LaidAs(s: Space, r: Region)
    requires 0 < r.size && r.base + r.size < 0x1_0000_0000_0000_0000 - 4096
    ensures r.contiguous ==>
              forall p | OnPage(p, r.base, r.size) ::
                Covered(Lay(s, r).extents, p) && p in Lay(s, r).flat && Lay(s, r).flat[p] == ZeroPage()
    ensures !r.contiguous ==>
              Lay(s, r).extents == s.extents && forall p ::
                (p in Lay(s, r).flat <==> p in s.flat || OnPage(p, r.base, r.size))
                && (p in s.flat ==> Lay(s, r).flat[p] == s.flat[p])
  {
    if r.contiguous {
      forall p | OnPage(p, r.base, r.size)
        ensures Covered(Lay(s, r).extents, p) && p in Lay(s, r).flat && Lay(s, r).flat[p] == ZeroPage()
      {
        Widened(r.base, r.size, p);
        assert Covers(Extent(RoundDown(r.base), RoundUp(r.base + r.size) - RoundDown(r.base)), p);
      }
    }
  }

  /** Rounding a range out to whole pages adds no page to it. */
  lemma Widened(addr: nat, size: nat, p: nat)
    requires size > 0
    ensures OnPage(p, RoundDown(addr), RoundUp(addr + size) - RoundDown(addr)) <==> OnPage(p, addr, size)
  {
  }

  /** A page on its own never passes the top of the address space. */
  lemma PageAligned(p: nat)
    ensures Walked(p * 4096, 4096) == 4096
  {
  }

  lemma EnsurePage(s: Space, p: nat)
    ensures forall q :: q in Ensure(s, p).flat <==> q in s.flat || q == p
    ensures forall q | q in Ensure(s, p).flat :: Ensure(s, p).flat[q] == if q in s.flat then s.flat[q] else ZeroPage()
  {
    PageAligned(p);
    assert PagesOf(p * 4096, 4096) == {p};
  }

  lemma {:induction false} EnsuredPages(s: Space, ps: seq<nat>, q: nat)
    ensures q in EnsureAll(s, ps).flat <==> q in s.flat || q in ps
    ensures q in EnsureAll(s, ps).flat ==> EnsureAll(s, ps).flat[q] == if q in s.flat then s.flat[q] else ZeroPage()
    decreases |ps|
  {
    if ps != [] {
      EnsuredPages(s, ps[..|ps| - 1], q);
      EnsurePage(EnsureAll(s, ps[..|ps| - 1]), ps[|ps| - 1]);
      assert ps == ps[..|ps| - 1] + [ps[|ps| - 1]];
    }
  }

  /** A page that is not blank is never passed over. */
  lemma WritePage(s: Space, p: nat, b: PageBytes)
    requires p in s.flat && b != ZeroPage()
    ensures Written(s, p * 4096, b).flat == s.flat[p := b]
  {
    assert b[p * 4096 - p * 4096..p * 4096 - p * 4096 + 4096] == b;
    NotBlank(b);
    var skip := Skipped(Shadowed(s.slots, s.extents), p * 4096, b);
    forall q: nat ensures q !in skip {
      PageSkips(p, b, q);
    }
    forall q | q in s.flat ensures Patched(s.flat[q], q, p * 4096, b) == if q == p then b else s.flat[q] {
    }
  }

  lemma PageSkips(p: nat, b: PageBytes, q: nat)
    requires !AllZero(b)
    ensures !Skips(p * 4096, b, q)
  {
    if p * 4096 <= q * 4096 && q * 4096 + 4096 <= p * 4096 + 4096 {
      assert b[q * 4096 - p * 4096..q * 4096 - p * 4096 + 4096] == b;
    }
  }

  lemma NotBlank(b: PageBytes)
    ensures AllZero(b) <==> b == ZeroPage()
  {
  }

  lemma FillPage(s: Space, c: Carried)
    requires c.1 != ZeroPage()
    ensures Fill(s, c).flat == s.flat[c.0 := c.1]
  {
    hide Ensure, Written, ZeroPage;
    EnsurePage(s, c.0);
    WritePage(Ensure(s, c.0), c.0, c.1);
  }

  /** After the carried pages are in, a page holds what it should or what it did before. */
  lemma {:induction false} FilledPage(s: Space, cs: seq<Carried>, f: Flat, q: nat)
    requires forall c | c in cs :: c.0 in f && c.1 == f[c.0] && c.1 != ZeroPage()
    ensures var g := FillAll(s, cs).flat;
            && (q in g <==> q in s.flat || (q in f && (q, f[q]) in cs))
            && (q in g ==> g[q] == if q in f && (q, f[q]) in cs then f[q] else s.flat[q])
    decreases |cs|
  {
    if cs != [] {
      var n := |cs| - 1;
      assert cs == cs[..n] + [cs[n]];
      FilledPage(s, cs[..n], f, q);
      FillPage(FillAll(s, cs[..n]), cs[n]);
    }
  }

  lemma {:induction false} RefilledPage(s: Space, rs: seq<Region>, disk: Disk, ps: seq<nat>, f: Flat, q: nat)
    requires forall p | p in ps :: p in f && f[p] != ZeroPage() && Original(rs, disk, p) == Some(f[p])
    ensures var g := RefillAll(s, rs, disk, ps).flat;
            && (q in g <==> q in s.flat || (q in f && q in ps))
            && (q in g ==> g[q] == if q in f && q in ps then f[q] else s.flat[q])
    decreases |ps|
  {
    if ps != [] {
      var n := |ps| - 1;
      assert ps == ps[..n] + [ps[n]];
      RefilledPage(s, rs, disk, ps[..n], f, q);
      FillPage(RefillAll(s, rs, disk, ps[..n]), (ps[n], f[ps[n]]));
    }
  }

  /**
    With the files unchanged, every page mapped at the save comes back with its bytes, and every
    other page that comes back is blank and lies in a recorded region.
    */
  lemma Restores(snap: Snapshot, f: Flat, regions: seq<Region>, disk: Disk, p: nat)
    requires Takes(snap, f, regions, disk)
    ensures p in f ==> p in Rebuilt(snap, disk).flat && Rebuilt(snap, disk).flat[p] == f[p]
    ensures p in Rebuilt(snap, disk).flat && p !in f ==>
              Rebuilt(snap, disk).flat[p] == ZeroPage() && InRegion(regions, p)
  {
    hide LayAll, EnsureAll, FillAll, RefillAll, Original, InRegion;
    var s1 := LayAll(EMPTY, regions);
    var s2 := EnsureAll(s1, snap.mapped);
    var s3 := FillAll(s2, snap.kept);
    if p in s1.flat {
      LaidBlank(regions, p);
    }
    EnsuredPages(s1, snap.mapped, p);
    FilledPage(s2, snap.kept, f, p);
    RefilledPage(s3, regions, disk, snap.fromFile, f, p);
  }

  // ---- saving -------------------------------------------------------------------------------------

  method IsBlank(data: PageBytes) returns (b: bool)
    ensures b <==> data == ZeroPage()
  {
    for i := 0 to 4096
      invariant forall j | 0 <= j < i :: data[j] == 0
    {
      if data[i] != 0 {
        return false;
      }
    }
    NotBlank(data);
    b := true;
  }

  method FindHome(regions: seq<Region>, addr: nat) returns (home: Option<Region>)
    ensures home == Home(regions, addr)
  {
    var i := 0;
    while i < |regions|
      invariant i <= |regions| && Home(regions, addr) == Home(regions[i..], addr)
    {
      if regions[i].base <= addr < regions[i].base + regions[i].size && regions[i].file != "" {
        return Some(regions[i]);
      }
      i := i + 1;
    }
    home := None;
  }

  /** Where one live page goes: nowhere if blank, by name if its file still has it, otherwise whole. */
  datatype Fate = Blank | ByName | Whole(data: PageBytes)

  ghost predicate FateOk(fate: Fate, f: Flat, regions: seq<Region>, disk: Disk, p: nat)
  {
    p in f &&
    match fate
    case Blank => f[p] == ZeroPage()
    case ByName => f[p] != ZeroPage() && Original(regions, disk, p) == Some(f[p])
    case Whole(d) => d == f[p] && d != ZeroPage() && Original(regions, disk, p) != Some(d)
  }

  method Classify(mem: Memory, disk: Disk, p: nat) returns (fate: Fate)
    requires mem.Valid() && p in mem.owner
    ensures FateOk(fate, mem.flat, mem.regions, disk, p)
  {
    hide Memory.Valid;
    var has, data := mem.PageData(p);
    var blank := IsBlank(data);
    if blank {
      return Blank;
    }
    var home := FindHome(mem.regions, p * 4096);
    HomeCovers(mem.regions, p * 4096);
    if home.Some? {
      var original := disk(home.value.file, home.value.fileOffset + (p * 4096 - home.value.base));
      if original == Some(data) {
        return ByName;
      }
    }
    fate := Whole(data);
  }

  /** The part of Takes that the first live pages have met. */
  ghost predicate Taken(kept: seq<Carried>, named: seq<nat>, f: Flat, regions: seq<Region>, disk: Disk, live: seq<nat>)
  {
    && (forall c | c in kept :: c.0 in f && c.1 == f[c.0] && c.1 != ZeroPage()
                                && Original(regions, disk, c.0) != Some(c.1))
    && (forall p | p in named :: p in f && f[p] != ZeroPage() && Original(regions, disk, p) == Some(f[p]))
    && (forall p | p in live :: p in f && (f[p] == ZeroPage() || (p, f[p]) in kept || p in named))
  }

  lemma TakeOne(kept: seq<Carried>, named: seq<nat>, f: Flat, regions: seq<Region>, disk: Disk, live: seq<nat>, p: nat,
                fate: Fate)
    requires Taken(kept, named, f, regions, disk, live) && FateOk(fate, f, regions, disk, p)
    ensures fate.Blank? ==> Taken(kept, named, f, regions, disk, live + [p])
    ensures fate.ByName? ==> Taken(kept, named + [p], f, regions, disk, live + [p])
    ensures fate.Whole? ==> Taken(kept + [(p, fate.data)], named, f, regions, disk, live + [p])
  {
    hide Original;
  }

  lemma TakenAll(snap: Snapshot, f: Flat, disk: Disk, live: seq<nat>)
    requires Taken(snap.kept, snap.fromFile, f, snap.regions, disk, live)
    requires (forall p :: p in snap.mapped <==> p in f) && forall p | p in f && p !in live :: f[p] == ZeroPage()
    ensures Takes(snap, f, snap.regions, disk)
  {
    hide Original;
  }

  /** The memory part of save_state(). */
  method SaveMemory(mem: Memory, disk: Disk) returns (snap: Snapshot)
    requires mem.Valid()
    ensures Takes(snap, mem.flat, mem.regions, disk)
  {
    hide Memory.Valid, Original, Taken, Takes, FateOk, Sorted;
    var mapped := mem.MappedPages();
    var live := mem.LivePages();
    var kept: seq<Carried>, named: seq<nat> := [], [];
    NoneTaken(mem.flat, mem.regions, disk);
    for i := 0 to |live|
      invariant Taken(kept, named, mem.flat, mem.regions, disk, live[..i])
    {
      var fate := Classify(mem, disk, live[i]);
      TakeOne(kept, named, mem.flat, mem.regions, disk, live[..i], live[i], fate);
      assert live[..i + 1] == live[..i] + [live[i]];
      match fate {
        case Blank =>
        case ByName => named := named + [live[i]];
        case Whole(data) => kept := kept + [(live[i], data)];
      }
    }
    assert live[..|live|] == live;
    snap := Snapshot(mem.regions, mapped, kept, named);
    TakenAll(snap, mem.flat, disk, live);
  }

  lemma NoneTaken(f: Flat, regions: seq<Region>, disk: Disk)
    ensures Taken([], [], f, regions, disk, [])
  {
  }

  // ---- loading ------------------------------------------------------------------------------------

  /** A region as the memory records one. */
  predicate Recordable(r: Region)
  {
    r.size > 0 && r.name != "" && (r.contiguous ==> r.base % 4096 == 0 && r.size % 4096 == 0)
  }

  /** The address space is rebuilt from the regions, not merged with what was there. */
  method LayRegions(mem: Memory, regions: seq<Region>)
    requires mem.Valid()
    modifies mem, mem.tlb, mem.tlbw
    ensures mem.Valid() && mem.Abs() == LayAll(EMPTY, regions)
    ensures (forall r | r in regions :: Recordable(r)) ==> mem.regions == regions
  {
    hide Memory.Valid, Memory.Abs, Recordable, Lay;
    mem.Reset();
    for i := 0 to |regions|
      invariant mem.Valid() && mem.Abs() == LayAll(EMPTY, regions[..i])
      invariant (forall r | r in regions :: Recordable(r)) ==> mem.regions == regions[..i]
    {
      assert regions[..i + 1][..i] == regions[..i];
      LayOne(mem, regions[i]);
      assert regions[..i + 1] == regions[..i] + [regions[i]];
    }
    assert regions[..|regions|] == regions;
  }

  method LayOne(mem: Memory, r: Region)
    requires mem.Valid()
    modifies mem, mem.tlb, mem.tlbw
    ensures mem.Valid() && mem.Abs() == Lay(old(mem.Abs()), r)
    ensures Recordable(r) ==> mem.regions == old(mem.regions) + [r]
  {
    hide Memory.Valid, Contiguous, Mapped;
    if r.contiguous {
      mem.MapContiguous(r.base, r.size, r.name);
    } else {
      mem.Map(r.base, r.size, r.name);
    }
    ghost var before := mem.regions;
    mem.SetRegionFile(r.base, r.file, r.fileOffset);
    if Recordable(r) {
      WholePages(r);
      var n := |before| - 1;
      assert before == old(mem.regions) + [r.(file := "", fileOffset := 0)] && before[n].base == r.base;
      forall i | 0 <= i < |before| ensures mem.regions[i] == (old(mem.regions) + [r])[i] {
      }
    }
  }

  lemma WholePages(r: Region)
    ensures r.base % 4096 == 0 && r.size % 4096 == 0 ==>
              RoundDown(r.base) == r.base && RoundUp(r.base + r.size) - RoundDown(r.base) == r.size
  {
  }

  method EnsureOne(mem: Memory, p: nat)
    requires mem.Valid()
    modifies mem, mem.tlb, mem.tlbw
    ensures mem.Valid() && mem.Abs() == Ensure(old(mem.Abs()), p) && mem.regions == old(mem.regions)
  {
    hide Memory.Valid, Mapped;
    var there := mem.IsMapped(p * 4096);
    if !there {
      mem.Map(p * 4096, 4096, "");
    }
  }

  method EnsurePages(mem: Memory, ps: seq<nat>)
    requires mem.Valid()
    modifies mem, mem.tlb, mem.tlbw
    ensures mem.Valid() && mem.Abs() == EnsureAll(old(mem.Abs()), ps) && mem.regions == old(mem.regions)
  {
    hide Memory.Valid, Memory.Abs, Ensure;
    for i := 0 to |ps|
      invariant mem.Valid() && mem.Abs() == EnsureAll(old(mem.Abs()), ps[..i]) && mem.regions == old(mem.regions)
    {
      assert ps[..i + 1][..i] == ps[..i];
      EnsureOne(mem, ps[i]);
    }
    assert ps[..|ps|] == ps;
  }

  method FillOne(mem: Memory, c: Carried)
    requires mem.Valid()
    modifies mem, mem.tlb, mem.tlbw
    ensures mem.Valid() && mem.Abs() == Fill(old(mem.Abs()), c) && mem.regions == old(mem.regions)
  {
    hide Memory.Valid, Written, Reach, Ensure, Memory.Abs;
    EnsureOne(mem, c.0);
    EnsurePage(old(mem.Abs()), c.0);
    AbsFlat(mem);
    PageReach(mem.flat, c.0);
    assert c.1[..4096] == c.1;
    var w := mem.Write(c.0 * 4096, c.1);
  }

  lemma PageReach(f: Flat, p: nat)
    requires p in f
    ensures Reach(f, p * 4096, 4096) == 4096
  {
    hide Reach;
    assert PagesOf(p * 4096, 4096) == {p};
    ReachAll(f, p * 4096, 4096);
  }

  method FillPages(mem: Memory, cs: seq<Carried>)
    requires mem.Valid()
    modifies mem, mem.tlb, mem.tlbw
    ensures mem.Valid() && mem.Abs() == FillAll(old(mem.Abs()), cs) && mem.regions == old(mem.regions)
  {
    hide Memory.Valid, Memory.Abs, Fill;
    for i := 0 to |cs|
      invariant mem.Valid() && mem.Abs() == FillAll(old(mem.Abs()), cs[..i]) && mem.regions == old(mem.regions)
    {
      assert cs[..i + 1][..i] == cs[..i];
      FillOne(mem, cs[i]);
    }
    assert cs[..|cs|] == cs;
  }

  method RefillPages(mem: Memory, regions: seq<Region>, disk: Disk, ps: seq<nat>)
    requires mem.Valid()
    modifies mem, mem.tlb, mem.tlbw
    ensures mem.Valid() && mem.Abs() == RefillAll(old(mem.Abs()), regions, disk, ps) && mem.regions == old(mem.regions)
  {
    hide Memory.Valid, Memory.Abs, Fill;
    for i := 0 to |ps|
      invariant mem.Valid() && mem.Abs() == RefillAll(old(mem.Abs()), regions, disk, ps[..i])
                && mem.regions == old(mem.regions)
    {
      assert ps[..i + 1][..i] == ps[..i];
      var home := FindHome(regions, ps[i] * 4096);
      HomeCovers(regions, ps[i] * 4096);
      if home.Some? {
        var page := disk(home.value.file, home.value.fileOffset + (ps[i] * 4096 - home.value.base));
        if page.Some? {
          FillOne(mem, (ps[i], page.value));
        }
      }
    }
    assert ps[..|ps|] == ps;
  }

  /** The memory part of load_state(). */
  method LoadMemory(mem: Memory, snap: Snapshot, disk: Disk)
    requires mem.Valid()
    modifies mem, mem.tlb, mem.tlbw
    ensures mem.Valid() && mem.Abs() == Rebuilt(snap, disk)
    ensures (forall r | r in snap.regions :: Recordable(r)) ==> mem.regions == snap.regions
  {
    hide Memory.Valid, Memory.Abs, LayAll, EnsureAll, FillAll, RefillAll;
    LayRegions(mem, snap.regions);
    EnsurePages(mem, snap.mapped);
    FillPages(mem, snap.kept);
    RefillPages(mem, snap.regions, disk, snap.fromFile);
  }

  /** Saved and loaded into another memory, with the files unchanged. */
  method SaveThenLoad(mem: Memory, other: Memory, disk: Disk)
    requires mem.Valid() && other.Valid() && mem != other && {mem.tlb, mem.tlbw} !! {other.tlb, other.tlbw}
    modifies other, other.tlb, other.tlbw
    ensures other.Valid()
    ensures forall p | p in mem.flat :: p in other.flat && other.flat[p] == mem.flat[p]
    ensures forall p | p in other.flat && p !in mem.flat :: other.flat[p] == ZeroPage() && InRegion(mem.regions, p)
    ensures (forall r | r in mem.regions :: Recordable(r)) ==> other.regions == mem.regions
  {
    hide Memory.Valid, Memory.Abs, Takes, Rebuilt;
    var snap := SaveMemory(mem, disk);
    forall p: nat
      ensures p in mem.flat ==> p in Rebuilt(snap, disk).flat && Rebuilt(snap, disk).flat[p] == mem.flat[p]
      ensures p in Rebuilt(snap, disk).flat && p !in mem.flat ==>
                Rebuilt(snap, disk).flat[p] == ZeroPage() && InRegion(mem.regions, p)
    {
      Restores(snap, mem.flat, mem.regions, disk, p);
    }
    TakesRegions(snap, mem.flat, mem.regions, disk);
    LoadMemory(other, snap, disk);
    AbsFlat(other);
  }

  lemma TakesRegions(snap: Snapshot, f: Flat, regions: seq<Region>, disk: Disk)
    requires Takes(snap, f, regions, disk)
    ensures snap.regions == regions
  {
  }
}
