/** The memory behind the page window: when every range handed out stays mapped. */
module PageMemory {
  import opened Bytes
  import opened AddressSpace
  import opened PageAllocator

  /** Every live range is mapped. */
  ghost predicate LiveMapped(s: Space, w: Window) { forall a | a in w.live :: AllMapped(s.flat, a, w.live[a]) }

  /** No contiguous mapping reaches into the window. */
  predicate Below(s: Space, base: nat) { forall e | e in s.extents :: e.base + e.size <= base }

  /**
    The pages unmapped are those of no range that stays live.  A range that passes 2^64 unmaps
    nothing; the range freed is the one that starts where the free does, and is no longer.
    */
  predicate FreeSpares(w: Window, addr: u64, size: u64)
  {
    var page, need := addr / 0x1000 * 0x1000, FreedBytes(addr, size);
    need == 0 || page + need > 0x1_0000_0000_0000_0000 ||
    forall a | a in w.live ::
      (a == page && page < w.limit && w.live[a] <= need) || w.live[a] == 0 || a + w.live[a] <= page || page + need <= a
  }

  /** A free leaves every other live range mapped exactly when it reaches into none of them. */
  lemma FreeKeepsMapped(w: Window, s: Space, addr: u64, size: u64)
    requires Sound(w) && Consistent(s) && Below(s, w.base) && LiveMapped(s, w)
    ensures LiveMapped(SpaceAfter(w, s, DoFree(addr, size)), Free(w, addr, size)) <==> FreeSpares(w, addr, size)
  {
    hide Free, Sound, FreedBytes, AllMapped, Unmapped;
    var page: nat, need: nat := addr / 0x1000 * 0x1000, FreedBytes(addr, size);
    var left := Free(w, addr, size).live;
    StillLive(w, addr, size);
    FreedPages(addr, size);
    if need > 0 {
      forall a | a in left
        ensures AllMapped(Unmapped(s, page, need).flat, a, left[a]) <==>
                left[a] == 0 || page + need > 0x1_0000_0000_0000_0000 || a + left[a] <= page || page + need <= a
      {
        LivePlaced(w, a);
        StaysMapped(s, w.base, page, need, a, left[a]);
      }
    }
  }

  /** A free of two pages where one was allocated takes the page of the next allocation away. */
  lemma FreeTakesNext()
    ensures var w := Window(0x1000, 0x3000, 0x9000, false, [], map[], [], 0)
                     .(live := map[0x1000 := 0x1000, 0x2000 := 0x1000]);
            FreeFits(w, 0x1000, 0x2000) && !FreeSpares(w, 0x1000, 0x2000)
  {
    assert 0x2000 in map[0x1000 := 0x1000, 0x2000 := 0x1000];
  }

  /** A free whose range passes 2^64 unmaps nothing, and so spares what lies above it. */
  lemma FreePastTop()
    ensures var w := Window(0x1000, 0x5000_1000, 0x6000_0000, false, [], map[], [], 0)
                     .(live := map[0x4000_0000 := 0x1000_0000, 0x5000_0000 := 0x1000]);
            FreeFits(w, 0x4000_0000, 0xFFFF_FFFF_D000_0000) && FreeSpares(w, 0x4000_0000, 0xFFFF_FFFF_D000_0000)
  {
  }

  lemma StillLive(w: Window, addr: u64, size: u64)
    ensures var page, need := addr / 0x1000 * 0x1000, FreedBytes(addr, size);
            var left := Free(w, addr, size).live;
            && (forall a | a in left :: a in w.live && left[a] == w.live[a])
            && (need > 0 ==>
                forall a | a in w.live :: a in left <==> !(a == page && page < w.limit && w.live[a] <= need))
  {
  }

  lemma FreedPages(addr: u64, size: u64)
    ensures FreedBytes(addr, size) % 0x1000 == 0
  {
  }

  lemma LivePlaced(w: Window, a: u64)
    requires Sound(w) && a in w.live
    ensures a % 0x1000 == 0 && w.live[a] % 0x1000 == 0 && w.base <= a
  {
    assert SlotOk(w, LiveAt(a));
  }

  lemma StaysMapped(s: Space, base: nat, page: nat, need: nat, a: nat, n: nat)
    requires Consistent(s) && Below(s, base) && base <= a && AllMapped(s.flat, a, n)
    requires page % 0x1000 == 0 && need % 0x1000 == 0 && need > 0 && a % 0x1000 == 0 && n % 0x1000 == 0
    requires page < 0x1_0000_0000_0000_0000 && need < 0x1_0000_0000_0000_0000
    ensures AllMapped(Unmapped(s, page, need).flat, a, n) <==>
            n == 0 || page + need > 0x1_0000_0000_0000_0000 || a + n <= page || page + need <= a
  {
    hide Unmapped, Walked;
    forall p: nat | p in PagesOf(a, n)
      ensures p in Unmapped(s, page, need).flat <==> p !in PagesOf(page, Walked(page, need))
    {
      StaysPage(s, base, page, need, a, n, p);
    }
    WalkedPages(page, need);
    if n > 0 && a < page + need <= 0x1_0000_0000_0000_0000 && page < a + n {
      var p: nat := (if a < page then page else a) / 4096;
      assert p in PagesOf(a, n) && p in PagesOf(page, need);
    }
  }

  lemma StaysPage(s: Space, base: nat, page: nat, need: nat, a: nat, n: nat, p: nat)
    requires Consistent(s) && Below(s, base) && base <= a && AllMapped(s.flat, a, n) && p in PagesOf(a, n)
             && a % 0x1000 == 0
    ensures p in Unmapped(s, page, need).flat <==> p !in PagesOf(page, Walked(page, need))
  {
    assert p * 4096 >= base;
    assert !Covered(s.extents, p);
  }

  /** Of whole pages, all are walked over, or none when the range passes 2^64. */
  lemma WalkedPages(page: nat, need: nat)
    requires page % 0x1000 == 0 && need % 0x1000 == 0 && page < 0x1_0000_0000_0000_0000
             && need < 0x1_0000_0000_0000_0000
    ensures Walked(page, need) == if page + need > 0x1_0000_0000_0000_0000 then 0 else need
  {
  }

  /** An allocation that fits leaves every live range mapped, the new one included. */
  lemma AllocKeepsMapped(w: Window, s: Space, size: u64, alignment: u64)
    requires Sound(w) && LiveMapped(s, w) && AllocFits(w, size, alignment)
    ensures LiveMapped(SpaceAfter(w, s, DoAlloc(size, alignment)), Alloc(w, size, alignment).w)
  {
    hide Choice, Start, Need, Mapped, AllMapped, Refused, Sound, Walked;
    var g := Alloc(w, size, alignment);
    if !(AtFrontier(w, size, alignment) && Refused(w, Start(w, alignment), Need(size))) {
      GrantLive(w, size, alignment);
      GrantBelow(w, size, alignment);
      forall a | a in g.w.live ensures AllMapped(Mapped(s, g.addr, Need(size)).flat, a, g.w.live[a]) {
        MappedStays(s, g.addr, Need(size), a, g.w.live[a]);
      }
    }
  }

  /** Granted from the frontier with a sum past 2^64, an allocation maps nothing. */
  lemma AllocMapsNothing(w: Window, s: Space, size: u64, alignment: u64)
    requires Sound(w) && AlignmentOk(alignment)
    requires AtFrontier(w, size, alignment) && !Refused(w, Start(w, alignment), Need(size))
    requires Start(w, alignment) + Need(size) > 0x1_0000_0000_0000_0000
    ensures var g := Alloc(w, size, alignment); g.w.live[g.addr] == Need(size) > 0
    ensures SpaceAfter(w, s, DoAlloc(size, alignment)).flat == s.flat
  {
    hide Choice, Start, Need, Sound, Walked, Aligned, PowerOfTwo;
    if alignment > 0x1000 {
      AlignedPages(w.next, alignment);
    }
    StartPages(w, alignment);
    NeedPages(size);
    GrantLive(w, size, alignment);
    WalkedPages(Start(w, alignment), Need(size));
    assert PagesOf(Start(w, alignment), 0) == {};
  }

  lemma NeedPages(size: u64)
    ensures Need(size) % 0x1000 == 0
  {
  }

  lemma GrantLive(w: Window, size: u64, alignment: u64)
    requires !(AtFrontier(w, size, alignment) && Refused(w, Start(w, alignment), Need(size)))
    ensures var g := Alloc(w, size, alignment); g.w.live == w.live[g.addr := Need(size)]
    ensures AtFrontier(w, size, alignment) ==> Alloc(w, size, alignment).addr == Start(w, alignment)
  {
    hide Choice, Start, Need;
  }

  lemma GrantBelow(w: Window, size: u64, alignment: u64)
    requires Sound(w) && AllocFits(w, size, alignment)
    requires !(AtFrontier(w, size, alignment) && Refused(w, Start(w, alignment), Need(size)))
    ensures !Tops(Alloc(w, size, alignment).addr, Need(size))
  {
    hide Start, Need, Choice;
    var i := Choice(w, size, alignment);
    ChoiceIs(w, size, alignment);
    if i < |w.free| {
      assert SlotOk(w, FreeAt(i));
    }
  }

  lemma MappedStays(s: Space, addr: nat, size: nat, a: nat, n: nat)
    requires AllMapped(s.flat, a, n) || (a == addr && n == size && !Tops(addr, size))
    ensures AllMapped(Mapped(s, addr, size).flat, a, n)
  {
  }

  // ---- whole runs -------------------------------------------------------------------------------------

  function RunSpace(w: Window, s: Space, ops: seq<PageOp>): Space
    decreases |ops|
  {
    if ops == [] then s
    else SpaceAfter(Run(w, ops[..|ops| - 1]), RunSpace(w, s, ops[..|ops| - 1]), ops[|ops| - 1])
  }

  lemma SpaceKept(w: Window, s: Space, op: PageOp, base: nat)
    requires Consistent(s) && Below(s, base)
    ensures Consistent(SpaceAfter(w, s, op)) && Below(SpaceAfter(w, s, op), base)
  {
    hide Alloc, AtFrontier, Refused, Start, Need, FreedBytes;
  }

  predicate Spares(w: Window, op: PageOp) { op.DoFree? ==> FreeSpares(w, op.addr, op.size) }

  /** The window after the first k operations of a run from nothing handed out, and the memory behind it. */
  function At(base: u64, limit: u64, noReuse: bool, ops: seq<PageOp>, k: nat): Window
    requires k <= |ops|
  {
    Run(Window(base, base, limit, noReuse, [], map[], [], 0), ops[..k])
  }

  function SpaceAt(base: u64, limit: u64, noReuse: bool, s: Space, ops: seq<PageOp>, k: nat): Space
    requires k <= |ops|
  {
    RunSpace(Window(base, base, limit, noReuse, [], map[], [], 0), s, ops[..k])
  }

  /** Over a run of operations that fit, live ranges stay mapped exactly when every free reaches into no other. */
  lemma {:induction false} RunKeepsMapped(base: u64, limit: u64, noReuse: bool, s: Space, ops: seq<PageOp>, n: nat)
    requires base > 0 && base % 0x1000 == 0 && n <= |ops| && Consistent(s) && Below(s, base)
    requires forall k: nat | k < |ops| :: OpFits(At(base, limit, noReuse, ops, k), ops[k])
    ensures (forall k: nat | k <= n ::
             LiveMapped(SpaceAt(base, limit, noReuse, s, ops, k), At(base, limit, noReuse, ops, k))) <==>
            forall k: nat | k < n :: Spares(At(base, limit, noReuse, ops, k), ops[k])
    ensures Consistent(SpaceAt(base, limit, noReuse, s, ops, n))
            && Below(SpaceAt(base, limit, noReuse, s, ops, n), base)
  {
    hide OpFits, LiveMapped, Spares, Consistent, Below, SpaceAfter, Step;
    if n == 0 {
      NothingLive(base, limit, noReuse, s, ops);
    } else {
      RunKeepsMapped(base, limit, noReuse, s, ops, n - 1);
      SoundAt(base, limit, noReuse, ops, n - 1);
      StepAt(base, limit, noReuse, s, ops, n - 1);
      var w, t := At(base, limit, noReuse, ops, n - 1), SpaceAt(base, limit, noReuse, s, ops, n - 1);
      BaseKept(base, limit, noReuse, ops, n - 1);
      SpaceKept(w, t, ops[n - 1], base);
      if LiveMapped(t, w) {
        StepKeepsMapped(w, t, ops[n - 1]);
      }
    }
  }

  lemma StepKeepsMapped(w: Window, s: Space, op: PageOp)
    requires Sound(w) && Consistent(s) && Below(s, w.base) && LiveMapped(s, w) && OpFits(w, op)
    ensures LiveMapped(SpaceAfter(w, s, op), Step(w, op)) <==> Spares(w, op)
  {
    hide Sound, Consistent, Below, FreeSpares, Alloc, Free, LiveMapped, AllocFits, ReserveFits, FreeFits;
    match op
    case DoAlloc(n, a) => AllocKeepsMapped(w, s, n, a);
    case DoReserve(n, a) => ReserveKeepsMapped(w, s, n, a);
    case DoFree(a, n) => FreeKeepsMapped(w, s, a, n);
  }

  lemma ReserveKeepsMapped(w: Window, s: Space, size: u64, alignment: u64)
    requires LiveMapped(s, w)
    ensures LiveMapped(s, Reserve(w, size, alignment).w)
  {
    hide AllMapped;
  }

  lemma NothingLive(base: u64, limit: u64, noReuse: bool, s: Space, ops: seq<PageOp>)
    ensures LiveMapped(SpaceAt(base, limit, noReuse, s, ops, 0), At(base, limit, noReuse, ops, 0))
    ensures SpaceAt(base, limit, noReuse, s, ops, 0) == s
  {
  }

  lemma StepAt(base: u64, limit: u64, noReuse: bool, s: Space, ops: seq<PageOp>, k: nat)
    requires k < |ops|
    ensures At(base, limit, noReuse, ops, k + 1) == Step(At(base, limit, noReuse, ops, k), ops[k])
    ensures SpaceAt(base, limit, noReuse, s, ops, k + 1) ==
              SpaceAfter(At(base, limit, noReuse, ops, k), SpaceAt(base, limit, noReuse, s, ops, k), ops[k])
  {
    hide Step, SpaceAfter;
    assert ops[..k + 1][..k] == ops[..k];
  }

  lemma SoundAt(base: u64, limit: u64, noReuse: bool, ops: seq<PageOp>, k: nat)
    requires base > 0 && base % 0x1000 == 0 && k <= |ops|
    requires forall j: nat | j < |ops| :: OpFits(At(base, limit, noReuse, ops, j), ops[j])
    ensures Sound(At(base, limit, noReuse, ops, k))
  {
    hide OpFits, Run, Sound;
    forall j: nat | j < k
      ensures OpFits(Run(Window(base, base, limit, noReuse, [], map[], [], 0), ops[..k][..j]), ops[..k][j])
    {
      assert ops[..k][..j] == ops[..j];
      assert OpFits(At(base, limit, noReuse, ops, j), ops[j]);
    }
    RunSound(base, limit, noReuse, ops[..k]);
  }

  lemma {:induction false} BaseKept(base: u64, limit: u64, noReuse: bool, ops: seq<PageOp>, k: nat)
    requires k <= |ops|
    ensures At(base, limit, noReuse, ops, k).base == base
  {
    if k > 0 {
      BaseKept(base, limit, noReuse, ops, k - 1);
      StepAt(base, limit, noReuse, EMPTY, ops, k - 1);
    }
  }
}
