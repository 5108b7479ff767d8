/** The guest heap behind malloc(), free() and realloc(). */
module Heap {
  import opened Bytes
  import opened AddressSpace
  import opened FlatMemory
  import G = GuestMemory
  import W = WideMath

  datatype Block = Block(size: u64, free: bool)

  datatype State = State(base: nat, next: u64, limit: u64, blocks: map<u64, Block>)

  /** A request rounded up to 16 bytes, in 64 bits: the largest requests round to nothing. */
  function Need(size: u64): u64 { W.Wrap64((if size == 0 then 1 else size) + 15) / 16 * 16 }

  /** A rounded request holds the request exactly when the rounding does not wrap; otherwise it is nothing. */
  lemma NeedHolds(size: u64)
    ensures Need(size) >= size <==> size + 15 < 0x1_0000_0000_0000_0000
    ensures size + 15 < 0x1_0000_0000_0000_0000 ==> 16 <= Need(size) && Need(size) % 16 == 0
    ensures size + 15 >= 0x1_0000_0000_0000_0000 ==> Need(size) == 0
  {
  }

  // ---- the bookkeeping ------------------------------------------------------------------------------

  predicate BlockOk(h: State, a: u64)
  {
    a in h.blocks ==> h.base <= a && a + h.blocks[a].size <= h.next
  }

  predicate PairOk(h: State, a: u64, b: u64)
  {
    a in h.blocks && b in h.blocks && a < b ==> a + h.blocks[a].size <= b
  }

  /** Blocks are inside the heap, do not overlap, and are as large as the rounding makes them. */
  ghost predicate Sound(h: State)
  {
    0 < h.base <= h.next <= h.limit && (forall a :: BlockOk(h, a)) && (forall a, b :: PairOk(h, a, b))
    && forall a | a in h.blocks :: h.blocks[a].size > 0 && h.blocks[a].size % 16 == 0
  }

  predicate Reusable(h: State, a: u64, need: u64) { a in h.blocks && h.blocks[a].free && h.blocks[a].size >= need }

  /** What heap_alloc() may do; which free block it takes is up to the table's order. */
  ghost predicate AllocStep(h: State, size: u64, h': State, addr: u64)
  {
    if exists a :: Reusable(h, a, Need(size)) then
      Reusable(h, addr, Need(size)) && h' == h.(blocks := h.blocks[addr := h.blocks[addr].(free := false)])
    else if W.Wrap64(h.next + Need(size)) > h.limit then addr == 0 && h' == h
    else addr == h.next
         && h' == h.(next := W.Wrap64(h.next + Need(size)), blocks := h.blocks[addr := Block(Need(size), false)])
  }

  function FreeStep(h: State, addr: u64): State
  {
    if addr in h.blocks then h.(blocks := h.blocks[addr := h.blocks[addr].(free := true)]) else h
  }

  function BlockSize(h: State, addr: u64): u64 { if addr in h.blocks then h.blocks[addr].size else 0 }

  /**
    A free block serves the request unless the rounding wraps; growing, or refusing to, unless that or the
    sum does.
    */
  ghost predicate AllocFits(h: State, size: u64)
  {
    if exists a :: Reusable(h, a, Need(size)) then size + 15 < 0x1_0000_0000_0000_0000
    else W.Wrap64(h.next + Need(size)) > h.limit
         || (size + 15 < 0x1_0000_0000_0000_0000 && h.next + Need(size) < 0x1_0000_0000_0000_0000)
  }

  /** The block handed out is large enough, was not in use, and leaves every other block as it was. */
  lemma AllocKeeps(h: State, size: u64, h': State, addr: u64)
    requires Sound(h) && AllocFits(h, size) && AllocStep(h, size, h', addr)
    ensures Sound(h') && h'.limit == h.limit && h'.base == h.base
    ensures addr == 0 ==> h' == h
    ensures addr != 0 ==> addr in h'.blocks && !h'.blocks[addr].free && h'.blocks[addr].size >= size
                          && (addr in h.blocks ==> h.blocks[addr].free && h.blocks[addr].size == h'.blocks[addr].size)
    ensures forall b | b in h.blocks && b != addr :: b in h'.blocks && h'.blocks[b] == h.blocks[b]
    ensures forall b | b in h'.blocks && b != addr :: b in h.blocks
  {
    NeedHolds(size);
    hide Need;
    assert BlockOk(h, addr);
    forall a ensures BlockOk(h', a) {
      assert BlockOk(h, a);
    }
    forall a, b ensures PairOk(h', a, b) {
      assert PairOk(h, a, b) && BlockOk(h, a) && BlockOk(h, b);
    }
  }

  /** heap_alloc() keeps the heap sound and gives what it was asked for exactly when AllocFits() says so. */
  lemma AllocExact(h: State, size: u64, h': State, addr: u64)
    requires Sound(h) && AllocStep(h, size, h', addr)
    ensures Sound(h') && (addr != 0 ==> BlockSize(h', addr) >= size) <==> AllocFits(h, size)
  {
    NeedHolds(size);
    if AllocFits(h, size) {
      AllocKeeps(h, size, h', addr);
    } else {
      hide Need;
      AllocMisses(h, size, h', addr);
    }
  }

  lemma AllocMisses(h: State, size: u64, h': State, addr: u64)
    requires Sound(h) && AllocStep(h, size, h', addr) && !AllocFits(h, size)
    ensures addr != 0 && (Sound(h') ==> BlockSize(h', addr) < size)
  {
    NeedHolds(size);
    hide Need;
    assert BlockOk(h, addr);
    if !exists a :: Reusable(h, a, Need(size)) {
      assert h'.blocks[addr] == Block(Need(size), false);
      assert Sound(h') ==> BlockOk(h', addr);
    }
  }

  /** The largest size rounds up to nothing: an empty heap hands out a block of no bytes. */
  lemma AllocLies(h': State, addr: u64)
    requires AllocStep(State(0x1000, 0x1000, 0x9000, map[]), 0xFFFF_FFFF_FFFF_FFFF, h', addr)
    ensures addr == 0x1000 && h'.blocks == map[0x1000 := Block(0, false)]
  {
    var h := State(0x1000, 0x1000, 0x9000, map[]);
    assert forall a :: !Reusable(h, a, 0);
  }

  /** A request that carries the sum past 2^64 is granted, and the heap's end moves down. */
  lemma AllocWraps(h': State, addr: u64)
    requires AllocStep(State(0x2000, 0x2000, 0x9000, map[]), 0xFFFF_FFFF_FFFF_F000, h', addr)
    ensures addr == 0x2000 && h'.next == 0x1000 && h'.blocks[0x2000].size == 0xFFFF_FFFF_FFFF_F000
  {
    var h := State(0x2000, 0x2000, 0x9000, map[]);
    assert forall a :: !Reusable(h, a, 0xFFFF_FFFF_FFFF_F000);
  }

  lemma FreeKeeps(h: State, addr: u64)
    ensures Sound(FreeStep(h, addr)) <==> Sound(h)
  {
    SameSizes(h, FreeStep(h, addr));
    SameSizes(FreeStep(h, addr), h);
  }

  lemma SameSizes(h: State, h': State)
    requires h'.(blocks := h.blocks) == h && h'.blocks.Keys == h.blocks.Keys
    requires forall a | a in h.blocks :: h'.blocks[a].size == h.blocks[a].size
    ensures Sound(h) ==> Sound(h')
  {
    if Sound(h) {
      forall a ensures BlockOk(h', a) {
        assert BlockOk(h, a);
      }
      forall a, b ensures PairOk(h', a, b) {
        assert PairOk(h, a, b);
      }
    }
  }

  lemma NothingAtZero(h: State)
    requires Sound(h)
    ensures 0 !in h.blocks
  {
    assert BlockOk(h, 0);
  }

  lemma RefusedSame(h: State, size: u64, h': State)
    requires Sound(h) && AllocStep(h, size, h', 0)
    ensures h' == h
  {
    NothingAtZero(h);
  }

  // ---- the heap and the memory under it ---------------------------------------------------------------

  /** Every block is backed, and no contiguous mapping lies over the heap. */
  ghost predicate Backed(s: Space, h: State)
  {
    && (forall a | a in h.blocks :: AllMapped(s.flat, a, h.blocks[a].size))
    && forall p: nat | h.base / 4096 <= p && p * 4096 < h.limit :: !Covered(s.extents, p)
  }

  /** The bytes of a block. */
  ghost function Contents(s: Space, h: State, a: u64): seq<byte>
    requires a in h.blocks && Backed(s, h)
  {
    Loaded(s.flat, a, h.blocks[a].size)
  }

  lemma MapKeeps(s: Space, addr: nat, size: nat, a: nat, n: nat)
    requires AllMapped(s.flat, a, n)
    ensures AllMapped(Mapped(s, addr, size).flat, a, n)
            && Loaded(Mapped(s, addr, size).flat, a, n) == Loaded(s.flat, a, n)
  {
    var f := Mapped(s, addr, size).flat;
    assert forall p | p in s.flat :: p in f && f[p] == s.flat[p];
    forall i | 0 <= i < n ensures Loaded(f, a, n)[i] == Loaded(s.flat, a, n)[i] {
      LoadedIs(s.flat, a, n, i);
    }
  }

  lemma MapMaps(s: Space, addr: nat, size: nat)
    requires !Tops(addr, size)
    ensures AllMapped(Mapped(s, addr, size).flat, addr, size) && Mapped(s, addr, size).extents == s.extents
  {
  }

  /** A write under no contiguous mapping stores every byte. */
  lemma WrittenWhole(s: Space, addr: nat, src: seq<byte>)
    requires forall p | OnPage(p, addr, |src|) :: !Covered(s.extents, p)
    ensures Written(s, addr, src).flat == Stored(s.flat, addr, src)
  {
    hide Skips, OnPage, Covered;
    forall p: nat ensures Skips(addr, src, p) ==> OnPage(p, addr, |src|) {
      SkippedPage(addr, src, p);
    }
    assert Skipped(Shadowed(s.slots, s.extents), addr, src) == {};
  }

  lemma SkippedPage(addr: nat, src: seq<byte>, p: nat)
    ensures Skips(addr, src, p) ==> OnPage(p, addr, |src|)
  {
  }

  lemma BlockPages(s: Space, h: State, a: u64, n: nat)
    requires Sound(h) && Backed(s, h) && a in h.blocks && n <= h.blocks[a].size
    ensures forall p | OnPage(p, a, n) :: !Covered(s.extents, p)
  {
    assert BlockOk(h, a);
  }

  /** The blocks of h, but for one, have the same size and the same bytes in h'. */
  ghost predicate Preserved(s: Space, h: State, s': Space, h': State, but: u64)
    requires Backed(s, h) && Backed(s', h')
  {
    forall b | b in h.blocks && b != but ::
      b in h'.blocks && h'.blocks[b].size == h.blocks[b].size && Contents(s', h', b) == Contents(s, h, b)
  }

  /** Filling a block reaches no other. */
  lemma FillKeeps(s: Space, h: State, a: u64, src: seq<byte>)
    requires Sound(h) && Backed(s, h) && a in h.blocks && |src| <= h.blocks[a].size
    ensures var t := Written(s, a, src); Backed(t, h) && Preserved(s, h, t, h, a) && Contents(t, h, a)[..|src|] == src
    ensures Reach(s.flat, a, |src|) == |src|
  {
    hide Loaded, AllMapped, Written, Stored, Covered, OnPage;
    var t := Written(s, a, src);
    BlockPages(s, h, a, |src|);
    WrittenWhole(s, a, src);
    WrittenLayout(s, a, src);
    forall b | b in h.blocks ensures AllMapped(t.flat, b, h.blocks[b].size)
                                     && (b != a ==>
                                         Loaded(t.flat, b, h.blocks[b].size) == Loaded(s.flat, b, h.blocks[b].size)) {
      MappedParts(s.flat, b, h.blocks[b].size, 0, a, src);
      assert PairOk(h, a, b) && PairOk(h, b, a);
      if b != a {
        LoadedApart(s.flat, b, h.blocks[b].size, a, src);
      }
    }
    MappedParts(s.flat, a, |src|, h.blocks[a].size - |src|, a, src);
    ReachAll(s.flat, a, |src|);
    LoadedBack(s.flat, a, src, h.blocks[a].size);
  }

  lemma WrittenLayout(s: Space, a: nat, src: seq<byte>)
    ensures Written(s, a, src).extents == s.extents
  {
  }

  lemma LoadedBack(f: Flat, a: nat, src: seq<byte>, n: nat)
    requires |src| <= n && AllMapped(f, a, n) && AllMapped(Stored(f, a, src), a, n)
    ensures Loaded(Stored(f, a, src), a, n)[..|src|] == src
  {
    forall i | 0 <= i < |src| ensures Loaded(Stored(f, a, src), a, n)[i] == src[i] {
      LoadedIs(f, a, n, i);
      LoadedIs(Stored(f, a, src), a, n, i);
      StoredAt(f, a, src, a + i);
    }
  }

  /** Allocation changes no byte of any block, and backs the block it hands out. */
  lemma AllocBacks(s: Space, h: State, size: u64, h': State, addr: u64)
    requires Sound(h) && Backed(s, h) && AllocFits(h, size) && AllocStep(h, size, h', addr)
    ensures var t := if h'.next == h.next then s else Mapped(s, addr, Need(size));
            Backed(t, h') && Preserved(s, h, t, h', 0)
  {
    hide Loaded, AllMapped, Need, Mapped, Covered;
    NeedHolds(size);
    AllocKeeps(h, size, h', addr);
    if h'.next != h.next {
      MapMaps(s, addr, Need(size));
    }
    var t := if h'.next == h.next then s else Mapped(s, addr, Need(size));
    forall b | b in h.blocks
      ensures AllMapped(t.flat, b, h.blocks[b].size)
              && Loaded(t.flat, b, h.blocks[b].size) == Loaded(s.flat, b, h.blocks[b].size)
    {
      MapKeeps(s, addr, Need(size), b, h.blocks[b].size);
    }
    assert BlockOk(h, addr);
  }

  lemma AllocEnds(s: Space, h: State, size: u64, h': State, addr: u64, t: Space)
    requires Sound(h) && Backed(s, h) && AllocStep(h, size, h', addr)
    requires AllocFits(h, size) ==> t == if h'.next == h.next then s else Mapped(s, addr, Need(size))
    ensures AllocFits(h, size) ==> Sound(h') && Backed(t, h') && Preserved(s, h, t, h', 0)
  {
    if AllocFits(h, size) {
      AllocKeeps(h, size, h', addr);
      AllocBacks(s, h, size, h', addr);
    }
  }

  lemma Unchanged(s: Space, h: State)
    requires Backed(s, h)
    ensures Preserved(s, h, s, h, 0)
  {
  }

  lemma BlockMapped(s: Space, h: State, a: u64)
    requires Sound(h) && Backed(s, h) && a in h.blocks
    ensures h.blocks[a].size > 0 && AllMapped(s.flat, a, h.blocks[a].size)
            && Contents(s, h, a) == Loaded(s.flat, a, h.blocks[a].size)
  {
  }

  /** Releasing a block, or what is none, leaves every byte. */
  lemma FreedSame(s: Space, h: State, t: Space, h1: State, addr: u64, but: u64)
    requires Backed(s, h) && Backed(t, h1) && Preserved(s, h, t, h1, but)
    ensures var h2 := FreeStep(h1, addr); Backed(t, h2) && Preserved(s, h, t, h2, but)
  {
  }

  /** Allocation, copy and release together. */
  lemma ReallocEnds(s: Space, h: State, s1: Space, h1: State, t: Space, addr: u64, r: u64)
    requires Sound(h) && Backed(s, h) && Backed(s1, h1) && Backed(t, h1)
    requires Preserved(s, h, s1, h1, 0) && Preserved(s1, h1, t, h1, r)
    requires addr in h.blocks && addr in h1.blocks && r in h1.blocks && r != addr
             && h1.blocks[addr].size <= h1.blocks[r].size
    requires Contents(t, h1, r)[..h1.blocks[addr].size] == Contents(s1, h1, addr)
    ensures var h2 := FreeStep(h1, addr);
            Backed(t, h2) && Contents(s, h, addr) <= Contents(t, h2, r) && Preserved(s, h, t, h2, r)
  {
    hide Loaded, AllMapped, Covered;
    NothingAtZero(h);
  }

  // ---- the heap itself --------------------------------------------------------------------------------

  class Heap {
    const mem: G.Memory
    var next: u64
    var limit: u64
    var blocks: map<u64, Block>
    ghost var base: nat

    ghost function Now(): State
      reads this
    {
      State(base, next, limit, blocks)
    }

    ghost predicate Valid()
      reads this, mem, mem.tlb, mem.tlbw
    {
      mem.Valid() && Sound(Now()) && Backed(mem.Abs(), Now())
    }

    constructor (memory: G.Memory, start: u64, end: u64)
      requires memory.Valid() && 0 < start <= end
      requires forall p: nat | start / 4096 <= p && p * 4096 < end :: !Covered(memory.Abs().extents, p)
      ensures mem == memory && Valid() && Now() == State(start, start, end, map[])
    {
      mem, next, limit, blocks, base := memory, start, end, map[], start;
    }

    /** heap_alloc() */
    method Alloc(size: u64) returns (addr: u64)
      requires Valid()
      modifies this, mem, mem.tlb, mem.tlbw
      ensures mem.Valid() && AllocStep(old(Now()), size, Now(), addr)
      ensures AllocFits(old(Now()), size) ==> Valid() && Preserved(old(mem.Abs()), old(Now()), mem.Abs(), Now(), 0)
    {
      hide G.Memory.Valid, G.Memory.Abs, Need, Preserved, Sound, Mapped, Backed;
      NeedHolds(size);
      ghost var s, h := mem.Abs(), Now();
      var need := Need(size);
      if a :| a in blocks && blocks[a].free && blocks[a].size >= need {
        assert Reusable(h, a, need);
        blocks := blocks[a := blocks[a].(free := false)];
        AllocEnds(s, h, size, Now(), a, mem.Abs());
        return a;
      }
      addr := Grow(need);
      AllocEnds(s, h, size, Now(), addr, mem.Abs());
    }

    /** A new block at the end of the heap, unless the limit forbids it. */
    method Grow(need: u64) returns (addr: u64)
      requires mem.Valid()
      modifies this, mem, mem.tlb, mem.tlbw
      ensures mem.Valid()
      ensures if W.Wrap64(old(next) + need) > old(limit)
                then addr == 0 && Now() == old(Now()) && mem.Abs() == old(mem.Abs())
              else addr == old(next) && mem.Abs() == Mapped(old(mem.Abs()), addr, need)
                   && Now() ==
                        old(Now()).(next := W.Wrap64(addr + need), blocks := old(blocks)[addr := Block(need, false)])
    {
      hide G.Memory.Valid, G.Memory.Abs, Mapped;
      if W.Wrap64(next + need) > limit {
        return 0;
      }
      addr := next;
      next := W.Wrap64(next + need);
      mem.Map(addr, need, "");
      blocks := blocks[addr := Block(need, false)];
    }

    /** heap_free() */
    method Free(addr: u64)
      modifies `blocks
      ensures Now() == FreeStep(old(Now()), addr)
      ensures old(Valid()) ==> Valid() && Preserved(mem.Abs(), old(Now()), mem.Abs(), Now(), 0)
    {
      hide G.Memory.Valid, G.Memory.Abs, Sound;
      ghost var h := Now();
      if Sound(h) {
        FreeKeeps(h, addr);
      }
      if addr in blocks {
        blocks := blocks[addr := blocks[addr].(free := true)];
      }
    }

    /**
      heap_realloc() of a block or of anything else: no block but the one returned changes; on
      success that one is large enough, and it starts with the old block's bytes if there was one.
      */
    method Realloc(addr: u64, size: u64) returns (r: u64, faulted: bool)
      requires Valid()
      modifies this, mem, mem.tlb, mem.tlbw
      ensures mem.Valid() && (!faulted ==> OpStep(old(Now()), DoRealloc(addr, size, r), Now()))
      ensures OpFits(old(Now()), DoRealloc(addr, size, 0)) ==>
                Valid() && !faulted && BlockSize(Now(), r) >= (if r == 0 then 0 else size)
      ensures OpFits(old(Now()), DoRealloc(addr, size, 0)) ==>
                Preserved(old(mem.Abs()), old(Now()), mem.Abs(), Now(), Copied(old(Now()), DoRealloc(addr, size, r)))
      ensures OpFits(old(Now()), DoRealloc(addr, size, 0)) && addr in old(blocks) && r != 0 ==>
                r in blocks && old(Contents(mem.Abs(), Now(), addr)) <= Contents(mem.Abs(), Now(), r)
    {
      hide G.Memory.Valid, G.Memory.Abs, Need, Mapped, Written, Reach, AllMapped, Contents, Sound, Backed, Preserved,
           AllocStep, AllocFits;
      ghost var s, h, fits := mem.Abs(), Now(), OpFits(Now(), DoRealloc(addr, size, 0));
      Unchanged(s, h);
      NothingAtZero(h);
      if addr == 0 {
        r := Alloc(size);
        if fits {
          AllocKeeps(h, size, Now(), r);
        }
        return r, false;
      }
      var old' := if addr in blocks then blocks[addr].size else 0;
      if old' >= size {
        return addr, false;
      }
      r := Alloc(size);
      ghost var s1, h1 := mem.Abs(), Now();
      assert AllocStep(h, size, h1, r);
      if fits {
        AllocKeeps(h, size, h1, r);
      }
      if r == 0 {
        RefusedSame(h, size, h1);
        return 0, false;
      }
      if fits && addr in h.blocks {
        G.AbsFlat(mem);
        BlockMapped(s, h, addr);
        BlockMapped(s1, h1, addr);
      }
      if old' != 0 {
        var got := mem.Read(addr, old');
        if got.ReadFault? {
          return 0, true;
        }
        var bytes := got.bytes;
        if fits {
          FillKeeps(s1, h1, r, bytes);
        }
        var put := mem.Write(r, bytes);
        if put.WriteFault? {
          return 0, true;
        }
        assert bytes[..|bytes|] == bytes;
      }
      ghost var t := mem.Abs();
      Free(addr);
      if fits && addr in h.blocks {
        ReallocEnds(s, h, s1, h1, t, addr, r);
      } else if fits {
        FreedSame(s, h, t, h1, addr, 0);
      }
      faulted := false;
    }
  }

  // ---- whole runs ---------------------------------------------------------------------------------------

  datatype HeapOp = DoAlloc(size: u64, got: u64) | DoFree(addr: u64) | DoRealloc(addr: u64, size: u64, got: u64)

  /** One operation on the bookkeeping; realloc is an allocation and, unless it fails, a release. */
  ghost predicate OpStep(h: State, op: HeapOp, h': State)
  {
    match op
    case DoAlloc(n, a) => AllocStep(h, n, h', a)
    case DoFree(a) => h' == FreeStep(h, a)
    case DoRealloc(a, n, r) =>
      if a == 0 then AllocStep(h, n, h', r)
      else if BlockSize(h, a) >= n then h' == h && r == a
      else exists m :: AllocStep(h, n, m, r) && h' == if r == 0 then m else FreeStep(m, a)
  }

  /** The block an operation writes to: the one realloc copies the old block into. */
  function Copied(h: State, op: HeapOp): u64
  {
    if op.DoRealloc? && op.addr in h.blocks && op.got != op.addr then op.got else 0
  }

  /** What a call asks of the allocation inside it, if there is one. */
  ghost predicate OpFits(h: State, op: HeapOp)
  {
    match op
    case DoAlloc(n, _) => AllocFits(h, n)
    case DoFree(_) => true
    case DoRealloc(a, n, _) => (a != 0 && BlockSize(h, a) >= n) || AllocFits(h, n)
  }

  /** The call left the heap sound, and what it returned is as large as was asked for. */
  ghost predicate Served(h': State, op: HeapOp)
  {
    && Sound(h')
    && match op
       case DoAlloc(n, a) => a != 0 ==> BlockSize(h', a) >= n
       case DoFree(_) => true
       case DoRealloc(_, n, r) => r != 0 ==> BlockSize(h', r) >= n
  }

  ghost predicate Trace(hs: seq<State>, ops: seq<HeapOp>)
  {
    |hs| == |ops| + 1 && hs[0].base > 0 && hs[0].base == hs[0].next <= hs[0].limit && hs[0].blocks == map[]
    && forall i | 0 <= i < |ops| :: OpStep(hs[i], ops[i], hs[i + 1])
  }

  /** A sound heap is served exactly when the operation fits. */
  lemma OpExact(h: State, op: HeapOp, h': State)
    requires Sound(h) && OpStep(h, op, h')
    ensures Served(h', op) <==> OpFits(h, op)
  {
    hide Sound, AllocStep, AllocFits;
    match op
    case DoAlloc(n, a) =>
      AllocExact(h, n, h', a);
    case DoFree(a) =>
      FreeKeeps(h, a);
    case DoRealloc(a, n, r) =>
      if a == 0 {
        AllocExact(h, n, h', r);
      } else if BlockSize(h, a) < n {
        var m :| AllocStep(h, n, m, r) && h' == if r == 0 then m else FreeStep(m, a);
        AllocExact(h, n, m, r);
        FreeKeeps(m, a);
      }
  }

  /** One operation that fits keeps a block's place and size for as long as the heap lives. */
  lemma OpKeeps(h: State, op: HeapOp, h': State)
    requires Sound(h) && OpFits(h, op) && OpStep(h, op, h')
    ensures h'.limit == h.limit && h'.base == h.base
    ensures forall a | a in h.blocks :: a in h'.blocks && h'.blocks[a].size == h.blocks[a].size
  {
    hide Sound, AllocStep, AllocFits;
    match op
    case DoAlloc(n, a) =>
      AllocKeeps(h, n, h', a);
    case DoFree(a) =>
    case DoRealloc(a, n, r) =>
      if a == 0 {
        AllocKeeps(h, n, h', r);
      } else if BlockSize(h, a) < n {
        var m :| AllocStep(h, n, m, r) && h' == if r == 0 then m else FreeStep(m, a);
        AllocKeeps(h, n, m, r);
      }
  }

  lemma StartSound(h: State)
    requires 0 < h.base == h.next <= h.limit && h.blocks == map[]
    ensures Sound(h)
  {
  }

  /** Over a run, every call is served with the heap sound exactly when every call fits. */
  lemma {:induction false} TraceExact(hs: seq<State>, ops: seq<HeapOp>, n: nat)
    requires Trace(hs, ops) && n <= |ops|
    ensures (forall k | 0 <= k < n :: Served(hs[k + 1], ops[k])) <==> forall k | 0 <= k < n :: OpFits(hs[k], ops[k])
    ensures (forall k | 0 <= k < n :: OpFits(hs[k], ops[k])) ==> Sound(hs[n])
  {
    hide Sound, OpStep, OpFits;
    if n == 0 {
      StartSound(hs[0]);
    } else {
      TraceExact(hs, ops, n - 1);
      if forall k | 0 <= k < n - 1 :: OpFits(hs[k], ops[k]) {
        OpExact(hs[n - 1], ops[n - 1], hs[n]);
        assert Served(hs[n - 1 + 1], ops[n - 1]) <==> OpFits(hs[n - 1], ops[n - 1]);
      }
    }
  }

  /** Over a run of calls that fit, a block stays where it is and as large as it was. */
  lemma {:induction false} TraceKeeps(hs: seq<State>, ops: seq<HeapOp>, i: nat, j: nat)
    requires Trace(hs, ops) && i <= j <= |ops| && forall k | 0 <= k < |ops| :: OpFits(hs[k], ops[k])
    ensures forall a | a in hs[i].blocks :: a in hs[j].blocks && hs[j].blocks[a].size == hs[i].blocks[a].size
    decreases j
  {
    hide Sound, OpStep, OpFits;
    if i < j {
      TraceKeeps(hs, ops, i, j - 1);
      TraceExact(hs, ops, j - 1);
      OpKeeps(hs[j - 1], ops[j - 1], hs[j]);
    }
  }

  /** The memory behind a run: each call leaves every block's bytes but those of the one it copies to. */
  ghost predicate Bytewise(hs: seq<State>, ss: seq<Space>, ops: seq<HeapOp>)
  {
    && |hs| == |ss| == |ops| + 1 && (forall i | 0 <= i < |hs| :: Backed(ss[i], hs[i]))
    && forall i | 0 <= i < |ops| :: Preserved(ss[i], hs[i], ss[i + 1], hs[i + 1], Copied(hs[i], ops[i]))
  }

  /** Over a run, a block that nothing is copied to keeps its bytes. */
  lemma {:induction false} TraceContents(hs: seq<State>, ss: seq<Space>, ops: seq<HeapOp>, i: nat, j: nat, b: u64)
    requires Bytewise(hs, ss, ops) && i <= j <= |ops| && b in hs[i].blocks
    requires forall k | i <= k < j :: Copied(hs[k], ops[k]) != b
    ensures b in hs[j].blocks && Contents(ss[j], hs[j], b) == Contents(ss[i], hs[i], b)
    decreases j
  {
    hide Backed, Contents;
    if i < j {
      TraceContents(hs, ss, ops, i, j - 1, b);
      assert Preserved(ss[j - 1], hs[j - 1], ss[j - 1 + 1], hs[j - 1 + 1], Copied(hs[j - 1], ops[j - 1]));
    }
  }
}
