/**
  What guest memory means: one flat partial map from addresses to bytes, kept a page at a
  time, plus the two facts about its layout that later operations depend on - which pages the
  page table has a slot for, and which extents are contiguous mappings.
  */
module AddressSpace {
  import opened Bytes


  type PageBytes = s: seq<byte> | |s| == 4096 witness seq(4096, i => 0)

  type Flat = map<nat, PageBytes>

  function ZeroPage(): (z: PageBytes)
    ensures forall i | 0 <= i < 4096 :: z[i] == 0
  {
    seq(4096, i => 0)
  }

  datatype Extent = Extent(base: nat, size: nat)

  datatype Space = Space(flat: Flat, slots: set<nat>, extents: set<Extent>)

  const EMPTY: Space := Space(map[], {}, {})

  /** The byte a guest sees at an address; unmapped addresses have none. */
  function At(f: Flat, a: nat): byte
    requires a / 4096 in f
  {
    f[a / 4096][a % 4096]
  }

  predicate Covers(e: Extent, p: nat) { e.base <= p * 4096 < e.base + e.size }

  predicate Covered(extents: set<Extent>, p: nat) { exists e | e in extents :: Covers(e, p) }

  // A range given by a 64-bit address and size can reach or pass the top of the address space.

  predicate Tops(addr: nat, size: nat)
  {
    addr < 0x1_0000_0000_0000_0000 && size < 0x1_0000_0000_0000_0000 <= addr + size
  }

  /** Where the range ends, as 64-bit arithmetic has it. */
  function End(addr: nat, size: nat): nat {
    if Tops(addr, size) then addr + size - 0x1_0000_0000_0000_0000 else addr + size
  }

  /**
    How much of the range map() and unmap() walk over, from the page of its first byte to the page
    of its last: nothing when the last byte has come round below the first page.
    */
  function Walked(addr: nat, size: nat): nat
  {
    if !Tops(addr, size) || End(addr, size) == 0 then size
    else if (End(addr, size) - 1) / 4096 == addr / 4096 then 1
    else 0
  }

  /** The walk covers the pages of the range exactly when the range does not pass the top. */
  lemma WalkedExact(addr: nat, size: nat)
    requires addr < 0x1_0000_0000_0000_0000 && 0 < size < 0x1_0000_0000_0000_0000
    ensures PagesOf(addr, Walked(addr, size)) == PagesOf(addr, size) <==> addr + size <= 0x1_0000_0000_0000_0000
  {
    if addr + size > 0x1_0000_0000_0000_0000 {
      var last := (addr + size - 1) / 4096;
      assert last in PagesOf(addr, size) && last !in PagesOf(addr, Walked(addr, size));
    }
  }

  /** Mapping two pages from the topmost one maps neither. */
  lemma TopMapsNothing(s: Space)
    ensures Mapped(s, 0xFFFF_FFFF_FFFF_F000, 8192).flat == s.flat
  {
    assert Walked(0xFFFF_FFFF_FFFF_F000, 8192) == 0;
  }

  predicate Touches(e: Extent, addr: nat, size: nat)
  {
    addr < e.base + e.size && e.base < End(addr, size)
  }

  /** A range that does not pass the top touches an extent when some byte is in both. */
  lemma TouchesShares(e: Extent, addr: nat, size: nat)
    requires e.size > 0 && size > 0 && !Tops(addr, size)
    ensures Touches(e, addr, size) <==> exists x: nat {:trigger InBoth(x, e, addr, size)} :: InBoth(x, e, addr, size)
  {
    if Touches(e, addr, size) {
      assert InBoth(if addr < e.base then e.base else addr, e, addr, size);
    }
  }

  predicate InBoth(x: nat, e: Extent, addr: nat, size: nat)
  {
    e.base <= x < e.base + e.size && addr <= x < addr + size
  }

  /** Where a range that passes the top ends is what is left of it above zero. */
  lemma TouchesWrapped(e: Extent, addr: nat, size: nat)
    requires Tops(addr, size)
    ensures Touches(e, addr, size) <==>
            addr < e.base + e.size && e.base + 0x1_0000_0000_0000_0000 < addr + size
  {
  }

  /** Whether the byte range [addr, addr+size) has a byte on page p. */
  predicate OnPage(p: nat, addr: nat, size: nat)
  {
    size > 0 && addr / 4096 <= p <= (addr + size - 1) / 4096
  }

  function PagesOf(addr: nat, size: nat): (ps: set<nat>)
    ensures forall p :: p in ps <==> OnPage(p, addr, size)
  {
    if size == 0 then {} else set p | addr / 4096 <= p <= (addr + size - 1) / 4096 && OnPage(p, addr, size)
  }

  /** A page is in the range exactly when one of its bytes is. */
  lemma OnPageExact(p: nat, addr: nat, size: nat)
    ensures OnPage(p, addr, size) <==> exists x: nat :: addr <= x < addr + size && x / 4096 == p
  {
    if OnPage(p, addr, size) {
      var x := if p == addr / 4096 then addr else p * 4096;
      assert addr <= x < addr + size && x / 4096 == p;
    }
  }

  /** map() and unmap() go from the page of the first byte to the page of the last, in 64 bits. */
  lemma WalkedIs(addr: nat, size: nat, p: nat)
    requires addr < 0x1_0000_0000_0000_0000 && 0 < size < 0x1_0000_0000_0000_0000
    ensures OnPage(p, addr, Walked(addr, size)) <==>
            addr / 4096 <= p <= (addr + size - 1) % 0x1_0000_0000_0000_0000 / 4096
  {
  }

  /** A slot under a contiguous mapping: the mapping answers for the page, the slot stays empty. */
  function Shadowed(slots: set<nat>, extents: set<Extent>): set<nat> { set p | p in slots && Covered(extents, p) }

  // ---- one operation each ---------------------------------------------------------------

  /** Pages that are absent appear, zero filled; pages that are present are left alone. */
  function WithSlots(s: Space, ps: set<nat>): Space
  {
    Space(map p | p in s.flat.Keys + ps :: if p in s.flat then s.flat[p] else ZeroPage(), s.slots + ps, s.extents)
  }

  /** map() */
  function Mapped(s: Space, addr: nat, size: nat): Space { WithSlots(s, PagesOf(addr, Walked(addr, size))) }

  function Kept(s: Space, addr: nat, size: nat): set<Extent>
  {
    if size == 0 then s.extents else set e | e in s.extents && !Touches(e, addr, size)
  }

  /** unmap(): the slots of the range go, and every contiguous mapping it touches goes whole.  A
      slot that such a mapping had been hiding comes back as an untouched page. */
  function Unmapped(s: Space, addr: nat, size: nat): Space
  {
    var slots := s.slots - PagesOf(addr, Walked(addr, size));
    var extents := Kept(s, addr, size);
    Space(map p | p in s.flat && (p in slots || Covered(extents, p)) ::
            if Covered(s.extents, p) && !Covered(extents, p) then ZeroPage() else s.flat[p],
          slots, extents)
  }

  /** A page goes with the contiguous mapping over it, and otherwise when it is walked over. */
  ghost predicate Gone(extents: set<Extent>, addr: nat, size: nat, p: nat)
  {
    if Covered(extents, p) then exists e | e in extents :: Covers(e, p) && size > 0 && Touches(e, addr, size)
    else OnPage(p, addr, Walked(addr, size))
  }

  function RoundUp(a: nat): nat { (a + 4095) / 4096 * 4096 }

  function RoundDown(a: nat): nat { a / 4096 * 4096 }

  /** The nearest page boundaries on either side. */
  lemma Rounds(a: nat)
    ensures RoundUp(a) % 4096 == 0 && a <= RoundUp(a) < a + 4096
    ensures RoundDown(a) % 4096 == 0 && RoundDown(a) <= a < RoundDown(a) + 4096
  {
  }

  /**
    map_contiguous(): the range is widened to whole pages, cleared, and becomes one extent.  One
    that reaches the top of the address space is never found again, and so is left out.
    */
  function Contiguous(s: Space, addr: nat, size: nat): Space
  {
    if size == 0 then s else
    var base := RoundDown(addr);
    var len := RoundUp(addr + size) - base;
    var u := Unmapped(s, base, len);
    if Tops(base, len) then u else
    Space(map p | p in u.flat.Keys + PagesOf(base, len) :: if p in PagesOf(base, len) then ZeroPage() else u.flat[p],
          u.slots, u.extents + {Extent(base, len)})
  }

  /** What map_contiguous() makes of a page of its range, below the topmost page and up to it. */
  lemma ContiguousAt(s: Space, addr: nat, size: nat, p: nat)
    requires 4096 <= addr && 0 < size && OnPage(p, addr, size)
    ensures addr + size <= 0x1_0000_0000_0000_0000 - 4096 ==>
              && p in Contiguous(s, addr, size).flat && Contiguous(s, addr, size).flat[p] == ZeroPage()
              && Covered(Contiguous(s, addr, size).extents, p)
    ensures 0x1_0000_0000_0000_0000 - 4096 < addr + size <= 0x1_0000_0000_0000_0000 ==>
              && Contiguous(s, addr, size).extents == s.extents
              && (p in Contiguous(s, addr, size).flat ==> Covered(s.extents, p))
  {
    var base := RoundDown(addr);
    var len := RoundUp(addr + size) - base;
    Rounds(addr);
    Rounds(addr + size);
    if addr + size <= 0x1_0000_0000_0000_0000 - 4096 {
      assert Covers(Extent(base, len), p);
    } else if addr + size <= 0x1_0000_0000_0000_0000 {
      assert RoundUp(addr + size) == 0x1_0000_0000_0000_0000;
      assert Kept(s, base, len) == s.extents;
      assert p in PagesOf(base, Walked(base, len));
    }
  }

  /** A page after the part of [addr, addr+|src|) that falls on it has been overwritten. */
  function Patched(pg: PageBytes, p: nat, addr: nat, src: seq<byte>): PageBytes
  {
    seq<byte>(4096, i requires 0 <= i < 4096 =>
      if addr <= p * 4096 + i < addr + |src| then src[p * 4096 + i - addr] else pg[i])
  }

  /** The pages write() passes over: whole pages of zeros aimed at a slot nothing has touched.
      The slot's own contents are zero, so this only shows when the slot is shadowed. */
  function Skipped(shadow: set<nat>, addr: nat, src: seq<byte>): set<nat>
  {
    set p | p in shadow && Skips(addr, src, p)
  }

  predicate Skips(addr: nat, src: seq<byte>, p: nat)
  {
    && addr <= p * 4096 && p * 4096 + 4096 <= addr + |src|
    && AllZero(src[p * 4096 - addr..p * 4096 - addr + 4096])
  }

  predicate AllZero(s: seq<byte>) { forall i | 0 <= i < |s| :: s[i] == 0 }

  function Stored(f: Flat, addr: nat, src: seq<byte>): Flat
  {
    map p | p in f :: Patched(f[p], p, addr, src)
  }

  function StoredBut(f: Flat, addr: nat, src: seq<byte>, skip: set<nat>): Flat
  {
    map p | p in f :: if p in skip then f[p] else Patched(f[p], p, addr, src)
  }

  /** What write() leaves behind, shadowed pages included. */
  function Written(s: Space, addr: nat, src: seq<byte>): Space
  {
    s.(flat := StoredBut(s.flat, addr, src, Skipped(Shadowed(s.slots, s.extents), addr, src)))
  }

  predicate AllMapped(f: Flat, addr: nat, len: nat)
  {
    forall p | p in PagesOf(addr, len) :: p in f
  }

  /** How many bytes an access reaches before its first unmapped page. */
  function Reach(f: Flat, addr: nat, len: nat): (n: nat)
    ensures n <= len
    decreases len
  {
    if len == 0 || addr / 4096 !in f then 0
    else
      var n := if 4096 - addr % 4096 > len then len else 4096 - addr % 4096;
      n + Reach(f, addr + n, len - n)
  }

  function Loaded(f: Flat, addr: nat, len: nat): (s: seq<byte>)
    requires AllMapped(f, addr, len)
    ensures |s| == len
  {
    seq<byte>(len, i requires 0 <= i < len =>
      assert (addr + i) / 4096 in PagesOf(addr, len); At(f, addr + i))
  }

  // ---- laws about writing in pieces -------------------------------------------------------------

  predicate AtPage(addr: nat) { addr % 4096 == 0 }

  /** One chunk of an access: it stays on its page, and it fills the page or ends the access. */
  predicate Chunk(addr: nat, n: nat, len: nat)
  {
    0 < n <= len && n == if 4096 - addr % 4096 > len then len else 4096 - addr % 4096
  }

  lemma ChunkPages(addr: nat, n: nat, len: nat)
    requires Chunk(addr, n, len)
    ensures PagesOf(addr, n) == {addr / 4096}
    ensures PagesOf(addr, len) == {addr / 4096} + PagesOf(addr + n, len - n)
  {
  }

  /** Writing a + b is writing a, then b where a ended. */
  lemma StoredTwice(f: Flat, addr: nat, a: seq<byte>, b: seq<byte>, sa: set<nat>, sb: set<nat>)
    requires forall p | p in sa :: !OnPage(p, addr + |a|, |b|)
    requires forall p | p in sb :: !OnPage(p, addr, |a|)
    ensures StoredBut(StoredBut(f, addr, a, sa), addr + |a|, b, sb) == StoredBut(f, addr, a + b, sa + sb)
  {
    hide Patched, OnPage;
    var l := StoredBut(StoredBut(f, addr, a, sa), addr + |a|, b, sb);
    var r := StoredBut(f, addr, a + b, sa + sb);
    forall p | p in f ensures l[p] == r[p] {
      PatchedTwice(f[p], p, addr, a, b);
    }
  }

  lemma PatchedTwice(pg: PageBytes, p: nat, addr: nat, a: seq<byte>, b: seq<byte>)
    ensures Patched(Patched(pg, p, addr, a), p, addr + |a|, b) == Patched(pg, p, addr, a + b)
    ensures !OnPage(p, addr, |a|) ==>
              Patched(pg, p, addr, a) == pg && Patched(pg, p, addr + |a|, b) == Patched(pg, p, addr, a + b)
    ensures !OnPage(p, addr + |a|, |b|) ==>
              Patched(pg, p, addr + |a|, b) == pg && Patched(pg, p, addr, a) == Patched(pg, p, addr, a + b)
  {
    var l, r := Patched(Patched(pg, p, addr, a), p, addr + |a|, b), Patched(pg, p, addr, a + b);
    forall i | 0 <= i < 4096
      ensures l[i] == r[i] && (addr <= p * 4096 + i < addr + |a| ==> OnPage(p, addr, |a|))
              && (addr + |a| <= p * 4096 + i < addr + |a| + |b| ==> OnPage(p, addr + |a|, |b|))
    {
    }
  }

  /** Whether a page of a + b is passed over, when b is the next chunk. */
  lemma SkipsTwice(addr: nat, a: seq<byte>, b: seq<byte>, len: nat, p: nat)
    requires Chunk(addr + |a|, |b|, len) && (a == [] || AtPage(addr + |a|))
    ensures Skips(addr, a + b, p) <==> Skips(addr, a, p) || (|b| == 4096 && AllZero(b) && p == (addr + |a|) / 4096)
    ensures Skips(addr, a, p) ==> !OnPage(p, addr + |a|, |b|)
    ensures a != [] && p == (addr + |a|) / 4096 ==> !OnPage(p, addr, |a|)
  {
    var at := p * 4096 - addr;
    if addr <= p * 4096 && p * 4096 + 4096 <= addr + |a| {
      assert (a + b)[at..at + 4096] == a[at..at + 4096];
    } else if addr <= p * 4096 && p * 4096 + 4096 <= addr + |a| + |b| {
      assert p == (addr + |a|) / 4096 && |b| == 4096;
      assert (a + b)[at..at + 4096] == b;
    }
  }

  lemma SkippedTwice(shadow: set<nat>, addr: nat, a: seq<byte>, b: seq<byte>, len: nat)
    requires Chunk(addr + |a|, |b|, len) && (a == [] || AtPage(addr + |a|))
    ensures Skipped(shadow, addr, a + b) ==
            Skipped(shadow, addr, a) +
              (if |b| == 4096 && AllZero(b) && (addr + |a|) / 4096 in shadow then {(addr + |a|) / 4096} else {})
    ensures forall p | p in Skipped(shadow, addr, a) :: !OnPage(p, addr + |a|, |b|)
    ensures a != [] ==> !OnPage((addr + |a|) / 4096, addr, |a|)
  {
    hide Skips, OnPage, AllZero;
    forall p: nat
      ensures Skips(addr, a + b, p) <==> Skips(addr, a, p) || (|b| == 4096 && AllZero(b) && p == (addr + |a|) / 4096)
      ensures Skips(addr, a, p) ==> !OnPage(p, addr + |a|, |b|)
    {
      SkipsTwice(addr, a, b, len, p);
    }
    SkipsTwice(addr, a, b, len, (addr + |a|) / 4096);
  }

  /** A store that stays on one page changes that page only. */
  lemma StoredOnePage(f: Flat, addr: nat, b: seq<byte>)
    requires addr / 4096 in f && |b| <= 4096 - addr % 4096
    ensures StoredBut(f, addr, b, {}) ==
            f[addr / 4096 := f[addr / 4096][..addr % 4096] + b + f[addr / 4096][addr % 4096 + |b|..]]
  {
    hide Patched;
    forall p | p in f
      ensures Patched(f[p], p, addr, b) ==
                if p == addr / 4096 then f[p][..addr % 4096] + b + f[p][addr % 4096 + |b|..] else f[p]
    {
      PatchedIs(f[p], p, addr, b);
    }
  }

  lemma PatchedIs(pg: PageBytes, p: nat, addr: nat, b: seq<byte>)
    requires |b| <= 4096 - addr % 4096
    ensures Patched(pg, p, addr, b) == if p == addr / 4096 then pg[..addr % 4096] + b + pg[addr % 4096 + |b|..] else pg
  {
  }

  /** Skipping a page, when the chunk is the whole of it, is storing nothing. */
  lemma StoredSkip(f: Flat, addr: nat, b: seq<byte>)
    requires addr % 4096 == 0 && |b| == 4096
    ensures StoredBut(f, addr, b, {addr / 4096}) == f
    ensures addr / 4096 in f && f[addr / 4096] == ZeroPage() && AllZero(b) ==> StoredBut(f, addr, b, {}) == f
  {
    hide Patched;
    forall p | p in f
      ensures p != addr / 4096 ==> Patched(f[p], p, addr, b) == f[p]
      ensures p == addr / 4096 && f[p] == ZeroPage() && AllZero(b) ==> Patched(f[p], p, addr, b) == f[p]
    {
      PatchedIs(f[p], p, addr, b);
    }
  }

  function SkipOf(shadow: set<nat>, addr: nat, b: seq<byte>): set<nat>
  {
    if |b| == 4096 && AllZero(b) && addr / 4096 in shadow then {addr / 4096} else {}
  }

  /** The next chunk of a write, on top of what the earlier chunks left. */
  lemma NextChunkWritten(f0: Flat, shadow: set<nat>, addr: nat, a: seq<byte>, b: seq<byte>, len: nat)
    requires Chunk(addr + |a|, |b|, len) && (a == [] || AtPage(addr + |a|))
    ensures StoredBut(f0, addr, a + b, Skipped(shadow, addr, a + b)) ==
            StoredBut(StoredBut(f0, addr, a, Skipped(shadow, addr, a)), addr + |a|, b, SkipOf(shadow, addr + |a|, b))
  {
    hide Skipped, Skips, AllZero, StoredBut, OnPage, PagesOf;
    SkippedTwice(shadow, addr, a, b, len);
    NoPage(addr);
    StoredTwice(f0, addr, a, b, Skipped(shadow, addr, a), SkipOf(shadow, addr + |a|, b));
  }

  lemma NoPage(addr: nat)
    ensures forall p :: !OnPage(p, addr, 0)
  {
  }

  lemma ChunkEnd(addr: nat, n: nat, len: nat)
    requires Chunk(addr, n, len)
    ensures n == len || AtPage(addr + n)
  {
  }

  lemma NothingWritten(f: Flat, shadow: set<nat>, addr: nat)
    ensures StoredBut(f, addr, [], Skipped(shadow, addr, [])) == f
  {
    var g := StoredBut(f, addr, [], Skipped(shadow, addr, []));
    forall p | p in f ensures g[p] == f[p] {
    }
  }

  lemma StoredKeys(f: Flat, addr: nat, src: seq<byte>, skip: set<nat>)
    ensures StoredBut(f, addr, src, skip).Keys == f.Keys
  {
  }

  /** How a write stands once the bytes `a` are in. */
  ghost predicate Progress(f0: Flat, shadow: set<nat>, addr: nat, a: seq<byte>, f: Flat)
  {
    f == StoredBut(f0, addr, a, Skipped(shadow, addr, a)) && f.Keys == f0.Keys
  }

  /** How an access of len bytes stands after its first k. */
  ghost predicate Reached(f0: Flat, addr: nat, k: nat, len: nat)
  {
    k <= len && (k == 0 || k == len || AtPage(addr + k)) && Reach(f0, addr, len) == k + Reach(f0, addr + k, len - k)
  }

  lemma ProgressStart(f0: Flat, shadow: set<nat>, addr: nat, len: nat)
    ensures Progress(f0, shadow, addr, [], f0) && Reached(f0, addr, 0, len)
  {
    NothingWritten(f0, shadow, addr);
  }

  lemma ProgressStep(f0: Flat, shadow: set<nat>, addr: nat, a: seq<byte>, b: seq<byte>, len: nat, f: Flat)
    requires Progress(f0, shadow, addr, a, f) && (a == [] || AtPage(addr + |a|)) && Chunk(addr + |a|, |b|, len)
    ensures Progress(f0, shadow, addr, a + b, StoredBut(f, addr + |a|, b, SkipOf(shadow, addr + |a|, b)))
  {
    hide Skipped, StoredBut, AtPage, SkipOf, Chunk;
    StoredKeys(f0, addr, a + b, Skipped(shadow, addr, a + b));
    NextChunkWritten(f0, shadow, addr, a, b, len);
  }

  lemma ReachedStep(f0: Flat, addr: nat, k: nat, n: nat, len: nat)
    requires Reached(f0, addr, k, len) && k < len && Chunk(addr + k, n, len - k)
    ensures (addr + k) / 4096 in f0 ==> Reached(f0, addr, k + n, len)
    ensures (addr + k) / 4096 !in f0 ==> Reach(f0, addr, len) == k
  {
    hide Reach, AtPage, Chunk;
    ReachStops(f0, addr + k, n, len - k);
    ChunkEnd(addr + k, n, len - k);
  }

  lemma ReachStops(f: Flat, addr: nat, n: nat, len: nat)
    requires Chunk(addr, n, len)
    ensures addr / 4096 in f ==> Reach(f, addr, len) == n + Reach(f, addr + n, len - n)
    ensures addr / 4096 !in f ==> Reach(f, addr, len) == 0
  {
  }

  // ---- unmap() in the two passes the code makes ------------------------------------------------

  /** Only the extents in `keep` remain; what they alone were covering falls back to its slot. */
  function Dropped(s: Space, keep: set<Extent>): Space
  {
    Space(map p | p in s.flat && (p in s.slots || Covered(keep, p)) ::
            if Covered(s.extents, p) && !Covered(keep, p) then ZeroPage() else s.flat[p],
          s.slots, keep)
  }

  /** The slots in `ps` are gone. */
  function Erased(s: Space, ps: set<nat>): Space
  {
    Space(map p | p in s.flat && (p !in ps || Covered(s.extents, p)) :: s.flat[p], s.slots - ps, s.extents)
  }

  ghost predicate Consistent(s: Space) { forall p :: p in s.flat <==> p in s.slots || Covered(s.extents, p) }

  lemma DroppedTwice(s: Space, k1: set<Extent>, k2: set<Extent>)
    requires k2 <= k1 <= s.extents
    ensures Dropped(Dropped(s, k1), k2) == Dropped(s, k2)
  {
  }

  lemma ErasedTwice(s: Space, a: set<nat>, b: set<nat>)
    ensures Erased(Erased(s, a), b) == Erased(s, a + b)
  {
  }

  lemma WithSlotsTwice(s: Space, a: set<nat>, b: set<nat>)
    ensures WithSlots(WithSlots(s, a), b) == WithSlots(s, a + b)
  {
  }

  lemma UnmappedIs(s: Space, addr: nat, size: nat)
    requires Consistent(s)
    ensures Unmapped(s, addr, size) == Erased(Dropped(s, Kept(s, addr, size)), PagesOf(addr, Walked(addr, size)))
  {
  }

  lemma UnmappedNothing(s: Space, addr: nat)
    requires Consistent(s)
    ensures Unmapped(s, addr, 0) == s
  {
  }

  lemma ErasedNone(s: Space)
    requires Consistent(s)
    ensures Erased(s, {}) == s && Dropped(s, s.extents) == s
  {
  }

  // ---- page lists ---------------------------------------------------------------------------------

  predicate IsLeast(m: nat, s: set<nat>) { m in s && forall p | p in s :: m <= p }

  /** The members of a set in increasing order. */
  function Sorted(s: set<nat>): (r: seq<nat>)
    ensures forall p :: p in r <==> p in s
    ensures forall i, j | 0 <= i < j < |r| :: r[i] < r[j]
  {
    if s == {} then []
    else
      HasLeast(s);
      var m :| IsLeast(m, s);
      [m] + Sorted(s - {m})
  }

  lemma {:induction false} HasLeast(s: set<nat>)
    requires s != {}
    ensures exists m :: IsLeast(m, s)
    ensures forall m, n | IsLeast(m, s) && IsLeast(n, s) :: m == n
  {
    var x :| x in s;
    assert forall p | p in s :: p == x || p in s - {x};
    if s - {x} == {} {
      assert IsLeast(x, s);
    } else {
      HasLeast(s - {x});
      var m :| IsLeast(m, s - {x});
      assert IsLeast(if x < m then x else m, s);
    }
  }
}
