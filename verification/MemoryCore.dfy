/**
  What decides the contents of a page: the page table, the contiguous mappings, and the blocks
  of host memory behind both.  Each change the emulator makes to them is one step here, shown to
  keep the two tables consistent and to mean what AddressSpace says it means.
  */
module MemoryCore {
  import opened Bytes
  import opened AddressSpace

  /** An address in host memory: a block the emulator allocated, and an offset into it. */
  datatype Ptr = Ptr(id: nat, off: nat)

  /** A page-table slot: reserved until the first access, backed by a block of its own after. */
  datatype Slot = Reserved | Backed(id: nat)

  datatype Span = Span(base: nat, size: nat, id: nat)

  predicate SpanHas(s: Span, p: nat) { s.base <= p * 4096 < s.base + s.size }

  predicate Whole(s: Span) { s.base % 4096 == 0 && s.size % 4096 == 0 && s.size > 0 }

  function Extents(spans: seq<Span>): set<Extent> { set s | s in spans :: Extent(s.base, s.size) }

  // ---- the page table, the spans and the host blocks behind them -----------------------------

  /**
    The fields that decide what a page holds.  Three of them are only for the proof: the pages
    inside spans, the host block behind each page, and the first page of each block.
    */
  datatype Core = Core(pages: map<nat, Slot>, spans: seq<Span>, host: map<nat, seq<byte>>, next: nat,
                             spanned: set<nat>, owner: map<nat, Ptr>, start: map<nat, nat>, flat: Flat)

  ghost predicate OwnerOk(c: Core, p: nat)
    requires p in c.owner
  {
    var o := c.owner[p];
    && o.id in c.host && o.id in c.start && c.start[o.id] <= p && o.off == (p - c.start[o.id]) * 4096
    && o.off + 4096 <= |c.host[o.id]| && p in c.flat && c.flat[p] == c.host[o.id][o.off..o.off + 4096]
  }

  /** One page: it exists when it has a slot or lies in a span, it has a block when it lies in a
      span or has been touched, and it shows its block, or zeros. */
  ghost predicate PageOk(c: Core, p: nat)
  {
    && (p in c.flat <==> p in c.pages || p in c.spanned)
    && (p in c.owner <==> p in c.spanned || (p in c.pages && c.pages[p].Backed?))
    && (p in c.owner ==> OwnerOk(c, p))
    && (p in c.flat && p !in c.owner ==> c.flat[p] == ZeroPage())
    && (p in c.pages && c.pages[p].Backed? ==>
          p !in c.spanned && c.owner[p].id == c.pages[p].id && c.start[c.pages[p].id] == p
            && |c.host[c.pages[p].id]| == 4096)
    && (p in c.spanned ==> exists i | 0 <= i < |c.spans| :: SpanHas(c.spans[i], p))
    && (forall i | 0 <= i < |c.spans| && SpanHas(c.spans[i], p) :: p in c.spanned && c.owner[p].id == c.spans[i].id)
  }

  ghost predicate SpanOk(c: Core, s: Span)
  {
    && Whole(s) && s.id in c.host && s.id in c.start && |c.host[s.id]| == s.size && c.start[s.id] * 4096 == s.base
  }

  ghost predicate Ok(c: Core)
  {
    && (forall p: nat :: PageOk(c, p))
    && (forall id | id in c.host :: id < c.next)
    && (forall i | 0 <= i < |c.spans| :: SpanOk(c, c.spans[i]))
    && (forall i, j | 0 <= i < j < |c.spans| :: c.spans[i].id != c.spans[j].id)
  }

  function Zeroes(n: nat): seq<byte> { seq(n, i => 0) }

  // -- a page gets a block of its own

  ghost function PageStep(c: Core, p: nat, data: PageBytes): Core
  {
    c.(pages := c.pages[p := Backed(c.next)], host := c.host[c.next := data], next := c.next + 1,
       owner := c.owner[p := Ptr(c.next, 0)], start := c.start[c.next := p], flat := c.flat[p := data])
  }

  lemma PageStepOk(c: Core, p: nat, data: PageBytes)
    requires Ok(c) && p !in c.owner
    ensures Ok(PageStep(c, p, data))
  {
    var d := PageStep(c, p, data);
    assert PageOk(c, p);
    forall q: nat ensures PageOk(d, q) {
      assert PageOk(c, q);
      assert data[0..4096] == data;
    }
    hide PageOk;
    SpansStay(c, d);
  }

  /** The spans are untouched by a step that leaves their blocks and first pages alone. */
  lemma SpansStay(c: Core, d: Core)
    requires forall i | 0 <= i < |c.spans| :: SpanOk(c, c.spans[i])
    requires d.spans == c.spans
    requires forall i | 0 <= i < |c.spans| && c.spans[i].id in c.host && c.spans[i].id in c.start ::
               c.spans[i].id in d.host && |d.host[c.spans[i].id]| == |c.host[c.spans[i].id]|
               && c.spans[i].id in d.start && d.start[c.spans[i].id] == c.start[c.spans[i].id]
    ensures forall i | 0 <= i < |d.spans| :: SpanOk(d, d.spans[i])
  {
    forall i | 0 <= i < |d.spans| ensures SpanOk(d, d.spans[i]) {
      assert SpanOk(c, c.spans[i]);
    }
  }

  // -- bytes are stored into a backed page

  ghost function Splice(s: seq<byte>, at: nat, b: seq<byte>): (r: seq<byte>)
    requires at + |b| <= |s|
    ensures |r| == |s|
  {
    s[..at] + b + s[at + |b|..]
  }

  ghost function PokeStep(c: Core, p: nat, off: nat, b: seq<byte>): Core
    requires p in c.owner && OwnerOk(c, p) && off + |b| <= 4096
  {
    var o := c.owner[p];
    c.(host := c.host[o.id := Splice(c.host[o.id], o.off + off, b)],
       flat := c.flat[p := Splice(c.flat[p], off, b)])
  }

  lemma PokeOther(s: seq<byte>, at: nat, b: seq<byte>, from: nat, to: nat)
    requires at + |b| <= |s| && from <= to <= |s| && (to <= at || at + |b| <= from)
    ensures Splice(s, at, b)[from..to] == s[from..to]
  {
  }

  lemma PokeSame(s: seq<byte>, base: nat, off: nat, b: seq<byte>)
    requires off + |b| <= 4096 && base + 4096 <= |s|
    ensures Splice(s, base + off, b)[base..base + 4096] == Splice(s[base..base + 4096], off, b)
  {
  }

  lemma PokeOwner(c: Core, p: nat, off: nat, b: seq<byte>, q: nat)
    requires p in c.owner && OwnerOk(c, p) && off + |b| <= 4096 && q in c.owner && OwnerOk(c, q)
    ensures OwnerOk(PokeStep(c, p, off, b), q)
  {
    hide Splice;
    var o := c.owner[p];
    if q == p {
      PokeSame(c.host[o.id], o.off, off, b);
    } else if c.owner[q].id == o.id {
      PokeOther(c.host[o.id], o.off + off, b, c.owner[q].off, c.owner[q].off + 4096);
    }
  }

  lemma PokeOk(c: Core, p: nat, off: nat, b: seq<byte>)
    requires Ok(c) && p in c.owner && off + |b| <= 4096
    ensures OwnerOk(c, p) && Ok(PokeStep(c, p, off, b))
  {
    hide Splice;
    assert PageOk(c, p);
    var d := PokeStep(c, p, off, b);
    forall q: nat ensures PageOk(d, q) {
      assert PageOk(c, q);
      if q in c.owner {
        PokeOwner(c, p, off, b, q);
      }
      hide OwnerOk;
    }
    hide PageOk;
    SpansStay(c, d);
  }

  // -- one slot appears or goes

  ghost function SlotStep(c: Core, p: nat): Core
  {
    if p in c.pages then c
    else c.(pages := c.pages[p := Reserved], flat := if p in c.flat then c.flat else c.flat[p := ZeroPage()])
  }

  lemma SlotOk(c: Core, p: nat)
    requires Ok(c)
    ensures Ok(SlotStep(c, p))
  {
    var d := SlotStep(c, p);
    forall q: nat ensures PageOk(d, q) {
      assert PageOk(c, q);
    }
    hide PageOk;
    SpansStay(c, d);
  }

  ghost function EraseStep(c: Core, p: nat): Core
  {
    if p !in c.pages then c
    else if c.pages[p].Reserved? then
      c.(pages := c.pages - {p}, flat := if p in c.spanned then c.flat else c.flat - {p})
    else
      c.(pages := c.pages - {p}, host := c.host - {c.pages[p].id}, owner := c.owner - {p}, flat := c.flat - {p})
  }

  lemma EraseOk(c: Core, p: nat)
    requires Ok(c)
    ensures Ok(EraseStep(c, p))
  {
    var d := EraseStep(c, p);
    assert PageOk(c, p);
    forall q: nat ensures PageOk(d, q) {
      assert PageOk(c, q);
    }
    forall i | 0 <= i < |c.spans| && p in c.pages && c.pages[p].Backed? ensures c.spans[i].id != c.pages[p].id {
      var s := c.spans[i];
      assert SpanOk(c, s);
      assert PageOk(c, s.base / 4096);
      assert SpanHas(s, s.base / 4096);
    }
    hide PageOk;
    SpansStay(c, d);
  }

  // -- a span goes whole, or a new one arrives

  ghost function SpanPages(s: Span): set<nat> { PagesOf(s.base, s.size) }

  lemma SpanPagesAre(s: Span, p: nat)
    requires Whole(s)
    ensures p in SpanPages(s) <==> SpanHas(s, p)
  {
  }

  ghost function DropStep(c: Core, i: nat): Core
    requires i < |c.spans|
  {
    var s := c.spans[i];
    c.(spans := c.spans[..i] + c.spans[i + 1..], host := c.host - {s.id}, spanned := c.spanned - SpanPages(s),
       owner := c.owner - SpanPages(s),
       flat := map p | p in c.flat && (p in SpanPages(s) ==> p in c.pages) ::
         if p in SpanPages(s) then ZeroPage() else c.flat[p])
  }

  /** A block belongs to its span alone. */
  lemma SpanOwns(c: Core, i: nat, p: nat)
    requires Ok(c) && i < |c.spans|
    ensures p in c.owner && c.owner[p].id == c.spans[i].id <==> p in SpanPages(c.spans[i])
    ensures p in SpanPages(c.spans[i]) ==> p in c.spanned
  {
    assert SpanOk(c, c.spans[i]);
    assert PageOk(c, p);
    SpanPagesAre(c.spans[i], p);
  }

  lemma DropPage(c: Core, i: nat, p: nat)
    requires Ok(c) && i < |c.spans|
    ensures PageOk(DropStep(c, i), p)
  {
    var d := DropStep(c, i);
    assert PageOk(c, p);
    SpanOwns(c, i, p);
    SpanPagesAre(c.spans[i], p) by { assert SpanOk(c, c.spans[i]); }
    if p in d.spanned {
      var j :| 0 <= j < |c.spans| && SpanHas(c.spans[j], p);
      assert d.spans[if j < i then j else j - 1] == c.spans[j];
    }
    forall k | 0 <= k < |d.spans| && SpanHas(d.spans[k], p) ensures p in d.spanned && d.owner[p].id == d.spans[k].id {
      var j := if k < i then k else k + 1;
      assert d.spans[k] == c.spans[j];
      assert c.owner[p].id == c.spans[j].id && c.spans[j].id != c.spans[i].id;
    }
  }

  lemma DropOk(c: Core, i: nat)
    requires Ok(c) && i < |c.spans|
    ensures Ok(DropStep(c, i))
  {
    var d := DropStep(c, i);
    forall p: nat ensures PageOk(d, p) {
      DropPage(c, i, p);
    }
    hide PageOk;
    forall k | 0 <= k < |d.spans| ensures SpanOk(d, d.spans[k]) {
      var j := if k < i then k else k + 1;
      assert SpanOk(c, c.spans[j]) && d.spans[k] == c.spans[j];
    }
  }

  /** The pages a contiguous block of bytes shows. */
  ghost function SliceAt(base: nat, data: seq<byte>, p: nat): PageBytes
    requires base % 4096 == 0 && |data| % 4096 == 0 && OnPage(p, base, |data|)
  {
    WholePage(p, base, |data|);
    data[p * 4096 - base..p * 4096 - base + 4096]
  }

  ghost function Slices(base: nat, data: seq<byte>): Flat
    requires base % 4096 == 0 && |data| % 4096 == 0
  {
    map p | p in PagesOf(base, |data|) :: SliceAt(base, data, p)
  }

  ghost function SlicePtrs(base: nat, size: nat, id: nat): map<nat, Ptr>
    requires base % 4096 == 0 && size % 4096 == 0
  {
    map p | p in PagesOf(base, size) :: Ptr(id, p * 4096 - base)
  }

  ghost function AddStep(c: Core, base: nat, data: seq<byte>): Core
    requires |data| % 4096 == 0 && base % 4096 == 0
  {
    var s := Span(base, |data|, c.next);
    var ps := SpanPages(s);
    c.(spans := c.spans + [s], host := c.host[c.next := data], next := c.next + 1, spanned := c.spanned + ps,
       owner := c.owner + SlicePtrs(base, |data|, c.next),
       start := c.start[c.next := base / 4096],
       flat := c.flat + Slices(base, data))
  }

  lemma AddPageIn(c: Core, base: nat, data: seq<byte>, p: nat)
    requires PageOk(c, p) && p !in c.owner
    requires |data| % 4096 == 0 && base % 4096 == 0 && p in SpanPages(Span(base, |data|, c.next))
    ensures PageOk(AddStep(c, base, data), p)
  {
    var d := AddStep(c, base, data);
    var s := Span(base, |data|, c.next);
    assert d.spans[|c.spans|] == s && SpanHas(s, p);
    AddOwner(c, base, data, p);
    hide OwnerOk, SpanPages;
  }

  lemma AddOwner(c: Core, base: nat, data: seq<byte>, p: nat)
    requires |data| % 4096 == 0 && base % 4096 == 0 && p in SpanPages(Span(base, |data|, c.next))
    ensures var d := AddStep(c, base, data); p in d.owner && d.owner[p].id == c.next && OwnerOk(d, p)
  {
    hide OnPage;
    SliceOf(base, data, p);
    hide Slices, SlicePtrs;
    var d := AddStep(c, base, data);
    assert d.host[c.next] == data;
  }

  lemma SliceOf(base: nat, data: seq<byte>, p: nat)
    requires |data| % 4096 == 0 && base % 4096 == 0 && p in PagesOf(base, |data|)
    ensures p in Slices(base, data) && base / 4096 <= p && p * 4096 - base == (p - base / 4096) * 4096
            && p * 4096 - base + 4096 <= |data|
    ensures Slices(base, data)[p] == data[p * 4096 - base..p * 4096 - base + 4096]
    ensures forall id ::
              SlicePtrs(base, |data|, id).Keys == PagesOf(base, |data|)
                && SlicePtrs(base, |data|, id)[p] == Ptr(id, p * 4096 - base)
  {
  }

  lemma AddPageOut(c: Core, base: nat, data: seq<byte>, p: nat)
    requires PageOk(c, p) && (forall id | id in c.host :: id < c.next)
    requires |data| % 4096 == 0 && base % 4096 == 0 && p !in SpanPages(Span(base, |data|, c.next))
    ensures PageOk(AddStep(c, base, data), p)
  {
    var d := AddStep(c, base, data);
    assert !SpanHas(Span(base, |data|, c.next), p) by {
      if |data| > 0 {
        SpanPagesAre(Span(base, |data|, c.next), p);
      }
    }
    hide SpanPages, SpanHas;
    if p in c.spanned {
      var j :| 0 <= j < |c.spans| && SpanHas(c.spans[j], p);
      assert d.spans[j] == c.spans[j];
    }
  }

  lemma AddOk(c: Core, base: nat, data: seq<byte>)
    requires Ok(c) && |data| % 4096 == 0 && base % 4096 == 0 && |data| > 0
    requires forall p | p in SpanPages(Span(base, |data|, c.next)) :: p !in c.owner
    ensures Ok(AddStep(c, base, data))
  {
    var d := AddStep(c, base, data);
    forall p: nat ensures PageOk(d, p) {
      assert PageOk(c, p);
      if p in SpanPages(Span(base, |data|, c.next)) {
        AddPageIn(c, base, data, p);
      } else {
        AddPageOut(c, base, data, p);
      }
    }
    hide PageOk;
    forall k | 0 <= k < |d.spans| ensures SpanOk(d, d.spans[k]) {
      assert k < |c.spans| ==> SpanOk(c, c.spans[k]) && d.spans[k] == c.spans[k];
    }
  }

  // ---- what the steps mean -----------------------------------------------------------------------

  ghost function View(c: Core): Space { Space(c.flat, c.pages.Keys, Extents(c.spans)) }

  /** The pages inside spans are the ones the extents cover. */
  lemma CoveredIs(c: Core, p: nat)
    requires Ok(c)
    ensures Covered(Extents(c.spans), p) <==> p in c.spanned
  {
    assert PageOk(c, p);
    if p in c.spanned {
      var i :| 0 <= i < |c.spans| && SpanHas(c.spans[i], p);
      assert Covers(Extent(c.spans[i].base, c.spans[i].size), p);
      assert Extent(c.spans[i].base, c.spans[i].size) in Extents(c.spans);
    }
    if Covered(Extents(c.spans), p) {
      var e :| e in Extents(c.spans) && Covers(e, p);
      var s :| s in c.spans && e == Extent(s.base, s.size);
      assert SpanHas(s, p);
    }
  }

  lemma ViewConsistent(c: Core)
    requires Ok(c)
    ensures Consistent(View(c))
  {
    forall p: nat ensures p in c.flat <==> p in c.pages || Covered(Extents(c.spans), p) {
      CoveredIs(c, p);
      assert PageOk(c, p);
    }
  }

  lemma SlotView(c: Core, p: nat)
    requires Ok(c)
    ensures Ok(SlotStep(c, p)) && View(SlotStep(c, p)) == WithSlots(View(c), {p})
    ensures forall q | q in c.flat :: q in SlotStep(c, p).flat && SlotStep(c, p).flat[q] == c.flat[q]
  {
    SlotOk(c, p);
    assert PageOk(c, p);
    hide Ok, PageOk;
    assert View(SlotStep(c, p)).flat == WithSlots(View(c), {p}).flat;
  }

  lemma EraseView(c: Core, p: nat)
    requires Ok(c)
    ensures Ok(EraseStep(c, p)) && View(EraseStep(c, p)) == Erased(View(c), {p})
  {
    EraseOk(c, p);
    CoveredIs(c, p);
    assert PageOk(c, p);
    hide Ok, PageOk;
    assert View(EraseStep(c, p)).flat == Erased(View(c), {p}).flat;
  }

  lemma DropFlat(c: Core, i: nat, p: nat)
    requires Ok(c) && i < |c.spans| && Ok(DropStep(c, i))
    ensures var d := DropStep(c, i);
            && (p in d.flat <==> p in c.flat && (p in c.pages || Covered(Extents(d.spans), p)))
            && (p in d.flat ==>
                   d.flat[p] ==
                     if Covered(Extents(c.spans), p) && !Covered(Extents(d.spans), p) then ZeroPage() else c.flat[p])
  {
    var d := DropStep(c, i);
    CoveredIs(c, p);
    CoveredIs(d, p);
    SpanOwns(c, i, p);
    assert PageOk(c, p);
  }

  lemma DropView(c: Core, i: nat)
    requires Ok(c) && i < |c.spans|
    ensures Ok(DropStep(c, i)) && View(DropStep(c, i)) == Dropped(View(c), Extents(DropStep(c, i).spans))
  {
    hide Ok, PageOk, SpanPages, Extents, Covered;
    var d := DropStep(c, i);
    DropOk(c, i);
    forall p: nat
      ensures p in d.flat <==> p in c.flat && (p in c.pages || Covered(Extents(d.spans), p))
      ensures p in d.flat ==>
                d.flat[p] ==
                  if Covered(Extents(c.spans), p) && !Covered(Extents(d.spans), p) then ZeroPage() else c.flat[p]
    {
      DropFlat(c, i, p);
    }
    assert View(d).flat == Dropped(View(c), Extents(d.spans)).flat;
  }

  lemma Rounded(addr: nat, size: nat)
    requires size > 0
    ensures RoundDown(addr) % 4096 == 0 && RoundDown(addr) < RoundUp(addr + size)
            && (RoundUp(addr + size) - RoundDown(addr)) % 4096 == 0
  {
  }

  lemma ContiguousIs(s: Space, addr: nat, size: nat)
    requires size > 0 && !Tops(RoundDown(addr), RoundUp(addr + size) - RoundDown(addr))
    ensures var base := RoundDown(addr); var len := RoundUp(addr + size) - base; var u := Unmapped(s, base, len);
            && base % 4096 == 0 && len % 4096 == 0 && len > 0
            && Contiguous(s, addr, size) ==
                 Space(u.flat + Slices(base, Zeroes(len)), u.slots, u.extents + {Extent(base, len)})
  {
    hide Unmapped, Slices, PagesOf, OnPage;
    Rounded(addr, size);
    hide RoundUp, RoundDown;
    ZeroSlices(RoundDown(addr), RoundUp(addr + size) - RoundDown(addr));
  }

  lemma ZeroSlices(base: nat, len: nat)
    requires base % 4096 == 0 && len % 4096 == 0
    ensures Slices(base, Zeroes(len)) == map p | p in PagesOf(base, len) :: ZeroPage()
  {
    hide ZeroPage, OnPage;
    forall p: nat | OnPage(p, base, len)
      ensures p * 4096 >= base && p * 4096 - base + 4096 <= len
              && Zeroes(len)[p * 4096 - base..p * 4096 - base + 4096] == ZeroPage()
    {
      WholePage(p, base, len);
      ZeroSlice(len, p * 4096 - base);
    }
  }

  lemma WholePage(p: nat, base: nat, len: nat)
    requires base % 4096 == 0 && len % 4096 == 0 && OnPage(p, base, len)
    ensures p * 4096 >= base && p * 4096 - base + 4096 <= len
  {
  }

  lemma ZeroSlice(len: nat, at: nat)
    requires at + 4096 <= len
    ensures Zeroes(len)[at..at + 4096] == ZeroPage()
  {
  }

  lemma AddView(c: Core, base: nat, data: seq<byte>)
    requires |data| % 4096 == 0 && base % 4096 == 0 && |data| > 0
    ensures View(AddStep(c, base, data)) ==
            Space(c.flat + Slices(base, data), c.pages.Keys, Extents(c.spans) + {Extent(base, |data|)})
  {
    var s := Span(base, |data|, c.next);
    assert Extents(c.spans + [s]) == Extents(c.spans) + {Extent(base, |data|)};
  }

  /** After a whole-page range is unmapped nothing of it is left. */
  lemma UnmapClears(s: Space, d: Core, base: nat, len: nat, p: nat)
    requires Ok(d) && View(d) == Unmapped(s, base, len) && base % 4096 == 0 && len % 4096 == 0 && OnPage(p, base, len)
    requires !Tops(base, len)
    ensures p !in d.flat && p !in d.owner
  {
    assert PageOk(d, p);
    CoveredIs(d, p);
    assert p !in d.pages.Keys;
  }

  predicate SpanTouches(s: Span, addr: nat, size: nat) { Touches(Extent(s.base, s.size), addr, size) }

  /** Scanning the spans from the back: those from i on have been kept or dropped by the test. */
  ghost predicate Scanned(orig: seq<Span>, now: seq<Span>, i: nat, addr: nat, size: nat)
  {
    && i <= |now| && i <= |orig| && now[..i] == orig[..i]
    && (forall s | s in now[i..] :: s in orig && !SpanTouches(s, addr, size))
    && (forall s | s in orig[i..] :: s in now[i..] || SpanTouches(s, addr, size))
  }

  lemma ScanStep(orig: seq<Span>, now: seq<Span>, i: nat, addr: nat, size: nat)
    requires Scanned(orig, now, i + 1, addr, size)
    ensures !SpanTouches(now[i], addr, size) ==> Scanned(orig, now, i, addr, size)
    ensures SpanTouches(now[i], addr, size) ==> Scanned(orig, now[..i] + now[i + 1..], i, addr, size)
    ensures Extents(now[..i] + now[i + 1..]) <= Extents(now)
  {
    assert now[i] == now[..i + 1][i] == orig[..i + 1][i] == orig[i];
    assert now[..i] == now[..i + 1][..i] && orig[..i] == orig[..i + 1][..i];
    assert now[i..] == [now[i]] + now[i + 1..] && orig[i..] == [orig[i]] + orig[i + 1..];
    assert (now[..i] + now[i + 1..])[i..] == now[i + 1..] && (now[..i] + now[i + 1..])[..i] == now[..i];
  }

  lemma ScanStart(orig: seq<Span>, addr: nat, size: nat)
    ensures Scanned(orig, orig, |orig|, addr, size)
  {
  }

  lemma ViewIs(c: Core)
    ensures View(c).extents == Extents(c.spans) && View(c).flat == c.flat && View(c).slots == c.pages.Keys
  {
  }

  lemma ScanEnd(orig: seq<Span>, now: seq<Span>, addr: nat, size: nat, s: Space)
    requires Scanned(orig, now, 0, addr, size) && s.extents == Extents(orig) && size > 0
    ensures Extents(now) == Kept(s, addr, size)
  {
    assert now[0..] == now && orig[0..] == orig;
  }

  // ---- the empty space, and a copy of another -----------------------------------------------------

  ghost function EmptyCore(next: nat): Core { Core(map[], [], map[], next, {}, map[], map[], map[]) }

  lemma EmptyOk(next: nat)
    ensures Ok(EmptyCore(next)) && View(EmptyCore(next)) == EMPTY
  {
    var c := EmptyCore(next);
    forall p: nat ensures PageOk(c, p) {
    }
    assert View(c).flat == map[];
  }

  /** What is behind a slot, whether or not a span hides it. */
  ghost function SlotBytes(c: Core, p: nat): seq<byte>
    requires p in c.pages
  {
    match c.pages[p]
    case Reserved => ZeroPage()
    case Backed(id) => if id in c.host then c.host[id] else []
  }

  /** Page p after every slot not in `todo`, and the first n spans, of `o` have been copied. */
  ghost predicate CopiedPage(o: Core, todo: set<nat>, n: nat, c: Core, p: nat)
  {
    && (p in c.pages <==> p in o.pages && p !in todo)
    && (p in c.pages && p in o.pages ==> (c.pages[p].Backed? <==> o.pages[p].Backed?))
    && (p in c.spanned <==> exists k | 0 <= k < n && k < |o.spans| :: SpanHas(o.spans[k], p))
    && (p in c.spanned ==> p in c.flat && p in o.flat && c.flat[p] == o.flat[p])
    && (p in c.pages && p in o.pages && p !in c.spanned ==> p in c.flat && c.flat[p] == SlotBytes(o, p))
  }

  ghost predicate Copied(o: Core, todo: set<nat>, n: nat, c: Core)
  {
    && (forall p: nat :: CopiedPage(o, todo, n, c, p))
    && n <= |o.spans| && Extents(c.spans) == Extents(o.spans[..n])
  }

  lemma CopyStart(o: Core, next: nat)
    ensures Copied(o, o.pages.Keys, 0, EmptyCore(next))
  {
    forall p: nat ensures CopiedPage(o, o.pages.Keys, 0, EmptyCore(next), p) {
    }
  }

  /** One slot of the other space, as a step here. */
  ghost function CopyStep(o: Core, c: Core, p: nat): Core
    requires p in o.pages
  {
    if o.pages[p].Reserved? || |SlotBytes(o, p)| != 4096 then SlotStep(c, p) else PageStep(c, p, SlotBytes(o, p))
  }

  lemma CopySlot(o: Core, todo: set<nat>, c: Core, p: nat)
    requires Ok(o) && Ok(c) && Copied(o, todo, 0, c) && p in todo && p in o.pages
    ensures Ok(CopyStep(o, c, p)) && Copied(o, todo - {p}, 0, CopyStep(o, c, p))
    ensures |SlotBytes(o, p)| == 4096
    ensures forall q | q in c.owner :: q in CopyStep(o, c, p).owner && CopyStep(o, c, p).owner[q] == c.owner[q]
  {
    var d := CopyStep(o, c, p);
    assert PageOk(o, p) && PageOk(c, p) && CopiedPage(o, todo, 0, c, p);
    SlotOk(c, p);
    if o.pages[p].Backed? {
      PageStepOk(c, p, SlotBytes(o, p));
    }
    forall q: nat ensures CopiedPage(o, todo - {p}, 0, d, q) {
      assert CopiedPage(o, todo, 0, c, q);
    }
  }

  lemma CopySpanPage(o: Core, n: nat, c: Core, p: nat)
    requires Ok(o) && Ok(c) && n < |o.spans| && CopiedPage(o, {}, n, c, p)
    ensures p in SpanPages(o.spans[n]) ==> p !in c.owner && p in o.flat
    ensures o.spans[n].id in o.host && |o.host[o.spans[n].id]| == o.spans[n].size && Whole(o.spans[n])
    ensures p in SpanPages(o.spans[n]) ==>
              p in Slices(o.spans[n].base, o.host[o.spans[n].id])
                && Slices(o.spans[n].base, o.host[o.spans[n].id])[p] == o.flat[p]
    ensures p in SpanPages(o.spans[n]) <==> SpanHas(o.spans[n], p)
  {
    var s := o.spans[n];
    assert SpanOk(o, s);
    assert PageOk(o, p) && PageOk(c, p);
    SpanPagesAre(s, p);
    if p in SpanPages(s) {
      SliceOf(s.base, o.host[s.id], p);
    }
  }

  lemma CopySpan(o: Core, n: nat, c: Core)
    requires Ok(o) && Ok(c) && Copied(o, {}, n, c) && n < |o.spans|
    ensures var s := o.spans[n];
            && s.id in o.host && |o.host[s.id]| == s.size && Whole(s)
            && (forall p | OnPage(p, s.base, s.size) :: p !in c.owner)
            && Copied(o, {}, n + 1, AddStep(c, s.base, o.host[s.id]))
  {
    var s := o.spans[n];
    assert SpanOk(o, s);
    var d := AddStep(c, s.base, o.host[s.id]);
    AddView(c, s.base, o.host[s.id]);
    forall p: nat ensures CopiedPage(o, {}, n + 1, d, p) && (OnPage(p, s.base, s.size) ==> p !in c.owner) {
      assert CopiedPage(o, {}, n, c, p);
      CopySpanPage(o, n, c, p);
    }
    assert o.spans[..n + 1] == o.spans[..n] + [s];
  }

  lemma CopyEnd(o: Core, c: Core)
    requires Ok(o) && Ok(c) && Copied(o, {}, |o.spans|, c)
    ensures View(c) == View(o)
  {
    forall p: nat
      ensures (p in c.flat <==> p in o.flat) && (p in o.flat ==> c.flat[p] == o.flat[p])
              && (p in c.pages <==> p in o.pages)
    {
      assert PageOk(o, p) && PageOk(c, p) && CopiedPage(o, {}, |o.spans|, c, p);
    }
    assert o.spans[..|o.spans|] == o.spans;
    assert c.pages.Keys == o.pages.Keys;
  }
}
