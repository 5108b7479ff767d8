/** The guest's address space as the emulator keeps it, proved against AddressSpace. */
module GuestMemory {
  import opened Bytes
  import opened AddressSpace
  import opened MemoryCore

  datatype TlbEntry = NoEntry | Entry(page: nat, host: Ptr)

  datatype Region = Region(base: nat, size: nat, name: string, file: string, fileOffset: nat, contiguous: bool)

  /** What the code observer is told. */
  datatype Notice = CodeWrite(page: nat) | CodeUnmap(page: nat) | FlushAll

  datatype Access = Fault(addr: nat) | Host(p: Ptr)

  type Journal = map<nat, PageBytes>

  // ---- what else every operation owes its callers ---------------------------------------------

  /** Every cached translation is current, and sits in the one slot its page can occupy. */
  ghost predicate TlbOk(t: array<TlbEntry>, owner: map<nat, Ptr>)
    reads t
  {
    && t.Length == 1024
    && forall k | 0 <= k < 1024 && t[k].Entry? ::
         t[k].page % 1024 == k && t[k].page in owner && owner[t[k].page] == t[k].host
  }

  ghost predicate NoEntries(t: array<TlbEntry>)
    reads t
  {
    forall k | 0 <= k < t.Length :: t[k] == NoEntry
  }

  predicate Told(news: seq<Notice>, p: nat) { FlushAll in news || CodeWrite(p) in news || CodeUnmap(p) in news }

  /** A watched page keeps its bytes and stays watched, unless the observer was told. */
  ghost predicate Reported(w0: set<nat>, f0: Flat, w1: set<nat>, f1: Flat, news: seq<Notice>)
  {
    forall p | p in w0 && p in f0 :: Told(news, p) || (p in w1 && p in f1 && f1[p] == f0[p])
  }

  /** The page as it was when the journal was opened. */
  function Opening(f: Flat, j: Journal, p: nat): PageBytes
    requires p in f
  {
    if p in j then j[p] else f[p]
  }

  ghost predicate SameOpening(f0: Flat, j0: Journal, f1: Flat, j1: Journal)
  {
    forall p | p in f0 :: p in f1 && Opening(f1, j1, p) == Opening(f0, j0, p)
  }

  /** What the observer and the journal can tell two moments apart by. */
  datatype Moment = Moment(watching: bool, watched: set<nat>, notices: seq<Notice>, journalOn: bool, journal: Journal,
                           flat: Flat)

  /** Between the two, every watched page that changed was reported. */
  ghost predicate Seen(a: Moment, b: Moment)
  {
    && a.notices <= b.notices
    && (a.watching ==> b.watching && Reported(a.watched, a.flat, b.watched, b.flat, b.notices[|a.notices|..]))
  }

  /** Between the two, the journal kept every page's opening contents. */
  ghost predicate Journaled(a: Moment, b: Moment)
  {
    && (a.journalOn ==> b.journalOn && SameOpening(a.flat, a.journal, b.flat, b.journal))
    && (a.journal.Keys <= a.flat.Keys ==> b.journal.Keys <= b.flat.Keys)
  }

  lemma Later(a: Moment, b: Moment, c: Moment)
    ensures Seen(a, a) && Journaled(a, a)
    ensures Seen(a, b) && Seen(b, c) ==> Seen(a, c)
    ensures Journaled(a, b) && Journaled(b, c) ==> Journaled(a, c)
  {
    if Seen(a, b) && Seen(b, c) {
      assert c.notices[|a.notices|..] == b.notices[|a.notices|..] + c.notices[|b.notices|..];
    }
  }

  lemma SameJournal(a: Moment, b: Moment)
    requires b.journal == a.journal && b.journalOn == a.journalOn && b.flat == a.flat
    ensures Journaled(a, b)
  {
  }

  /** Watching one more page. */
  lemma Watched(a: Moment, b: Moment)
    requires a.watched <= b.watched && b.notices == a.notices && b.flat == a.flat && (a.watching ==> b.watching)
    ensures Seen(a, b)
  {
  }

  /** Pages that appear change nothing anyone was watching. */
  lemma Grown(a: Moment, b: Moment)
    requires b == a.(flat := b.flat)
    requires forall p | p in a.flat :: p in b.flat && b.flat[p] == a.flat[p]
    ensures Seen(a, b) && Journaled(a, b)
  {
    assert b.notices[|a.notices|..] == [];
  }

  lemma Added(a: Moment, b: Moment, base: nat, data: seq<byte>)
    requires |data| % 4096 == 0 && base % 4096 == 0
    requires b == a.(flat := a.flat + Slices(base, data)) && forall p | OnPage(p, base, |data|) :: p !in a.flat
    ensures Seen(a, b)
  {
    Grown(a, b);
  }

  /** A page that goes is reported if it was watched. */
  lemma Lost(a: Moment, b: Moment, p: nat)
    requires a.notices <= b.notices
    requires a.watching ==> b.watching && b.watched == a.watched - {p}
    requires a.watching ==> b.notices == a.notices + if p in a.watched then [CodeUnmap(p)] else []
    requires forall q | q in a.flat && q != p :: q in b.flat && b.flat[q] == a.flat[q]
    ensures Seen(a, b)
  {
    if a.watching && p in a.watched {
      assert b.notices[|a.notices|..] == [CodeUnmap(p)];
      assert Told(b.notices[|a.notices|..], p);
    }
  }

  /** After a flush the observer has been told about everything. */
  lemma Flushed(a: Moment, b: Moment)
    requires a.notices <= b.notices
    requires a.watching ==> b.watching && FlushAll in b.notices[|a.notices|..]
    ensures Seen(a, b)
  {
  }

  lemma Unwatched(a: Moment, b: Moment)
    requires a.watched == {} && a.notices <= b.notices && (a.watching ==> b.watching)
    ensures Seen(a, b)
  {
  }

  ghost predicate IsRange(ps: set<nat>, from: nat, to: nat) { forall p :: p in ps <==> from <= p < to }

  lemma NoPages(s: Space, from: nat)
    ensures WithSlots(s, {}) == s && IsRange({}, from, from)
  {
  }

  lemma NextPage(ps: set<nat>, from: nat, to: nat)
    requires IsRange(ps, from, to) && from <= to
    ensures IsRange(ps + {to}, from, to + 1)
  {
  }

  /** The page of the last byte of a range, which can lie below that of the first. */
  function LastPage(addr: nat, size: nat): nat
    requires size > 0
  {
    if End(addr, size) == 0 then (addr + size - 1) / 4096 else (End(addr, size) - 1) / 4096
  }

  lemma AllPages(ps: set<nat>, addr: nat, size: nat, p: nat)
    requires size > 0 && IsRange(ps, addr / 4096, p) && p > LastPage(addr, size)
    requires p == addr / 4096 || p == LastPage(addr, size) + 1
    ensures ps == PagesOf(addr, Walked(addr, size))
  {
  }

  datatype ReadResult = ReadFault(addr: nat) | ReadOk(bytes: seq<byte>)

  datatype ValueResult = ValueFault(addr: nat) | Value(v: nat)

  datatype WriteResult = WriteFault(addr: nat) | WriteOk

  class Memory {
    var pages: map<nat, Slot>
    var spans: seq<Span>
    const tlb: array<TlbEntry>
    const tlbw: array<TlbEntry>
    var observer: bool
    var journalOn: bool
    var journal: Journal
    var codePages: set<nat>
    var regions: seq<Region>
    /** The host's own memory, and the next block it will hand out. */
    var host: map<nat, seq<byte>>
    var next: nat
    /** Everything the observer has been told. */
    var notices: seq<Notice>

    ghost var spanned: set<nat>
    ghost var owner: map<nat, Ptr>
    ghost var start: map<nat, nat>
    ghost var flat: Flat

    ghost function C(): Core
      reads this
    {
      Core(pages, spans, host, next, spanned, owner, start, flat)
    }

    ghost predicate Valid()
      reads this, tlb, tlbw
    {
      && tlb != tlbw
      && Ok(C())
      && TlbOk(tlb, owner)
      && TlbOk(tlbw, owner)
      && (journalOn ==> NoEntries(tlbw))
    }

    /** With an observer registered, no watched page can be written by the fast path. */
    ghost predicate Watching()
      reads this, tlbw
    {
      && observer
      && (forall k | 0 <= k < tlbw.Length && tlbw[k].Entry? :: tlbw[k].page !in codePages)
      && codePages !! spanned
    }

    ghost function Now(): Moment
      reads this, tlbw
    {
      Moment(Watching(), codePages, notices, journalOn, journal, flat)
    }

    /** What this memory means. */
    ghost function Abs(): Space
      reads this
    {
      View(C())
    }

    constructor ()
      ensures fresh(tlb) && fresh(tlbw)
      ensures !observer && !journalOn && codePages == {} && notices == [] && regions == []
      ensures Abs() == EMPTY
      ensures Valid()
    {
      pages, spans, regions, host, next := map[], [], [], map[], 0;
      observer, journalOn, journal, codePages, notices := false, false, map[], {}, [];
      owner, flat, spanned, start := map[], map[], {}, map[];
      tlb := new TlbEntry[1024](_ => NoEntry);
      tlbw := new TlbEntry[1024](_ => NoEntry);
    }

    // ---- span_for ----------------------------------------------------------------------------

    method SpanFor(addr: nat) returns (found: bool, i: nat)
      requires Valid()
      ensures found <==> addr / 4096 in spanned
      ensures found ==> i < |spans| && SpanHas(spans[i], addr / 4096)
    {
      assert PageOk(C(), addr / 4096);
      i := 0;
      while i < |spans|
        invariant i <= |spans|
        invariant forall k | 0 <= k < i :: !SpanHas(spans[k], addr / 4096)
      {
        assert SpanOk(C(), spans[i]);
        if spans[i].base <= addr < spans[i].base + spans[i].size {
          return true, i;
        }
        i := i + 1;
      }
      found := false;
    }

    // ---- the translation caches --------------------------------------------------------------

    method FlushWriteTlb()
      modifies tlbw
      ensures NoEntries(tlbw)
    {
      for k := 0 to tlbw.Length
        invariant forall j | 0 <= j < k :: tlbw[j] == NoEntry
      {
        tlbw[k] := NoEntry;
      }
    }

    method TlbFlush()
      requires tlb != tlbw && tlb.Length == 1024 && tlbw.Length == 1024 && Ok(C())
      modifies tlb, tlbw, `codePages, `notices
      ensures Valid() && NoEntries(tlb) && NoEntries(tlbw) && codePages == {}
      ensures notices == old(notices) + if observer then [FlushAll] else []
    {
      hide Ok;
      for k := 0 to tlb.Length
        modifies tlb
        invariant forall j | 0 <= j < k :: tlb[j] == NoEntry
      {
        tlb[k] := NoEntry;
      }
      FlushWriteTlb();
      notices := notices + if observer then [FlushAll] else [];
      codePages := {};
    }

    method CacheRead(page: nat, base: Ptr)
      requires Valid() && page in owner && owner[page] == base
      modifies tlb
      ensures Valid()
    {
      hide Ok;
      tlb[page % 1024] := Entry(page, base);
    }

    method CacheWrite(page: nat, base: Ptr)
      requires Valid() && page in owner && owner[page] == base && !journalOn
      modifies tlbw
      ensures Valid()
      ensures forall k | 0 <= k < tlbw.Length :: tlbw[k] == if k == page % 1024 then Entry(page, base) else old(tlbw[k])
    {
      hide Ok;
      tlbw[page % 1024] := Entry(page, base);
    }

    /** The first touch of a reserved page gives it a zeroed block. */
    method BackPage(page: nat)
      requires Valid() && page in pages && pages[page].Reserved? && page !in spanned
      modifies `pages, `host, `next, `owner, `start
      ensures Valid() && pages == old(pages)[page := Backed(old(next))]
    {
      hide Ok, View;
      assert page !in owner && page in flat && flat[page] == ZeroPage() by { OkPage(page); }
      PageStepOk(C(), page, ZeroPage());
      ghost var d := PageStep(C(), page, ZeroPage());
      assert flat[page := ZeroPage()] == flat;
      host := host[next := ZeroPage()];
      pages := pages[page := Backed(next)];
      owner, start := owner[page := Ptr(next, 0)], start[next := page];
      next := next + 1;
      assert C() == d;
    }

    // ---- resolving an address ----------------------------------------------------------------

    method HostPtr(addr: nat, forWrite: bool) returns (r: Access)
      requires Valid()
      modifies `pages, `host, `next, `owner, `start, `journal, `codePages, `notices, tlb, tlbw
      ensures Valid() && pages.Keys == old(pages.Keys)
      ensures addr / 4096 !in flat ==> r == Fault(addr)
      ensures addr / 4096 in flat ==>
                addr / 4096 in owner && r == Host(Ptr(owner[addr / 4096].id, owner[addr / 4096].off + addr % 4096))
      ensures Seen(old(Now()), Now())
      ensures forWrite && r.Host? && old(Watching()) ==> addr / 4096 !in codePages
      ensures journal == if forWrite && journalOn && r.Host? && addr / 4096 !in old(journal)
                         then old(journal)[addr / 4096 := flat[addr / 4096]] else old(journal)
    {
      hide Ok;
      var page := addr / 4096;
      var e := if forWrite then tlbw[page % 1024] else tlb[page % 1024];
      if e.Entry? && e.page == page {
        assert page in flat by { assert PageOk(C(), page) by { OkPage(page); } }
        return Host(Ptr(e.host.id, e.host.off + addr % 4096));
      }
      r := HostPtrSlow(addr, forWrite);
    }

    lemma OkPage(p: nat)
      requires Valid()
      ensures PageOk(C(), p)
    {
    }

    method HostPtrSlow(addr: nat, forWrite: bool) returns (r: Access)
      requires Valid()
      modifies `pages, `host, `next, `owner, `start, `journal, `codePages, `notices, tlb, tlbw
      ensures Valid() && pages.Keys == old(pages.Keys)
      ensures addr / 4096 !in flat ==> r == Fault(addr)
      ensures addr / 4096 in flat ==>
                addr / 4096 in owner && r == Host(Ptr(owner[addr / 4096].id, owner[addr / 4096].off + addr % 4096))
      ensures Seen(old(Now()), Now())
      ensures forWrite && r.Host? && old(Watching()) ==> addr / 4096 !in codePages
      ensures journal == if forWrite && journalOn && r.Host? && addr / 4096 !in old(journal)
                         then old(journal)[addr / 4096 := flat[addr / 4096]] else old(journal)
    {
      hide Ok, PageOk, TlbOk, Abs, Reported;
      ghost var m0 := Now();
      var page := addr / 4096;
      var base: Ptr;
      var ok, isSpan: bool;
      ok, isSpan, base := Locate(addr);
      Watched(m0, Now());
      if !ok {
        return Fault(addr);
      }
      if forWrite && !isSpan {
        Announce(page);
      }
      if forWrite && journalOn {
        JournalPage(page, base);
        return Host(Ptr(base.id, base.off + addr % 4096));
      }
      if forWrite {
        CacheWrite(page, base);
      } else {
        CacheRead(page, base);
      }
      r := Host(Ptr(base.id, base.off + addr % 4096));
    }

    /** The first write to a watched page: the observer is told, and the page is watched no longer. */
    method Announce(page: nat)
      requires Valid()
      modifies `codePages, `notices
      ensures Valid() && codePages == (if observer then old(codePages) - {page} else old(codePages))
      ensures Seen(old(Now()), Now()) && (old(Watching()) ==> Watching())
    {
      hide Ok, PageOk, TlbOk, Abs;
      ghost var m0 := Now();
      if observer && page in codePages {
        codePages := codePages - {page};
        notices := notices + [CodeWrite(page)];
        assert notices[|m0.notices|..] == [CodeWrite(page)];
        assert Told([CodeWrite(page)], page);
      } else {
        Watched(m0, Now());
      }
    }

    /** The first write to a page while the journal is open copies it first. */
    method JournalPage(page: nat, base: Ptr)
      requires Valid() && page in owner && owner[page] == base
      modifies `journal
      ensures Valid() && page in flat
      ensures journal == if page in old(journal) then old(journal) else old(journal)[page := flat[page]]
    {
      hide Ok;
      OkPage(page);
      if page !in journal {
        journal := journal[page := host[base.id][base.off..base.off + 4096]];
      }
    }

    /** Where a page's bytes are: a span answers before the page table, and a reserved page is
        backed on the way. */
    method Locate(addr: nat) returns (ok: bool, isSpan: bool, base: Ptr)
      requires Valid()
      modifies `pages, `host, `next, `owner, `start
      ensures Valid() && pages.Keys == old(pages.Keys)
      ensures ok <==> addr / 4096 in flat
      ensures isSpan <==> addr / 4096 in spanned
      ensures ok ==> addr / 4096 in owner && owner[addr / 4096] == base
    {
      hide Ok;
      var page := addr / 4096;
      OkPage(page);
      var i: nat;
      isSpan, i := SpanFor(addr);
      if isSpan {
        base := SpanBase(page, i);
        return true, true, base;
      }
      if page !in pages {
        return false, false, Ptr(0, 0);
      }
      if pages[page].Reserved? {
        BackPage(page);
      }
      OkPage(page);
      return true, false, Ptr(pages[page].id, 0);
    }

    method SpanBase(page: nat, i: nat) returns (base: Ptr)
      requires Valid() && i < |spans| && SpanHas(spans[i], page)
      ensures page in owner && base == owner[page]
    {
      assert PageOk(C(), page) && SpanOk(C(), spans[i]);
      base := Ptr(spans[i].id, page * 4096 - spans[i].base);
    }

    // ---- reading and writing -------------------------------------------------------------------

    /** memcpy from a resolved address. */
    method Load(addr: nat, n: nat) returns (ok: bool, b: seq<byte>)
      requires Valid() && 0 < n <= 4096 - addr % 4096
      modifies `pages, `host, `next, `owner, `start, `journal, `codePages, `notices, tlb, tlbw
      ensures Valid() && pages.Keys == old(pages.Keys) && journal == old(journal)
      ensures Seen(old(Now()), Now())
      ensures ok <==> addr / 4096 in flat
      ensures ok ==> b == flat[addr / 4096][addr % 4096..addr % 4096 + n]
    {
      hide Ok;
      var r := HostPtr(addr, false);
      if r.Fault? {
        return false, [];
      }
      OkPage(addr / 4096);
      ghost var o := owner[addr / 4096];
      SliceOfSlice(host[o.id], o.off, 4096, addr % 4096, n);
      return true, host[r.p.id][r.p.off..r.p.off + n];
    }

    /** memcpy to a resolved address. */
    method Poke(ptr: Ptr, page: nat, off: nat, b: seq<byte>)
      requires Valid() && page in owner && ptr == Ptr(owner[page].id, owner[page].off + off) && off + |b| <= 4096
      modifies `host, `flat
      ensures Valid() && page in old(flat)
      ensures flat == old(flat)[page := Splice(old(flat)[page], off, b)]
    {
      hide Ok, Splice;
      PokeOk(C(), page, off, b);
      ghost var d := PokeStep(C(), page, off, b);
      host := host[ptr.id := host[ptr.id][..ptr.off] + b + host[ptr.id][ptr.off + |b|..]];
      flat := flat[page := Splice(flat[page], off, b)];
      assert C() == d by { Spliced(old(host)[ptr.id], ptr.off, b); }
    }

    lemma Spliced(s: seq<byte>, at: nat, b: seq<byte>)
      requires at + |b| <= |s|
      ensures Splice(s, at, b) == s[..at] + b + s[at + |b|..]
    {
    }

    method Store(addr: nat, b: seq<byte>) returns (ok: bool)
      requires Valid() && 0 < |b| <= 4096 - addr % 4096
      modifies `pages, `host, `next, `owner, `start, `flat, `journal, `codePages, `notices, tlb, tlbw
      ensures Valid() && pages.Keys == old(pages.Keys)
      ensures ok <==> addr / 4096 in old(flat)
      ensures flat == if ok then StoredBut(old(flat), addr, b, {}) else old(flat)
      ensures Seen(old(Now()), Now()) && Journaled(old(Now()), Now())
    {
      hide Ok, StoredBut;
      var r := HostPtr(addr, true);
      if r.Fault? {
        return false;
      }
      StoredOnePage(flat, addr, b);
      Poke(r.p, addr / 4096, addr % 4096, b);
      ok := true;
    }

    method Read(addr: nat, len: nat) returns (r: ReadResult)
      requires Valid()
      modifies `pages, `host, `next, `owner, `start, `journal, `codePages, `notices, tlb, tlbw
      ensures Valid() && pages.Keys == old(pages.Keys) && journal == old(journal)
      ensures Seen(old(Now()), Now()) && Journaled(old(Now()), Now()) && Abs() == old(Abs())
      ensures r ==
                if AllMapped(flat, addr, len) then ReadOk(Loaded(flat, addr, len))
                else ReadFault(addr + Reach(flat, addr, len))
    {
      hide Ok, AllMapped, Reach, Loaded, PagesOf, Seen, Valid, Watching;
      NothingLoaded(flat, addr, len);
      Later(Now(), Now(), Now());
      var out: seq<byte> := [];
      while |out| < len
        invariant |out| <= len && AllMapped(flat, addr, |out|) && out == Loaded(flat, addr, |out|)
        invariant AllMapped(flat, addr, len) <==> AllMapped(flat, addr + |out|, len - |out|)
        invariant Reach(flat, addr, len) == |out| + Reach(flat, addr + |out|, len - |out|)
        invariant Valid() && pages.Keys == old(pages.Keys) && journal == old(journal)
        invariant Seen(old(Now()), Now())
      {
        var at := addr + |out|;
        var n := 4096 - at % 4096;
        if n > len - |out| {
          n := len - |out|;
        }
        ghost var mid := Now();
        var ok, b := Load(at, n);
        Later(old(Now()), mid, Now());
        NextChunk(flat, at, n, len - |out|);
        if !ok {
          return ReadFault(at);
        }
        ChunkLoaded(flat, addr, out, b, len);
        out := out + b;
      }
      r := ReadOk(out);
    }

    lemma NothingLoaded(f: Flat, addr: nat, len: nat)
      ensures AllMapped(f, addr, 0) && Loaded(f, addr, 0) == []
      ensures forall a :: AllMapped(f, a, 0)
    {
    }

    lemma NextChunk(f: Flat, addr: nat, n: nat, len: nat)
      requires Chunk(addr, n, len)
      ensures AllMapped(f, addr, len) <==> addr / 4096 in f && AllMapped(f, addr + n, len - n)
      ensures addr / 4096 !in f ==> Reach(f, addr, len) == 0
      ensures addr / 4096 in f ==> Reach(f, addr, len) == n + Reach(f, addr + n, len - n)
    {
      ReachStops(f, addr, n, len);
      ChunkPages(addr, n, len);
      hide Reach;
    }

    lemma ChunkLoaded(f: Flat, addr: nat, a: seq<byte>, b: seq<byte>, len: nat)
      requires AllMapped(f, addr, |a|) && a == Loaded(f, addr, |a|)
      requires |a| < len && Chunk(addr + |a|, |b|, len - |a|) && (addr + |a|) / 4096 in f
      requires b == f[(addr + |a|) / 4096][(addr + |a|) % 4096..(addr + |a|) % 4096 + |b|]
      ensures AllMapped(f, addr, |a + b|) && a + b == Loaded(f, addr, |a + b|)
    {
      forall p | p in PagesOf(addr, |a + b|) ensures p in f {
        if p !in PagesOf(addr, |a|) {
          assert p == (addr + |a|) / 4096;
        }
      }
      var all := Loaded(f, addr, |a + b|);
      forall i | 0 <= i < |a + b| ensures (a + b)[i] == all[i] {
        assert all[i] == At(f, addr + i);
        assert i < |a| ==> a[i] == Loaded(f, addr, |a|)[i] == At(f, addr + i);
        assert i >= |a| ==>
                 (a + b)[i] == b[i - |a|] && (addr + i) / 4096 == (addr + |a|) / 4096
                   && (addr + i) % 4096 == (addr + |a|) % 4096 + (i - |a|);
      }
    }

    lemma ShadowIs(p: nat)
      requires Valid()
      ensures p in Shadowed(pages.Keys, Extents(spans)) <==> p in pages && p in spanned
    {
      CoveredIs(C(), p);
    }

    /** Passing over a whole page of zeros is storing it, except into a shadowed page. */
    lemma SkipIs(addr: nat, b: seq<byte>)
      requires Valid() && addr % 4096 == 0 && |b| == 4096 && AllZero(b)
      requires addr / 4096 in pages && pages[addr / 4096].Reserved?
      ensures addr / 4096 in flat
      ensures flat ==
                StoredBut(flat, addr, b, if addr / 4096 in Shadowed(pages.Keys, Extents(spans)) then {addr / 4096}
                          else {})
    {
      ShadowIs(addr / 4096);
      assert PageOk(C(), addr / 4096);
      StoredSkip(flat, addr, b);
    }

    lemma BackedIsBare(p: nat)
      requires Valid() && p in pages && pages[p].Backed?
      ensures p !in Shadowed(pages.Keys, Extents(spans))
    {
      ShadowIs(p);
      assert PageOk(C(), p);
    }

    method Unbacked(addr: nat) returns (u: bool)
      ensures u <==> addr / 4096 in pages && pages[addr / 4096].Reserved?
    {
      u := addr / 4096 in pages && pages[addr / 4096].Reserved?;
    }

    /** write() of one chunk: the whole-zero-page test, then the copy. */
    method WriteChunk(addr: nat, b: seq<byte>) returns (ok: bool)
      requires Valid() && 0 < |b| <= 4096 - addr % 4096
      modifies `pages, `host, `next, `owner, `start, `flat, `journal, `codePages, `notices, tlb, tlbw
      ensures Valid() && pages.Keys == old(pages.Keys)
      ensures ok <==> addr / 4096 in old(flat)
      ensures flat ==
                if ok then StoredBut(old(flat), addr, b, SkipOf(Shadowed(old(pages.Keys), Extents(spans)), addr, b))
                      else old(flat)
      ensures Seen(old(Now()), Now()) && Journaled(old(Now()), Now())
    {
      hide Ok, StoredBut, Shadowed;
      var u := Unbacked(addr);
      var allZero := |b| == 4096 && u;
      var i := 0;
      while allZero && i < |b|
        invariant allZero ==> i <= |b| && u && |b| == 4096 && forall k | 0 <= k < i :: b[k] == 0
        invariant !allZero ==> !(|b| == 4096 && u && AllZero(b))
        decreases |b| - i, if allZero then 1 else 0
      {
        if b[i] != 0 {
          allZero := false;
        }
        i := i + 1;
      }
      if allZero {
        SkipIs(addr, b);
        return true;
      }
      if addr / 4096 in pages && !u {
        BackedIsBare(addr / 4096);
      } else {
        ShadowIs(addr / 4096);
      }
      ok := Store(addr, b);
    }

    method Write(addr: nat, src: seq<byte>) returns (r: WriteResult)
      requires Valid()
      modifies `pages, `host, `next, `owner, `start, `flat, `journal, `codePages, `notices, tlb, tlbw
      ensures Valid() && pages.Keys == old(pages.Keys)
      ensures var n := Reach(old(flat), addr, |src|);
              Abs() == Written(old(Abs()), addr, src[..n]) && r == if n == |src| then WriteOk else WriteFault(addr + n)
      ensures Seen(old(Now()), Now()) && Journaled(old(Now()), Now())
    {
      hide Ok, TlbOk, NoEntries, Shadowed, Seen, Journaled, AllZero, Valid, Watching, Progress, Reached, AtPage, SkipOf,
           StoredBut, Skipped, Reach, AllMapped, PagesOf, OnPage, Extents;
      ghost var m0, f0, shadow := Now(), flat, Shadowed(pages.Keys, Extents(spans));
      ProgressStart(f0, shadow, addr, |src|);
      Later(m0, m0, m0);
      var k := 0;
      ghost var done: seq<byte> := [];
      while k < |src|
        invariant k <= |src| && done == src[..k]
        invariant Valid() && pages.Keys == old(pages.Keys) && Progress(f0, shadow, addr, done, flat)
                  && Reached(f0, addr, k, |src|)
        invariant Seen(m0, Now()) && Journaled(m0, Now())
      {
        var at := addr + k;
        var n := 4096 - at % 4096;
        if n > |src| - k {
          n := |src| - k;
        }
        ghost var mid := Now();
        var b := src[k..k + n];
        assert k > 0 ==> AtPage(addr + k) by { WriteStops(f0, shadow, addr, done, k, |src|, flat); }
        ProgressStep(f0, shadow, addr, done, b, |src| - k, flat);
        ReachedStep(f0, addr, k, n, |src|);
        WriteStops(f0, shadow, addr, done, k, |src|, flat);
        var ok := WriteChunk(at, b);
        Later(m0, mid, Now());
        if !ok {
          return WriteFault(at);
        }
        assert src[..k] + b == src[..k + n];
        done := done + b;
        k := k + n;
      }
      WriteStops(f0, shadow, addr, done, k, |src|, flat);
      assert src[..k] == src;
      r := WriteOk;
    }

    lemma WriteStops(f0: Flat, shadow: set<nat>, addr: nat, a: seq<byte>, k: nat, len: nat, f: Flat)
      requires Progress(f0, shadow, addr, a, f) && Reached(f0, addr, k, len)
      ensures f == StoredBut(f0, addr, a, Skipped(shadow, addr, a)) && f.Keys == f0.Keys
      ensures k == 0 || k == len || AtPage(addr + k)
      ensures k == len ==> Reach(f0, addr, len) == len
    {
    }

    // ---- mapping and unmapping -----------------------------------------------------------------

    method Map(addr: nat, size: nat, name: string)
      requires Valid()
      modifies `pages, `flat, `regions
      ensures Valid() && Abs() == Mapped(old(Abs()), addr, size)
      ensures Seen(old(Now()), Now()) && Journaled(old(Now()), Now())
      ensures regions == old(regions) + if size > 0 && name != "" then [Region(addr, size, name, "", 0, false)] else []
    {
      hide Ok, Seen, Journaled, TlbOk, NoEntries, View;
      if size == 0 {
        assert Mapped(Abs(), addr, size) == Abs();
        Later(Now(), Now(), Now());
        return;
      }
      AddSlots(addr, size);
      regions := regions + if name != "" then [Region(addr, size, name, "", 0, false)] else [];
    }

    method AddSlots(addr: nat, size: nat)
      requires Valid() && size > 0
      modifies `pages, `flat
      ensures Valid() && Abs() == Mapped(old(Abs()), addr, size)
      ensures Seen(old(Now()), Now()) && Journaled(old(Now()), Now())
    {
      hide Ok, IsRange, Seen, Journaled, WithSlots, TlbOk, NoEntries, Valid, Watching, Abs, Now;
      ghost var s0, m0 := Abs(), Now();
      ghost var done: set<nat> := {};
      var first, last := addr / 4096, LastPage(addr, size);
      var p := first;
      NoPages(s0, first);
      Later(Now(), Now(), Now());
      while p <= last
        invariant first <= p && (p == first || p <= last + 1) && IsRange(done, first, p)
        invariant Valid() && Abs() == WithSlots(s0, done)
        invariant Seen(m0, Now()) && Journaled(m0, Now())
      {
        ghost var mid := Now();
        AddSlot(p);
        Later(m0, mid, Now());
        WithSlotsTwice(s0, done, {p});
        NextPage(done, first, p);
        done := done + {p};
        p := p + 1;
      }
      AllPages(done, addr, size, p);
    }

    /** pages_[p] */
    method AddSlot(p: nat)
      requires Valid()
      modifies `pages, `flat
      ensures Valid() && Abs() == WithSlots(old(Abs()), {p})
      ensures Seen(old(Now()), Now()) && Journaled(old(Now()), Now())
    {
      hide Ok, View, WithSlots, TlbOk, NoEntries, Seen, Journaled, ZeroPage;
      ghost var d := SlotStep(C(), p);
      SlotView(C(), p);
      ghost var before := Now();
      if p !in pages {
        pages := pages[p := Reserved];
        flat := d.flat;
        assert C() == d;
      }
      Grown(before, Now());
    }

    /** Takes one contiguous mapping away, whole. */
    method DropSpan(i: nat)
      requires Valid() && i < |spans| && NoEntries(tlb) && NoEntries(tlbw)
      modifies `spans, `host, `owner, `flat, `spanned
      ensures Valid() && Abs() == Dropped(old(Abs()), Extents(spans))
      ensures spans == old(spans)[..i] + old(spans)[i + 1..]
      ensures spanned <= old(spanned)
    {
      hide Ok, View, Dropped;
      ghost var d := DropStep(C(), i);
      DropView(C(), i);
      host := host - {spans[i].id};
      spanned, owner, flat := d.spanned, d.owner, d.flat;
      spans := spans[..i] + spans[i + 1..];
      assert C() == d;
    }

    /** Clears the only cache slots page p could occupy. */
    method Forget(p: nat)
      requires Valid()
      modifies tlb, tlbw
      ensures Valid()
      ensures forall k | 0 <= k < 1024 :: tlb[k].Entry? ==> tlb[k].page != p
      ensures forall k | 0 <= k < 1024 :: tlbw[k] == old(tlbw[k]) || tlbw[k] == NoEntry
      ensures forall k | 0 <= k < 1024 :: tlbw[k].Entry? ==> tlbw[k].page != p
    {
      hide Ok;
      if tlb[p % 1024].Entry? && tlb[p % 1024].page == p {
        tlb[p % 1024] := NoEntry;
      }
      if tlbw[p % 1024].Entry? && tlbw[p % 1024].page == p {
        tlbw[p % 1024] := NoEntry;
      }
    }

    /** pages_.erase(p) */
    method RemovePage(p: nat)
      requires Valid()
      requires forall k | 0 <= k < 1024 ::
                 (tlb[k].Entry? ==> tlb[k].page != p) && (tlbw[k].Entry? ==> tlbw[k].page != p)
      modifies `pages, `host, `owner, `flat
      ensures Valid() && Abs() == Erased(old(Abs()), {p})
      ensures forall q | q in old(flat) && q != p :: q in flat && flat[q] == old(flat)[q]
    {
      hide Ok, View, Erased;
      ghost var d := EraseStep(C(), p);
      EraseView(C(), p);
      OkPage(p);
      if p in pages {
        if pages[p].Backed? {
          host := host - {pages[p].id};
        }
        pages := pages - {p};
      }
      owner, flat := d.owner, d.flat;
      assert C() == d;
    }

    /** Takes one slot away, with its block and any cached translation of it. */
    method EraseSlot(p: nat)
      requires Valid()
      modifies `pages, `host, `owner, `flat, `codePages, `notices, tlb, tlbw
      ensures Valid() && Abs() == Erased(old(Abs()), {p})
      ensures Seen(old(Now()), Now())
      ensures codePages == old(codePages) - if observer then {p} else {}
    {
      hide Ok, View, Erased, Seen;
      ghost var before := Now();
      Forget(p);
      RemovePage(p);
      if observer && p in codePages {
        codePages := codePages - {p};
        notices := notices + [CodeUnmap(p)];
      }
      Lost(before, Now(), p);
    }

    method Unmap(addr: nat, size: nat)
      requires Valid()
      modifies `pages, `spans, `host, `owner, `flat, `spanned, `codePages, `notices, tlb, tlbw
      ensures Valid() && Abs() == Unmapped(old(Abs()), addr, size)
      ensures Seen(old(Now()), Now())
      ensures observer ==> codePages !! PagesOf(addr, Walked(addr, size))
    {
      hide Ok, View, Seen, TlbOk, NoEntries, Unmapped, Erased, Dropped, PagesOf;
      ViewConsistent(C());
      ghost var m0, s0 := Now(), Abs();
      Later(m0, m0, m0);
      UnmappedNothing(s0, addr);
      if size == 0 {
        return;
      }
      DropTouched(addr, size);
      ghost var m1 := Now();
      EraseSlots(addr, size);
      Later(m0, m1, Now());
      UnmappedIs(s0, addr, size);
    }

    /** The spans a range touches, last first. */
    method DropTouched(addr: nat, size: nat)
      requires Valid() && size > 0
      modifies `spans, `host, `owner, `flat, `spanned, `codePages, `notices, tlb, tlbw
      ensures Valid() && Abs() == Dropped(old(Abs()), Kept(old(Abs()), addr, size))
      ensures Seen(old(Now()), Now())
    {
      hide Ok, Seen, TlbOk, NoEntries, Dropped, Kept, Valid, Watching, SpanTouches, Scanned, Extents, View;
      ghost var m0, s0, orig := Now(), Abs(), spans;
      Later(m0, m0, m0);
      ConsistentDropped();
      ViewIs(C());
      ScanStart(orig, addr, size);
      var i := |spans|;
      while i > 0
        invariant 0 <= i <= |spans| && Scanned(orig, spans, i, addr, size)
        invariant Extents(spans) <= s0.extents
        invariant Valid() && Abs() == Dropped(s0, Extents(spans)) && Seen(m0, Now())
      {
        i := i - 1;
        ScanStep(orig, spans, i, addr, size);
        if SpanTouches(spans[i], addr, size) {
          ghost var m1, before := Now(), spans;
          FlushAndDrop(i);
          Later(m0, m1, Now());
          DroppedTwice(s0, Extents(before), Extents(spans));
        }
      }
      ScanEnd(orig, spans, addr, size, s0);
    }

    lemma ConsistentDropped()
      requires Valid()
      ensures Abs() == Dropped(Abs(), Extents(spans))
    {
      ViewConsistent(C());
      ErasedNone(Abs());
    }

    method FlushAndDrop(i: nat)
      requires Valid() && i < |spans|
      modifies `spans, `host, `owner, `flat, `spanned, `codePages, `notices, tlb, tlbw
      ensures Valid() && Abs() == Dropped(old(Abs()), Extents(spans))
      ensures spans == old(spans)[..i] + old(spans)[i + 1..]
      ensures Seen(old(Now()), Now())
    {
      hide Ok, View, Dropped, Seen, Extents;
      ghost var m0 := Now();
      TlbFlush();
      DropSpan(i);
      assert observer ==> notices[|m0.notices|..] == [FlushAll];
      Flushed(m0, Now());
    }

    method EraseSlots(addr: nat, size: nat)
      requires Valid() && size > 0
      modifies `pages, `host, `owner, `flat, `codePages, `notices, tlb, tlbw
      ensures Valid() && Abs() == Erased(old(Abs()), PagesOf(addr, Walked(addr, size)))
      ensures Seen(old(Now()), Now())
      ensures observer ==> codePages !! PagesOf(addr, Walked(addr, size))
    {
      hide Ok, IsRange, Seen, Erased, TlbOk, NoEntries, Valid, Watching, Abs, End, Walked;
      ghost var s0, m0 := Abs(), Now();
      ghost var done: set<nat> := {};
      var first, last := addr / 4096, LastPage(addr, size);
      var p := first;
      NoneErased(first);
      Later(m0, m0, m0);
      while p <= last
        invariant first <= p && (p == first || p <= last + 1) && IsRange(done, first, p)
        invariant Valid() && Abs() == Erased(s0, done) && Seen(m0, Now())
        invariant observer ==> codePages !! done
      {
        ghost var m1 := Now();
        EraseSlot(p);
        Later(m0, m1, Now());
        ErasedTwice(s0, done, {p});
        NextPage(done, first, p);
        done := done + {p};
        p := p + 1;
      }
      AllPages(done, addr, size, p);
    }

    lemma NoneErased(first: nat)
      requires Valid()
      ensures Erased(Abs(), {}) == Abs() && IsRange({}, first, first)
    {
      ViewConsistent(C());
      ErasedNone(Abs());
    }

    /** spans_.push_back */
    method AddSpan(base: nat, data: seq<byte>)
      requires Valid() && |data| % 4096 == 0 && base % 4096 == 0 && |data| > 0
      requires forall p | OnPage(p, base, |data|) :: p !in owner
      modifies `spans, `host, `next, `owner, `start, `flat, `spanned
      ensures Valid()
      ensures flat == old(flat) + Slices(base, data)
      ensures Extents(spans) == Extents(old(spans)) + {Extent(base, |data|)}
      ensures spans == old(spans) + [Span(base, |data|, old(next))]
      ensures spanned == old(spanned) + PagesOf(base, |data|)
      ensures C() == AddStep(old(C()), base, data)
    {
      hide Ok, TlbOk, NoEntries, Extents, Slices, PagesOf, OnPage;
      ghost var d := AddStep(C(), base, data);
      AddFacts(base, data);
      host := host[next := data];
      spans := spans + [Span(base, |data|, next)];
      spanned, owner, start, flat := d.spanned, d.owner, d.start, d.flat;
      next := next + 1;
      assert C() == d;
      TlbGrows(old(owner), owner);
    }

    lemma AddFacts(base: nat, data: seq<byte>)
      requires Valid() && |data| % 4096 == 0 && base % 4096 == 0 && |data| > 0
      requires forall p | OnPage(p, base, |data|) :: p !in owner
      ensures var c := C(); var d := AddStep(c, base, data);
              && Ok(d) && d.flat == flat + Slices(base, data)
              && Extents(d.spans) == Extents(spans) + {Extent(base, |data|)}
              && d.spans == spans + [Span(base, |data|, next)] && d.spanned == spanned + PagesOf(base, |data|)
              && forall p | p in owner :: p in d.owner && d.owner[p] == owner[p]
    {
      AddOk(C(), base, data);
      AddView(C(), base, data);
      KeepsOwners(C(), base, data);
    }

    lemma KeepsOwners(c: Core, base: nat, data: seq<byte>)
      requires |data| % 4096 == 0 && base % 4096 == 0
      requires forall p | OnPage(p, base, |data|) :: p !in c.owner
      ensures forall p | p in c.owner ::
                p in AddStep(c, base, data).owner && AddStep(c, base, data).owner[p] == c.owner[p]
    {
    }

    lemma TlbGrows(o: map<nat, Ptr>, n: map<nat, Ptr>)
      requires TlbOk(tlb, o) && TlbOk(tlbw, o)
      requires forall p | p in o :: p in n && n[p] == o[p]
      ensures TlbOk(tlb, n) && TlbOk(tlbw, n)
    {
    }

    method MapContiguous(addr: nat, size: nat, name: string)
      requires Valid()
      modifies `pages, `spans, `host, `next, `owner, `start, `flat, `spanned, `codePages, `notices, `regions, tlb, tlbw
      ensures Valid() && Abs() == Contiguous(old(Abs()), addr, size)
      ensures Seen(old(Now()), Now())
      ensures regions == old(regions) + if size > 0 && name != ""
                                        then [Region(RoundDown(addr), RoundUp(addr + size) - RoundDown(addr),
                                                     name, "", 0, true)]
                                        else []
    {
      hide Ok, Seen, TlbOk, NoEntries, View;
      ghost var m0 := Now();
      Later(m0, m0, m0);
      if size == 0 {
        return;
      }
      MapSpan(addr, size);
      regions := regions + if name != ""
                           then [Region(RoundDown(addr), RoundUp(addr + size) - RoundDown(addr), name, "", 0, true)]
                           else [];
    }

    method MapSpan(addr: nat, size: nat)
      requires Valid() && size > 0
      modifies `pages, `spans, `host, `next, `owner, `start, `flat, `spanned, `codePages, `notices, tlb, tlbw
      ensures Valid() && Abs() == Contiguous(old(Abs()), addr, size)
      ensures Seen(old(Now()), Now())
    {
      hide Ok, Seen, TlbOk, NoEntries, Unmapped, Slices, Extents, PagesOf, OnPage, RoundDown, RoundUp;
      ghost var m0, s0 := Now(), Abs();
      var base, end := RoundDown(addr), RoundUp(addr + size);
      Rounded(addr, size);
      Unmap(base, end - base);
      if Tops(base, end - base) {
        return;
      }
      ghost var m1 := Now();
      forall p | OnPage(p, base, end - base) ensures p !in flat && p !in owner {
        UnmapClears(s0, C(), base, end - base, p);
      }
      AddSpan(base, Zeroes(end - base));
      ContiguousIs(s0, addr, size);
      Added(m1, Now(), base, Zeroes(end - base));
      Later(m0, m1, Now());
    }

    // ---- whole-space operations ----------------------------------------------------------------

    /** pages_.clear(), spans_.clear() and the flush that must follow. */
    method Clear()
      requires Valid()
      modifies `pages, `spans, `host, `spanned, `owner, `start, `flat, `codePages, `notices, tlb, tlbw
      ensures Valid() && C() == EmptyCore(next) && codePages == {}
      ensures Seen(old(Now()), Now())
    {
      hide Ok, Seen;
      ghost var m0 := Now();
      EmptyOk(next);
      pages, spans, host := map[], [], map[];
      spanned, owner, start, flat := {}, map[], map[], map[];
      TlbFlush();
      assert observer ==> notices[|m0.notices|..] == [FlushAll];
      Flushed(m0, Now());
    }

    method Reset()
      requires Valid()
      modifies `pages, `spans, `host, `spanned, `owner, `start, `flat, `codePages, `notices, `regions, tlb, tlbw
      ensures Valid() && Abs() == EMPTY && regions == []
      ensures Seen(old(Now()), Now())
    {
      hide Ok, Seen, TlbOk, NoEntries;
      Clear();
      EmptyOk(next);
      regions := [];
    }

    /** fork(): this memory becomes a copy of another. */
    method CloneFrom(other: Memory)
      requires Valid() && other.Valid() && other != this && {tlb, tlbw} !! {other.tlb, other.tlbw}
      modifies `pages, `spans, `host, `next, `spanned, `owner, `start, `flat, `codePages, `notices, `regions, tlb, tlbw
      ensures Valid() && Abs() == other.Abs() && regions == other.regions
      ensures Seen(old(Now()), Now())
    {
      hide Ok, Seen, TlbOk, NoEntries, View;
      CloneContents(other);
      regions := other.regions;
    }

    method CloneContents(other: Memory)
      requires Valid() && other.Valid() && other != this && {tlb, tlbw} !! {other.tlb, other.tlbw}
      modifies `pages, `spans, `host, `next, `spanned, `owner, `start, `flat, `codePages, `notices, tlb, tlbw
      ensures Valid() && Abs() == other.Abs()
      ensures Seen(old(Now()), Now())
    {
      hide Ok, Seen, TlbOk, NoEntries, Copied, View, Watching;
      ghost var m0, o := Now(), other.C();
      Clear();
      ghost var m1 := Now();
      CopyStart(o, next);
      CopySlots(other);
      CopySpans(other);
      CopyEnd(o, C());
      Unwatched(m1, Now());
      Later(m0, m1, Now());
    }

    method CopySlots(other: Memory)
      requires Valid() && other != this && Ok(other.C()) && Copied(other.C(), other.pages.Keys, 0, C())
      modifies `pages, `host, `next, `owner, `start, `flat
      ensures Valid() && Copied(other.C(), {}, 0, C())
      ensures old(Watching()) ==> Watching()
    {
      hide Ok, TlbOk, NoEntries, Copied, Valid, C;
      var todo := other.pages.Keys;
      while todo != {}
        invariant todo <= other.pages.Keys && Valid() && Copied(other.C(), todo, 0, C())
      {
        var p :| p in todo;
        CopyOne(other, todo, p);
        todo := todo - {p};
      }
    }

    method CopySpans(other: Memory)
      requires Valid() && other != this && Ok(other.C()) && Copied(other.C(), {}, 0, C())
      modifies `spans, `host, `next, `spanned, `owner, `start, `flat
      ensures Valid() && Copied(other.C(), {}, |other.spans|, C())
      ensures old(Watching()) && codePages == {} ==> Watching()
    {
      hide Ok, TlbOk, NoEntries, Copied, Valid;
      var i := 0;
      while i < |other.spans|
        invariant i <= |other.spans| && Valid() && Copied(other.C(), {}, i, C())
      {
        CopyOneSpan(other, i);
        i := i + 1;
      }
    }

    method CopyOneSpan(other: Memory, i: nat)
      requires Valid() && other != this && Ok(other.C()) && i < |other.spans| && Copied(other.C(), {}, i, C())
      modifies `spans, `host, `next, `spanned, `owner, `start, `flat
      ensures Valid() && Copied(other.C(), {}, i + 1, C())
    {
      hide Ok, TlbOk, NoEntries, Copied, Extents, Slices, View;
      CopySpan(other.C(), i, C());
      ghost var d := AddStep(C(), other.spans[i].base, other.host[other.spans[i].id]);
      AddSpan(other.spans[i].base, other.host[other.spans[i].id]);
    }

    method CopyOne(other: Memory, ghost todo: set<nat>, p: nat)
      requires Valid() && other != this && p in other.pages && p in todo
      requires Ok(other.C()) && Copied(other.C(), todo, 0, C())
      modifies `pages, `host, `next, `owner, `start, `flat
      ensures Valid() && Copied(other.C(), todo - {p}, 0, C())
    {
      hide Ok, TlbOk, NoEntries, Copied;
      ghost var o, d := other.C(), CopyStep(other.C(), C(), p);
      CopySlot(o, todo, C(), p);
      ghost var was := owner;
      SlotBlock(o, p);
      if other.pages[p].Reserved? {
        if p !in pages {
          pages := pages[p := Reserved];
        }
      } else {
        host := host[next := other.host[other.pages[p].id]];
        pages := pages[p := Backed(next)];
        next := next + 1;
      }
      owner, start, flat := d.owner, d.start, d.flat;
      assert C() == d;
      TlbGrows(was, owner);
    }

    lemma SlotBlock(o: Core, p: nat)
      requires Ok(o) && p in o.pages
      ensures o.pages[p].Backed? ==> o.pages[p].id in o.host && SlotBytes(o, p) == o.host[o.pages[p].id]
    {
      assert PageOk(o, p);
    }

    // ---- sized accesses ------------------------------------------------------------------------

    /** read8 .. read64 */
    method ReadSized(addr: nat, n: nat) returns (r: ValueResult)
      requires Valid() && (n == 1 || n == 2 || n == 4 || n == 8)
      modifies `pages, `host, `next, `owner, `start, `journal, `codePages, `notices, tlb, tlbw
      ensures Valid() && pages.Keys == old(pages.Keys) && journal == old(journal)
      ensures Seen(old(Now()), Now()) && Journaled(old(Now()), Now()) && Abs() == old(Abs())
      ensures r ==
                if AllMapped(flat, addr, n) then Value(FromLE(Loaded(flat, addr, n)))
                else ValueFault(addr + Reach(flat, addr, n))
    {
      hide Ok, Seen, Journaled, TlbOk, NoEntries, FromLE, Extents;
      ghost var m0 := Now();
      if addr % 4096 + n <= 4096 {
        var ok, b := Load(addr, n);
        SameJournal(m0, Now());
        OnePageLoaded(flat, addr, n);
        return if ok then Value(FromLE(b)) else ValueFault(addr);
      }
      var r' := Read(addr, n);
      match r' {
        case ReadOk(b) => r := Value(FromLE(b));
        case ReadFault(a) => r := ValueFault(a);
      }
    }

    lemma OnePageLoaded(f: Flat, addr: nat, n: nat)
      requires 0 < n <= 4096 - addr % 4096
      ensures AllMapped(f, addr, n) <==> addr / 4096 in f
      ensures addr / 4096 in f ==> Loaded(f, addr, n) == f[addr / 4096][addr % 4096..addr % 4096 + n]
      ensures addr / 4096 in f ==> Reach(f, addr, n) == n
      ensures addr / 4096 !in f ==> Reach(f, addr, n) == 0
    {
      if addr / 4096 in f {
        var q := addr / 4096;
        var l, r := Loaded(f, addr, n), f[q][addr % 4096..addr % 4096 + n];
        forall i | 0 <= i < n ensures l[i] == r[i] {
          assert (addr + i) / 4096 == q && (addr + i) % 4096 == addr % 4096 + i;
          assert l[i] == At(f, addr + i) == f[q][addr % 4096 + i];
        }
      } else {
        assert OnPage(addr / 4096, addr, n);
      }
    }

    /** write8 .. write64 */
    method WriteSized(addr: nat, n: nat, v: nat) returns (r: WriteResult)
      requires Valid() && (n == 1 || n == 2 || n == 4 || n == 8)
      modifies `pages, `host, `next, `owner, `start, `flat, `journal, `codePages, `notices, tlb, tlbw
      ensures Valid() && pages.Keys == old(pages.Keys)
      ensures var k := Reach(old(flat), addr, n);
              flat == Stored(old(flat), addr, ToLE(v, n)[..k]) && r == if k == n then WriteOk else WriteFault(addr + k)
      ensures Abs() == Written(old(Abs()), addr, ToLE(v, n)[..Reach(old(flat), addr, n)])
      ensures Seen(old(Now()), Now()) && Journaled(old(Now()), Now())
    {
      hide Ok, Seen, Journaled, TlbOk, NoEntries, ToLE, Reach, Extents, Shadowed, Skipped, StoredBut, Stored;
      ghost var f0 := flat;
      var b := ToLE(v, n);
      SmallWrite(pages.Keys, Extents(spans), f0, addr, b[..Reach(f0, addr, n)]);
      OnePageLoaded'(f0, addr, n);
      if addr % 4096 + n <= 4096 {
        var ok := Store(addr, b);
        StoredPlain(f0, addr, b, {});
        StoredPlain(f0, addr, b[..0], {});
        NothingStored(f0, addr);
        assert b[..n] == b && b[..0] == [];
        return if ok then WriteOk else WriteFault(addr);
      }
      r := Write(addr, b);
    }

    lemma OnePageLoaded'(f: Flat, addr: nat, n: nat)
      requires n > 0
      ensures n <= 4096 - addr % 4096 ==> Reach(f, addr, n) == if addr / 4096 in f then n else 0
    {
      if n <= 4096 - addr % 4096 {
        OnePageLoaded(f, addr, n);
      }
    }

    lemma StoredPlain(f: Flat, addr: nat, b: seq<byte>, skip: set<nat>)
      requires skip == {}
      ensures StoredBut(f, addr, b, skip) == Stored(f, addr, b)
    {
    }

    lemma NothingStored(f: Flat, addr: nat)
      ensures Stored(f, addr, []) == f
    {
      NothingWritten(f, {}, addr);
      StoredPlain(f, addr, [], Skipped({}, addr, []));
    }

    /** Less than a page is never skipped. */
    lemma SmallWrite(slots: set<nat>, extents: set<Extent>, f: Flat, addr: nat, b: seq<byte>)
      requires |b| < 4096
      ensures StoredBut(f, addr, b, Skipped(Shadowed(slots, extents), addr, b)) == Stored(f, addr, b)
    {
      assert Skipped(Shadowed(slots, extents), addr, b) == {};
      StoredPlain(f, addr, b, {});
    }

    // ---- the journal ---------------------------------------------------------------------------

    method JournalBegin()
      requires Valid()
      modifies `journal, `journalOn, tlbw
      ensures Valid() && journalOn && journal == map[] && NoEntries(tlbw)
      ensures old(Watching()) ==> Watching()
    {
      hide Ok;
      journal := map[];
      journalOn := true;
      FlushWriteTlb();
    }

    method JournalEnd()
      requires Valid()
      modifies `journalOn
      ensures Valid() && !journalOn
    {
      hide Ok;
      journalOn := false;
    }

    /** Writes every journaled page back, through a read pointer as the verifier does. */
    method RollBack()
      requires Valid() && journal.Keys <= flat.Keys
      modifies `pages, `host, `next, `owner, `start, `flat, `journal, `codePages, `notices, tlb, tlbw
      ensures Valid() && journal == old(journal) && flat.Keys == old(flat.Keys)
      ensures forall p | p in flat :: flat[p] == Opening(old(flat), journal, p)
    {
      hide Ok, Seen, TlbOk, NoEntries, Valid;
      var todo := journal.Keys;
      while todo != {}
        invariant todo <= journal.Keys && Valid() && journal == old(journal) && flat.Keys == old(flat.Keys)
        invariant forall p | p in flat :: flat[p] == if p in todo then old(flat)[p] else Opening(old(flat), journal, p)
      {
        var p :| p in todo;
        PutBack(p, journal[p]);
        todo := todo - {p};
      }
    }

    method PutBack(p: nat, b: PageBytes)
      requires Valid() && p in flat
      modifies `pages, `host, `next, `owner, `start, `flat, `journal, `codePages, `notices, tlb, tlbw
      ensures Valid() && journal == old(journal) && flat == old(flat)[p := b]
    {
      hide Ok, Seen, Splice;
      var r := HostPtr(p * 4096, false);
      Poke(r.p, p, 0, b);
      Spliced(old(flat)[p], 0, b);
      assert [] + b + [] == b;
    }

    // ---- translated code -----------------------------------------------------------------------

    method SetCodeObserver(on: bool)
      requires Valid()
      modifies `observer
      ensures Valid() && observer == on
      ensures on && codePages == {} ==> Watching()
    {
      hide Ok;
      observer := on;
    }

    /** Refused for a page in a contiguous mapping, which is written behind this class's back. */
    method MarkCodePage(page: nat) returns (ok: bool)
      requires Valid()
      modifies `codePages, tlbw
      ensures Valid() && (ok <==> page !in spanned)
      ensures codePages == if ok then old(codePages) + {page} else old(codePages)
      ensures old(Watching()) ==> Watching()
      ensures Seen(old(Now()), Now())
    {
      hide Ok, Seen;
      ghost var m0 := Now();
      Later(m0, m0, m0);
      var isSpan, i := SpanFor(page * 4096);
      if isSpan {
        return false;
      }
      codePages := codePages + {page};
      if tlbw[page % 1024].Entry? && tlbw[page % 1024].page == page {
        tlbw[page % 1024] := NoEntry;
      }
      Watched(m0, Now());
      ok := true;
    }

    // ---- what a capture asks -------------------------------------------------------------------

    method IsMapped(addr: nat) returns (b: bool)
      requires Valid()
      ensures b <==> addr / 4096 in flat
    {
      hide Ok;
      OkPage(addr / 4096);
      var isSpan, i := SpanFor(addr);
      b := addr / 4096 in pages || isSpan;
    }

    /** is every page of the range free? */
    method RangeFree(addr: nat, size: nat) returns (b: bool)
      requires Valid()
      ensures b <==> size > 0 && flat.Keys !! PagesOf(addr, size)
    {
      hide Ok, TlbOk, NoEntries;
      if size == 0 {
        return false;
      }
      var p, last := addr / 4096, (addr + size - 1) / 4096;
      while p <= last
        invariant addr / 4096 <= p <= last + 1
        invariant forall q | addr / 4096 <= q < p :: q !in flat
      {
        var m := IsMapped(p * 4096);
        if m {
          assert p in PagesOf(addr, size);
          return false;
        }
        p := p + 1;
      }
      b := true;
    }

    /** The bytes of a page that has some; None for one that is absent or untouched. */
    method PageData(index: nat) returns (has: bool, data: seq<byte>)
      requires Valid()
      ensures has ==> index in flat && data == flat[index]
      ensures !has && index in flat ==> flat[index] == ZeroPage()
      ensures has <==> index in owner
    {
      hide Ok;
      OkPage(index);
      var isSpan, i := SpanFor(index * 4096);
      if isSpan {
        var base := SpanBase(index, i);
        return true, host[base.id][base.off..base.off + 4096];
      }
      if index !in pages || pages[index].Reserved? {
        return false, [];
      }
      SlotBlock(C(), index);
      OwnBlock(index);
      return true, host[pages[index].id];
    }

    lemma OwnBlock(p: nat)
      requires Valid() && p in pages && pages[p].Backed?
      ensures p in flat && pages[p].id in host && flat[p] == host[pages[p].id]
    {
      assert PageOk(C(), p);
      assert OwnerOk(C(), p);
    }

    /** Every page the guest may touch, in order. */
    method MappedPages() returns (ps: seq<nat>)
      requires Valid()
      ensures ps == Sorted(flat.Keys)
    {
      hide Ok, TlbOk, NoEntries;
      var all := pages.Keys;
      var i := 0;
      while i < |spans|
        invariant i <= |spans|
        invariant forall p: nat :: p in all <==> p in pages || exists k | 0 <= k < i :: SpanHas(spans[k], p)
      {
        SpanPagesWhole(i);
        all := all + PagesOf(spans[i].base, spans[i].size);
        i := i + 1;
      }
      forall p: nat ensures p in all <==> p in flat {
        OkPage(p);
      }
      assert all == flat.Keys;
      ps := Sorted(all);
    }

    lemma SpanPagesWhole(i: nat)
      requires Valid() && i < |spans|
      ensures forall p: nat :: p in PagesOf(spans[i].base, spans[i].size) <==> SpanHas(spans[i], p)
    {
      assert SpanOk(C(), spans[i]);
      forall p: nat ensures p in PagesOf(spans[i].base, spans[i].size) <==> SpanHas(spans[i], p) {
        SpanPagesAre(spans[i], p);
      }
    }

    /** The pages with memory behind them, in order; every other mapped page reads as zero. */
    method LivePages() returns (ps: seq<nat>)
      requires Valid()
      ensures ps == Sorted(owner.Keys)
      ensures forall p | p in flat && p !in ps :: flat[p] == ZeroPage()
      ensures forall p | p in ps :: p in flat
    {
      hide Ok, TlbOk, NoEntries;
      var all := set p | p in pages && pages[p].Backed?;
      var i := 0;
      while i < |spans|
        invariant i <= |spans|
        invariant forall p: nat :: p in all <==>
                    (p in pages && pages[p].Backed?) || exists k | 0 <= k < i :: SpanHas(spans[k], p)
      {
        SpanPagesWhole(i);
        all := all + PagesOf(spans[i].base, spans[i].size);
        i := i + 1;
      }
      forall p: nat
        ensures (p in all <==> p in owner) && (p in flat && p !in owner ==> flat[p] == ZeroPage())
                && (p in owner ==> p in flat)
      {
        OkPage(p);
      }
      assert all == owner.Keys;
      ps := Sorted(all);
    }

    /** The most recent region with this base takes the file. */
    method SetRegionFile(base: nat, path: string, offset: nat)
      requires Valid()
      modifies `regions
      ensures Valid() && |regions| == |old(regions)|
      ensures forall i | 0 <= i < |regions| :: regions[i] ==
                if old(regions)[i].base == base && forall j | i < j < |regions| :: old(regions)[j].base != base
                then old(regions)[i].(file := path, fileOffset := offset) else old(regions)[i]
    {
      hide Ok, TlbOk, NoEntries;
      var i := |regions|;
      while i > 0
        invariant 0 <= i <= |regions| && regions == old(regions)
        invariant forall j | i <= j < |regions| :: regions[j].base != base
      {
        i := i - 1;
        if regions[i].base == base {
          regions := regions[i := regions[i].(file := path, fileOffset := offset)];
          return;
        }
      }
    }
  }

  lemma AbsFlat(m: Memory)
    ensures m.Abs().flat == m.flat
  {
  }
}
