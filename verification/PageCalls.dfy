/** What each call on the page window answers, said of sizes, multiples and ranges alone. */
module PageCalls {
  import opened Bytes
  import opened PageAllocator
  import W = WideMath

  /** The fewest whole pages that hold this many bytes. */
  predicate Pages(need: nat, size: nat) { need % 0x1000 == 0 && size <= need < size + 0x1000 }

  /** The least multiple of the alignment from a point up. */
  ghost predicate LeastMultiple(at: nat, from: nat, alignment: nat)
    requires alignment > 0
  {
    from <= at && at % alignment == 0 && forall m | from <= m && m % alignment == 0 :: at <= m
  }

  /** The first of the smallest free ranges that are large enough. */
  ghost predicate Chosen(free: seq<Range>, need: nat, i: nat)
  {
    && i < |free| && free[i].size >= need
    && (forall j | 0 <= j < |free| && free[j].size >= need :: free[i].size <= free[j].size)
    && (forall j | 0 <= j < i && free[j].size >= need :: free[i].size < free[j].size)
  }

  // ---- rounding --------------------------------------------------------------------------------------

  lemma NeedPages(size: u64, need: nat)
    requires Pages(need, size) && size + 0xFFF < 0x1_0000_0000_0000_0000
    ensures Need(size) == need
  {
  }

  lemma Multiples(x: nat, y: nat, a: nat)
    requires a > 0 && x % a == 0 && y % a == 0 && x < y
    ensures x + a <= y
  {
    var p, q := x / a, y / a;
    assert x == a * p && y == a * q;
    assert a * (q - p) == y - x;
    assert q - p <= 0 ==> a * (q - p) <= 0;
    assert q - p >= 1 ==> a * (q - p) >= a;
  }

  lemma TimesOver(x: nat, a: nat)
    requires a > 0
    ensures W.Times(W.Over(x, a), a) % a == 0
  {
    var q := x / a;
    assert q * a == a * q + 0;
    W.DivIs(q * a, a, q, 0);
  }

  /** An aligned frontier is the least multiple of the alignment at or above it, or zero when that passes 2^64. */
  lemma AlignedLeast(next: u64, alignment: u64)
    requires alignment > 0
    ensures next + alignment - 1 < 0x1_0000_0000_0000_0000 ==> LeastMultiple(Aligned(next, alignment), next, alignment)
    ensures next + alignment - 1 >= 0x1_0000_0000_0000_0000 ==> Aligned(next, alignment) == 0
  {
    hide W.Times, W.Over;
    AlignedIs(next, alignment);
    if next + alignment - 1 < 0x1_0000_0000_0000_0000 {
      var r := Aligned(next, alignment);
      TimesOver(W.Wrap64(next + alignment - 1), alignment);
      forall m: nat | next <= m && m % alignment == 0 ensures r <= m {
        if m < r {
          Multiples(m, r, alignment);
        }
      }
    }
  }

  // ---- the calls -------------------------------------------------------------------------------------

  /** Free range i is cut from its front, and goes when nothing is left of it. */
  ghost predicate CutFrom(w: Window, g: Grant, need: u64, i: nat)
  {
    && Chosen(w.free, need, i) && g.addr == w.free[i].base && g.addr + w.free[i].size < 0x1_0000_0000_0000_0000
    && g.w == w.(live := w.live[g.addr := need],
                 free := if w.free[i].size == need then w.free[..i] + w.free[i + 1..]
                         else w.free[i := Range(g.addr + need, w.free[i].size - need)])
  }

  /** The frontier is moved up to at, and past the pages unless those would pass the limit. */
  predicate TakenAt(w: Window, g: Grant, need: u64, at: u64)
  {
    var moved := w.(next := at, gaps := w.gaps + (at as int - w.next));
    if at + need > w.limit then g == Grant(moved, 0)
    else at + need < 0x1_0000_0000_0000_0000 && g == Grant(moved.(next := at + need, live := w.live[at := need]), at)
  }

  /**
    alloc_pages(): the first smallest free range that holds the pages, cut from its front; or the
    frontier, moved up to the alignment first, unless that passes the limit.
    */
  lemma AllocAnswers(w: Window, size: u64, alignment: u64, need: u64, at: u64)
    requires Sound(w) && Pages(need, size) && size + 0xFFF < 0x1_0000_0000_0000_0000
    requires if alignment > 0x1000 then LeastMultiple(at, w.next, alignment) else at == w.next
    requires w.next + alignment < 0x1_0000_0000_0000_0000 && at + need < 0x1_0000_0000_0000_0000
    ensures var g := Alloc(w, size, alignment);
            if alignment <= 0x1000 && !w.noReuse && exists i: nat :: i < |w.free| && w.free[i].size >= need then
              exists i :: CutFrom(w, g, need, i)
            else TakenAt(w, g, need, at)
  {
    hide Sound, Need, LeastMultiple, Pages, Alloc, CutFrom, TakenAt;
    NeedPages(size, need);
    if alignment <= 0x1000 && !w.noReuse && exists i: nat :: i < |w.free| && w.free[i].size >= need {
      var i: nat :| i < |w.free| && w.free[i].size >= need;
      Reuses(w, size, alignment, need, i);
    } else {
      Takes(w, size, alignment, need, at);
    }
  }

  lemma Reuses(w: Window, size: u64, alignment: u64, need: u64, k: nat)
    requires Sound(w) && Need(size) == need && alignment <= 0x1000 && !w.noReuse
    requires k < |w.free| && w.free[k].size >= need
    ensures exists i :: CutFrom(w, Alloc(w, size, alignment), need, i)
  {
    hide Sound, Need, BestFit;
    FirstFit(w.free, need, |w.free|);
    BestFits(w.free, need, |w.free|);
    var i := BestFit(w.free, need, |w.free|);
    FreeRoom(w, i);
    assert CutFrom(w, Alloc(w, size, alignment), need, i);
  }

  lemma Takes(w: Window, size: u64, alignment: u64, need: u64, at: u64)
    requires Need(size) == need && at + need < 0x1_0000_0000_0000_0000 && w.next + alignment < 0x1_0000_0000_0000_0000
    requires if alignment > 0x1000 then LeastMultiple(at, w.next, alignment) else at == w.next
    requires alignment > 0x1000 || w.noReuse || forall i: nat | i < |w.free| :: w.free[i].size < need
    ensures TakenAt(w, Alloc(w, size, alignment), need, at)
  {
    hide Need, BestFit, LeastMultiple, Aligned;
    BestFits(w.free, need, |w.free|);
    if alignment > 0x1000 {
      AlignedLeast(w.next, alignment);
      OneLeast(at, Aligned(w.next, alignment), w.next, alignment);
    }
  }

  /**
    For an alignment of more than a page, what is handed out is the least multiple of it from the
    frontier up, when the rounding does not pass 2^64.
    */
  lemma AllocAligned(w: Window, size: u64, alignment: u64)
    requires alignment > 0x1000 && w.next + alignment - 1 < 0x1_0000_0000_0000_0000
    ensures var g := Alloc(w, size, alignment);
            g.addr != 0 ==> g.addr % alignment == 0 && LeastMultiple(g.addr, w.next, alignment)
  {
    hide Aligned, Need;
    AlignedLeast(w.next, alignment);
  }

  /** A reservation is aligned to a page at least. */
  lemma ReserveAligned(w: Window, size: u64, alignment: u64)
    requires w.next + alignment + 0xFFF < 0x1_0000_0000_0000_0000
    ensures var g, al := Reserve(w, size, alignment), if alignment > 0x1000 then alignment else 0x1000;
            g.addr != 0 ==> g.addr % al == 0 && LeastMultiple(g.addr, w.next, al)
  {
    hide Aligned, Need;
    AlignedLeast(w.next, if alignment < 0x1000 then 0x1000 else alignment);
  }

  /** reserve_pages(): the frontier, moved up to the alignment first, unless that passes the limit. */
  lemma ReserveAnswers(w: Window, size: u64, alignment: u64, need: u64, at: u64)
    requires Pages(need, size) && size + 0xFFF < 0x1_0000_0000_0000_0000
    requires LeastMultiple(at, w.next, if alignment > 0x1000 then alignment else 0x1000)
    requires w.next + alignment + 0xFFF < 0x1_0000_0000_0000_0000 && at + need < 0x1_0000_0000_0000_0000
    ensures var g, moved := Reserve(w, size, alignment), w.(next := at, gaps := w.gaps + (at as int - w.next));
            if at + need > w.limit then g == Grant(moved, 0)
            else g == Grant(moved.(next := at + need, reserved := w.reserved + [Range(at, need)]), at)
  {
    hide Aligned, Need, LeastMultiple, Pages;
    NeedPages(size, need);
    var al := if alignment < 0x1000 then 0x1000 else alignment;
    AlignedLeast(w.next, al);
    OneLeast(at, Aligned(w.next, al), w.next, al);
  }

  /**
    free_pages(): the whole pages the bytes touch; the live range that starts there, if it is no
    longer, goes back whole, and otherwise the pages do, when they lie below the frontier.
    */
  lemma FreeAnswers(w: Window, addr: u64, size: u64, page: u64, need: nat)
    requires page % 0x1000 == 0 && page <= addr < page + 0x1000
    requires Pages(need, size + (addr - page)) && size + (addr - page) + 0xFFF < 0x1_0000_0000_0000_0000
    ensures Free(w, addr, size) ==
            if need == 0 || page >= w.limit then w
            else if page in w.live && w.live[page] <= need then
              w.(free := w.free + [Range(page, w.live[page])], live := w.live - {page})
            else if page < w.next then w.(free := w.free + [Range(page, need)])
            else w
  {
    hide FreedBytes;
    FreedPages(addr, size, page, need);
  }

  /** The bytes a free unmaps; past 2^64 none, or one page. */
  lemma FreedPages(addr: u64, size: u64, page: u64, need: nat)
    requires page % 0x1000 == 0 && page <= addr < page + 0x1000 && Pages(need, size + (addr - page))
    ensures page == addr / 0x1000 * 0x1000
    ensures FreedBytes(addr, size) == if size + (addr - page) > 0x1_0000_0000_0000_0000 then 0x1000
                                      else if need < 0x1_0000_0000_0000_0000 then need
                                      else 0
  {
    PageStart(addr, page);
    RoundedPages(size + (addr - page), need);
  }

  lemma PageStart(addr: nat, page: nat)
    requires page % 0x1000 == 0 && page <= addr < page + 0x1000
    ensures page == addr / 0x1000 * 0x1000 && addr - page == addr % 0x1000
  {
  }

  lemma RoundedPages(x: nat, need: nat)
    requires Pages(need, x) && x < 0x1_0000_0000_0000_0FFF
    ensures W.Wrap64(W.Wrap64(x) + 0xFFF) / 0x1000 * 0x1000 ==
            if x > 0x1_0000_0000_0000_0000 then 0x1000 else if need < 0x1_0000_0000_0000_0000 then need else 0
  {
  }

  lemma OneLeast(x: nat, y: nat, from: nat, alignment: nat)
    requires alignment > 0 && LeastMultiple(x, from, alignment) && LeastMultiple(y, from, alignment)
    ensures x == y
  {
  }

  /** Of equally small ranges the scan keeps the first. */
  lemma {:induction false} FirstFit(free: seq<Range>, need: u64, n: nat)
    requires n <= |free|
    ensures var b := BestFit(free, need, n);
            b < |free| ==> b < n && free[b].size >= need && forall j | 0 <= j < b && free[j].size >= need ::
                                                              free[b].size < free[j].size
  {
    if n > 0 {
      FirstFit(free, need, n - 1);
      BestFits(free, need, n - 1);
    }
  }

  lemma FreeRoom(w: Window, i: nat)
    requires Sound(w) && i < |w.free|
    ensures w.free[i].base + w.free[i].size < 0x1_0000_0000_0000_0000
  {
    assert SlotOk(w, FreeAt(i));
  }
}
