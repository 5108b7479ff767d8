/** The page window that mmap() and VirtualAlloc() draw from. */
module PageAllocator {
  import opened Bytes
  import opened AddressSpace
  import G = GuestMemory
  import W = WideMath

  datatype Range = Range(base: u64, size: u64)

  /**
    The window: its frontier and limit, the ranges given back, the ranges handed out, and - kept
    for the proof alone - the ranges reserved and the bytes skipped to align the frontier.
    */
  datatype Window = Window(base: nat, next: u64, limit: u64, noReuse: bool, free: seq<Range>, live: map<u64, u64>,
                           reserved: seq<Range>, gaps: int)

  /** A window and the address handed out of it, 0 for a refusal. */
  datatype Grant = Grant(w: Window, addr: u64)

  /** A size rounded up to whole pages in 64 bits, so that the largest sizes round to nothing. */
  function Need(size: u64): u64 { W.Wrap64(size + 0xFFF) / 0x1000 * 0x1000 }

  function Aligned(next: u64, alignment: u64): (r: u64)
    requires alignment > 0
  {
    DownLe(W.Wrap64(next + alignment - 1), alignment);
    W.Times(W.Over(W.Wrap64(next + alignment - 1), alignment), alignment)
  }

  lemma DownLe(x: nat, a: nat)
    requires a > 0
    ensures x - a < W.Times(W.Over(x, a), a) <= x
  {
    assert x == x / a * a + x % a;
  }

  ghost predicate PowerOfTwo(a: nat) { exists k: nat | k < 64 :: a == W.Pow2(k) }

  /** An alignment of a page or less asks for nothing more; a larger one is a power of two. */
  ghost predicate AlignmentOk(a: nat) { a <= 0x1000 || PowerOfTwo(a) }

  /** The first smallest of the first n ranges that is large enough, or |free|. */
  function BestFit(free: seq<Range>, need: u64, n: nat): (b: nat)
    requires n <= |free|
    ensures b < n || b == |free|
  {
    if n == 0 then |free| else
    var b := BestFit(free, need, n - 1);
    if free[n - 1].size < need then b
    else if b == |free| || free[n - 1].size < free[b].size then n - 1
    else b
  }

  function Advanced(w: Window, at: u64): Window { w.(next := at, gaps := w.gaps + at - w.next) }

  predicate Refused(w: Window, at: u64, need: u64) { W.Wrap64(at + need) > w.limit }

  function Bump(w: Window, at: u64, need: u64): Grant
  {
    if Refused(w, at, need) then Grant(Advanced(w, at), 0)
    else Grant(Advanced(w, at).(next := W.Wrap64(at + need), live := w.live[at := need]), at)
  }

  function Reuse(w: Window, i: nat, need: u64): Grant
    requires i < |w.free| && w.free[i].size >= need
  {
    var r := w.free[i];
    var rest :=
      if r.size > need then w.free[i := Range(W.Wrap64(r.base + need), r.size - need)]
      else w.free[..i] + w.free[i + 1..];
    Grant(w.(free := rest, live := w.live[r.base := need]), r.base)
  }

  /** Which free range an allocation reuses, |free| for the frontier. */
  function Choice(w: Window, size: u64, alignment: u64): nat
  {
    if alignment > 0x1000 || w.noReuse then |w.free| else BestFit(w.free, Need(size), |w.free|)
  }

  /** Where the frontier is moved to before anything is taken from it. */
  function Start(w: Window, alignment: u64): u64 { if alignment > 0x1000 then Aligned(w.next, alignment) else w.next }

  /** alloc_pages() */
  function Alloc(w: Window, size: u64, alignment: u64): Grant
  {
    var i := Choice(w, size, alignment);
    if i < |w.free| then
      BestFits(w.free, Need(size), |w.free|);
      Reuse(w, i, Need(size))
    else Bump(w, Start(w, alignment), Need(size))
  }

  /** reserve_pages() */
  function Reserve(w: Window, size: u64, alignment: u64): Grant
  {
    var at := Aligned(w.next, if alignment < 0x1000 then 0x1000 else alignment);
    var need := Need(size);
    if Refused(w, at, need) then Grant(Advanced(w, at), 0)
    else Grant(Advanced(w, at).(next := W.Wrap64(at + need), reserved := w.reserved + [Range(at, need)]), at)
  }

  function FreedBytes(addr: u64, size: u64): u64 { W.Wrap64(W.Wrap64(size + addr % 0x1000) + 0xFFF) / 0x1000 * 0x1000 }

  /** free_pages() */
  function Free(w: Window, addr: u64, size: u64): Window
  {
    var page: u64 := addr / 0x1000 * 0x1000;
    var need := FreedBytes(addr, size);
    if need == 0 || page >= w.limit then w
    else if page in w.live && w.live[page] <= need then
      w.(free := w.free + [Range(page, w.live[page])], live := w.live - {page})
    else if page >= w.next then w
    else w.(free := w.free + [Range(page, need)])
  }

  // ---- best fit ---------------------------------------------------------------------------------

  /** Every range that is large enough is at least as large as the one chosen. */
  lemma {:induction false} BestFits(free: seq<Range>, need: u64, n: nat)
    requires n <= |free|
    ensures var b := BestFit(free, need, n);
            && (b < |free| ==>
                free[b].size >= need && forall j | 0 <= j < n && free[j].size >= need :: free[b].size <= free[j].size)
            && (b == |free| ==> forall j | 0 <= j < n :: free[j].size < need)
  {
    if n > 0 {
      BestFits(free, need, n - 1);
    }
  }

  // ---- what a sound window is -------------------------------------------------------------------

  datatype Slot = LiveAt(a: u64) | FreeAt(i: nat) | ReservedAt(j: nat)

  predicate In(w: Window, s: Slot)
  {
    match s
    case LiveAt(a) => a in w.live
    case FreeAt(i) => i < |w.free|
    case ReservedAt(j) => j < |w.reserved|
  }

  function RangeOf(w: Window, s: Slot): Range
    requires In(w, s)
  {
    match s
    case LiveAt(a) => Range(a, w.live[a])
    case FreeAt(i) => w.free[i]
    case ReservedAt(j) => w.reserved[j]
  }

  /** The two ranges share no byte. */
  predicate Apart(r: Range, s: Range)
  {
    r.size == 0 || s.size == 0 || r.base + r.size <= s.base || s.base + s.size <= r.base
  }

  predicate Placed(w: Window, r: Range)
  {
    r.base % 0x1000 == 0 && r.size % 0x1000 == 0 && w.base <= r.base && r.base + r.size <= w.next
  }

  function Total(rs: seq<Range>): nat { if rs == [] then 0 else Total(rs[..|rs| - 1]) + rs[|rs| - 1].size }

  ghost function Sum(live: map<u64, u64>): nat
    decreases |live|
  {
    if live == map[] then 0 else
    var a :| a in live;
    live[a] + Sum(live - {a})
  }

  ghost predicate SlotOk(w: Window, s: Slot) {
    In(w, s) ==> Placed(w, RangeOf(w, s)) && (s.FreeAt? ==> RangeOf(w, s).size > 0)
  }

  ghost predicate PairOk(w: Window, s: Slot, t: Slot) {
    In(w, s) && In(w, t) && s != t ==> Apart(RangeOf(w, s), RangeOf(w, t))
  }

  ghost predicate Accounted(w: Window)
  {
    w.gaps >= 0 && Sum(w.live) + Total(w.free) + Total(w.reserved) + w.gaps == w.next - w.base
  }

  /**
    Live, free and reserved ranges are whole pages below the frontier, no two of them share a
    byte, and together with the alignment gaps they make up all that the frontier has passed.
    */
  ghost predicate Sound(w: Window)
  {
    && w.base > 0 && w.next % 0x1000 == 0
    && (forall s :: SlotOk(w, s))
    && (forall s, t :: PairOk(w, s, t))
    && Accounted(w)
  }

  // ---- sums -------------------------------------------------------------------------------------

  lemma {:induction false} SumPick(m: map<u64, u64>, a: u64)
    requires a in m
    ensures Sum(m) == m[a] + Sum(m - {a})
    decreases |m|
  {
    var b :| b in m && Sum(m) == m[b] + Sum(m - {b});
    if a != b {
      SumPick(m - {b}, a);
      SumPick(m - {a}, b);
      assert m - {b} - {a} == m - {a} - {b};
    }
  }

  lemma SumSet(m: map<u64, u64>, a: u64, v: u64)
    ensures Sum(m[a := v]) == Sum(m) + v - (if a in m then m[a] else 0)
  {
    SumPick(m[a := v], a);
    if a in m {
      SumPick(m, a);
      assert m[a := v] - {a} == m - {a};
    } else {
      assert m[a := v] - {a} == m;
    }
  }

  lemma TotalAdd(rs: seq<Range>, r: Range)
    ensures Total(rs + [r]) == Total(rs) + r.size
  {
    assert (rs + [r])[..|rs|] == rs;
  }

  lemma {:induction false} TotalSet(rs: seq<Range>, i: nat, r: Range)
    requires i < |rs|
    ensures Total(rs[i := r]) == Total(rs) + r.size - rs[i].size
    ensures Total(rs[..i] + rs[i + 1..]) == Total(rs) - rs[i].size
  {
    var n := |rs| - 1;
    if i < n {
      TotalSet(rs[..n], i, r);
      assert rs[i := r][..n] == rs[..n][i := r];
      assert rs[..i] + rs[i + 1..] == (rs[..n][..i] + rs[..n][i + 1..]) + [rs[n]];
      TotalAdd(rs[..n][..i] + rs[..n][i + 1..], rs[n]);
    } else {
      assert rs[i := r][..n] == rs[..n];
      assert rs[..i] + rs[i + 1..] == rs[..n];
    }
  }

  // ---- rounding -----------------------------------------------------------------------------------

  lemma NeedIs(size: u64)
    ensures Need(size) % 0x1000 == 0
    ensures size + 0xFFF < 0x1_0000_0000_0000_0000 ==> size <= Need(size) < size + 0x1000
    ensures size + 0xFFF >= 0x1_0000_0000_0000_0000 ==> Need(size) == 0
  {
  }

  /** Rounding up finds the next multiple, or wraps to zero. */
  lemma AlignedIs(next: u64, alignment: u64)
    requires alignment > 0
    ensures next + alignment - 1 < 0x1_0000_0000_0000_0000 ==> next <= Aligned(next, alignment) < next + alignment
    ensures next + alignment - 1 >= 0x1_0000_0000_0000_0000 ==> Aligned(next, alignment) == 0
  {
    hide W.Times, W.Over;
    var x := W.Wrap64(next + alignment - 1);
    DownLe(x, alignment);
    if next + alignment - 1 >= 0x1_0000_0000_0000_0000 {
      SmallOver(x, alignment);
    }
  }

  lemma SmallOver(x: nat, a: nat)
    requires x < a
    ensures W.Times(W.Over(x, a), a) == 0
  {
  }

  lemma Pow12()
    ensures W.Pow2(12) == 0x1000
  {
    assert W.Pow2(4) == 16;
    assert W.Pow2(8) == 256;
  }

  lemma {:induction false} PageMultiple(k: nat)
    requires k >= 12
    ensures W.Pow2(k) % 0x1000 == 0
  {
    hide W.Pow2;
    if k == 12 {
      Pow12();
    } else {
      PageMultiple(k - 1);
      W.Pow2Step(k - 1);
    }
  }

  lemma {:induction false} PageMultiples(q: nat, a: nat)
    requires a % 0x1000 == 0
    ensures W.Times(q, a) % 0x1000 == 0
  {
    var k := a / 0x1000;
    assert q * a == 0x1000 * (q * k);
  }

  /** An alignment above a page is whole pages, so what it aligns is too. */
  lemma AlignedPages(next: u64, alignment: u64)
    requires PowerOfTwo(alignment) && alignment >= 0x1000
    ensures Aligned(next, alignment) % 0x1000 == 0
  {
    hide W.Pow2, W.Times, W.Over;
    var k: nat :| k < 64 && alignment == W.Pow2(k);
    Pow12();
    if k < 12 {
      W.Pow2Mono(k, 11);
      W.Pow2Mono(11, 12);
      W.Pow2Step(11);
    } else {
      PageMultiple(k);
    }
    PageMultiples(W.Over(W.Wrap64(next + alignment - 1), alignment), alignment);
  }

  // ---- what each operation keeps --------------------------------------------------------------------

  lemma AdvanceSound(w: Window, at: u64)
    requires Sound(w) && w.next <= at && at % 0x1000 == 0
    ensures Sound(Advanced(w, at))
  {
    hide Accounted;
    var v := Advanced(w, at);
    AdvanceAccounted(w, at);
    forall s: Slot ensures SlotOk(v, s) {
      assert SlotOk(w, s);
    }
    forall s: Slot, t: Slot ensures PairOk(v, s, t) {
      assert PairOk(w, s, t);
    }
  }

  lemma AdvanceAccounted(w: Window, at: u64)
    requires Accounted(w) && w.next <= at
    ensures Accounted(Advanced(w, at))
  {
  }

  /** Taking a range off the frontier, for a live allocation. */
  lemma TakeSound(w: Window, need: u64)
    requires Sound(w) && need % 0x1000 == 0 && w.next + need < 0x1_0000_0000_0000_0000 && w.base <= w.next
    ensures Sound(w.(next := w.next + need, live := w.live[w.next := need]))
  {
    hide Accounted, Sum, Total;
    var v := w.(next := w.next + need, live := w.live[w.next := need]);
    assert SlotOk(w, LiveAt(w.next));
    SumSet(w.live, w.next, need);
    assert Accounted(v) by {
      TakeAccounted(w, need);
    }
    forall s: Slot ensures SlotOk(v, s) {
      assert SlotOk(w, s);
    }
    forall s: Slot, t: Slot ensures PairOk(v, s, t) {
      assert PairOk(w, s, t) && SlotOk(w, s) && SlotOk(w, t);
    }
  }

  lemma TakeAccounted(w: Window, need: u64)
    requires Accounted(w) && w.next + need < 0x1_0000_0000_0000_0000
    requires w.next in w.live ==> w.live[w.next] == 0
    ensures Accounted(w.(next := w.next + need, live := w.live[w.next := need]))
  {
    SumSet(w.live, w.next, need);
  }

  lemma ReserveSound(w: Window, need: u64)
    requires Sound(w) && need % 0x1000 == 0 && w.next + need < 0x1_0000_0000_0000_0000 && w.base <= w.next
    ensures Sound(w.(next := w.next + need, reserved := w.reserved + [Range(w.next, need)]))
  {
    hide Accounted, Sum, Total;
    var v := w.(next := w.next + need, reserved := w.reserved + [Range(w.next, need)]);
    assert Accounted(v) by {
      ReserveAccounted(w, need);
    }
    forall s: Slot ensures SlotOk(v, s) {
      assert SlotOk(w, s);
    }
    forall s: Slot, t: Slot ensures PairOk(v, s, t) {
      assert PairOk(w, s, t) && SlotOk(w, s) && SlotOk(w, t);
    }
  }

  lemma ReserveAccounted(w: Window, need: u64)
    requires Accounted(w) && w.next + need < 0x1_0000_0000_0000_0000
    ensures Accounted(w.(next := w.next + need, reserved := w.reserved + [Range(w.next, need)]))
  {
    TotalAdd(w.reserved, Range(w.next, need));
  }

  /** Taking a range, or the front of it, from the free list. */
  lemma ReuseSound(w: Window, i: nat, need: u64)
    requires Sound(w) && i < |w.free| && w.free[i].size >= need && need % 0x1000 == 0
    ensures Sound(Reuse(w, i, need).w)
  {
    hide Accounted, Sum, Total, SlotOk, PairOk, Reuse;
    var v := Reuse(w, i, need).w;
    var gone := w.free[i].size == need;
    ReuseFields(w, i, need);
    ReuseBase(w, i);
    ReuseAccounted(w, i, need);
    forall s: Slot ensures SlotOk(v, s) {
      ReuseSlot(w, i, need, s);
    }
    forall s: Slot, t: Slot ensures PairOk(v, s, t) {
      ReusePair(w, i, need, s, t);
    }
  }

  lemma ReuseFields(w: Window, i: nat, need: u64)
    requires i < |w.free| && w.free[i].size >= need
    ensures var v := Reuse(w, i, need).w; v.base == w.base && v.next == w.next
  {
  }

  /** A free range's address is not that of a live range with anything in it. */
  lemma ReuseBase(w: Window, i: nat)
    requires i < |w.free| && SlotOk(w, FreeAt(i)) && PairOk(w, FreeAt(i), LiveAt(w.free[i].base))
    ensures w.free[i].base in w.live ==> w.live[w.free[i].base] == 0
  {
  }

  /** Where the slots of the new window come from. */
  lemma ReuseRange(w: Window, i: nat, need: u64, s: Slot)
    requires i < |w.free| && w.free[i].size >= need && SlotOk(w, FreeAt(i)) && need % 0x1000 == 0
    requires In(Reuse(w, i, need).w, s)
    ensures var v, r, s' := Reuse(w, i, need).w, w.free[i], Before(s, i, w.free[i].size == need);
            if s == LiveAt(r.base) then RangeOf(v, s) == Range(r.base, need)
            else In(w, s')
                 && if s' == FreeAt(i)
                      then RangeOf(v, s).base == r.base + need && RangeOf(v, s).size == r.size - need > 0
            else RangeOf(v, s) == RangeOf(w, s')
  {
  }

  lemma ReuseSlot(w: Window, i: nat, need: u64, s: Slot)
    requires i < |w.free| && w.free[i].size >= need && need % 0x1000 == 0
    requires SlotOk(w, FreeAt(i)) && SlotOk(w, Before(s, i, w.free[i].size == need))
    ensures SlotOk(Reuse(w, i, need).w, s)
  {
    hide Reuse;
    if In(Reuse(w, i, need).w, s) {
      ReuseRange(w, i, need, s);
      ReuseFields(w, i, need);
    }
  }

  lemma ReusePair(w: Window, i: nat, need: u64, s: Slot, t: Slot)
    requires i < |w.free| && w.free[i].size >= need && SlotOk(w, FreeAt(i)) && need % 0x1000 == 0
    requires var s', t' := Before(s, i, w.free[i].size == need), Before(t, i, w.free[i].size == need);
             PairOk(w, s', t') && PairOk(w, s', FreeAt(i)) && PairOk(w, FreeAt(i), t')
    ensures PairOk(Reuse(w, i, need).w, s, t)
  {
    hide Reuse;
    if In(Reuse(w, i, need).w, s) && In(Reuse(w, i, need).w, t) {
      ReuseRange(w, i, need, s);
      ReuseRange(w, i, need, t);
    }
  }

  /** The slot that a slot of the new window was, when range i has been taken out of the free list. */
  function Before(s: Slot, i: nat, gone: bool): Slot { if gone && s.FreeAt? && s.i >= i then FreeAt(s.i + 1) else s }

  lemma ReuseAccounted(w: Window, i: nat, need: u64)
    requires Accounted(w) && i < |w.free| && w.free[i].size >= need
    requires w.free[i].base in w.live ==> w.live[w.free[i].base] == 0
    ensures Accounted(Reuse(w, i, need).w)
  {
    hide Sum, Total;
    var r := w.free[i];
    SumSet(w.live, r.base, need);
    if r.size > need {
      TotalSet(w.free, i, Range(W.Wrap64(r.base + need), r.size - need));
    } else {
      TotalSet(w.free, i, r);
    }
  }

  /** Giving back a whole live range. */
  lemma GiveSound(w: Window, a: u64)
    requires Sound(w) && a in w.live && w.live[a] > 0
    ensures Sound(w.(free := w.free + [Range(a, w.live[a])], live := w.live - {a}))
  {
    hide Accounted, Sum, Total;
    var v := w.(free := w.free + [Range(a, w.live[a])], live := w.live - {a});
    GiveAccounted(w, a);
    forall s: Slot ensures SlotOk(v, s) {
      assert SlotOk(w, s) && SlotOk(w, LiveAt(a));
    }
    forall s: Slot, t: Slot ensures PairOk(v, s, t) {
      assert PairOk(w, s, t) && PairOk(w, s, LiveAt(a)) && PairOk(w, LiveAt(a), t);
    }
  }

  lemma GiveAccounted(w: Window, a: u64)
    requires Accounted(w) && a in w.live
    ensures Accounted(w.(free := w.free + [Range(a, w.live[a])], live := w.live - {a}))
  {
    SumPick(w.live, a);
    TotalAdd(w.free, Range(a, w.live[a]));
  }

  // ---- exactly when an operation keeps the window sound ------------------------------------------------

  /** The request is served from the frontier. */
  predicate AtFrontier(w: Window, size: u64, alignment: u64) { Choice(w, size, alignment) >= |w.free| }

  /** Neither rounding wraps, nor the sum the limit is tested against - or that test refuses. */
  predicate AllocFits(w: Window, size: u64, alignment: u64)
  {
    && (alignment > 0x1000 ==> w.next + alignment - 1 < 0x1_0000_0000_0000_0000)
    && if AtFrontier(w, size, alignment) && Refused(w, Start(w, alignment), Need(size)) then true
       else size + 0xFFF < 0x1_0000_0000_0000_0000 &&
            (AtFrontier(w, size, alignment) ==> Start(w, alignment) + Need(size) < 0x1_0000_0000_0000_0000)
  }

  /** The window stays sound, and an address handed out carries at least the bytes asked for. */
  ghost predicate Granted(g: Grant, size: u64)
  {
    Sound(g.w) && (g.addr != 0 ==> g.addr in g.w.live && g.w.live[g.addr] >= size)
  }

  lemma SoundBase(w: Window)
    requires Sound(w)
    ensures 0 < w.base <= w.next && forall i | 0 <= i < |w.free| :: w.free[i].base > 0
  {
    forall i | 0 <= i < |w.free| ensures w.free[i].base > 0 {
      assert SlotOk(w, FreeAt(i));
    }
  }

  lemma AllocExact(w: Window, size: u64, alignment: u64)
    requires Sound(w) && AlignmentOk(alignment)
    ensures Granted(Alloc(w, size, alignment), size) <==> AllocFits(w, size, alignment)
  {
    hide Sound, Need, PowerOfTwo, Aligned, Reuse, Bump, Choice;
    SoundBase(w);
    NeedIs(size);
    var i := Choice(w, size, alignment);
    ChoiceIs(w, size, alignment);
    if i < |w.free| {
      ReuseSound(w, i, Need(size));
      ReuseGrants(w, i, Need(size));
    } else {
      if alignment > 0x1000 {
        AlignedIs(w.next, alignment);
        AlignedPages(w.next, alignment);
      }
      StartPages(w, alignment);
      BumpExact(w, Start(w, alignment), Need(size), size);
    }
  }

  /** The range reused is a smallest of those large enough; the frontier serves what none can. */
  lemma ChoiceIs(w: Window, size: u64, alignment: u64)
    ensures var i := Choice(w, size, alignment);
            && (i < |w.free| ==> !w.noReuse && alignment <= 0x1000 && w.free[i].size >= Need(size))
            && (i < |w.free| ==>
                forall j | 0 <= j < |w.free| && w.free[j].size >= Need(size) :: w.free[i].size <= w.free[j].size)
            && (i >= |w.free| ==>
                   i == |w.free|
                     && (w.noReuse || alignment > 0x1000
                         || forall j | 0 <= j < |w.free| :: w.free[j].size < Need(size)))
  {
    BestFits(w.free, Need(size), |w.free|);
  }

  lemma StartPages(w: Window, alignment: u64)
    requires Sound(w) && (alignment > 0x1000 ==> Aligned(w.next, alignment) % 0x1000 == 0)
    ensures Start(w, alignment) % 0x1000 == 0
  {
  }

  lemma ReuseGrants(w: Window, i: nat, need: u64)
    requires i < |w.free| && w.free[i].size >= need
    ensures var g := Reuse(w, i, need); g.addr == w.free[i].base && g.addr in g.w.live && g.w.live[g.addr] == need
  {
  }

  lemma BumpExact(w: Window, at: u64, need: u64, size: u64)
    requires Sound(w) && at % 0x1000 == 0 && need % 0x1000 == 0 && (at < w.next ==> at == 0)
    requires need >= size || (need == 0 && size > 0)
    ensures Granted(Bump(w, at, need), size) <==>
            at >= w.next && (Refused(w, at, need) || (need >= size && at + need < 0x1_0000_0000_0000_0000))
  {
    hide Sound;
    SoundBase(w);
    var g := Bump(w, at, need);
    if at < w.next {
      if Refused(w, at, need) {
        Retreated(w, g.w);
      } else {
        BelowBase(w, g.w, LiveAt(at));
      }
    } else {
      AdvanceSound(w, at);
      if Refused(w, at, need) {
      } else if at + need < 0x1_0000_0000_0000_0000 {
        TakeSound(Advanced(w, at), need);
      } else {
        Overrun(g.w, LiveAt(at));
      }
    }
  }

  /** A frontier below the base, a range below it, or a range past the frontier, is not sound. */
  lemma Retreated(w: Window, v: Window)
    requires Sound(w) && v.base == w.base && v.next < w.base
    ensures !Sound(v)
  {
    if Sound(v) {
      SoundBase(v);
      assert false;
    }
  }

  lemma Overrun(v: Window, s: Slot)
    requires In(v, s) && RangeOf(v, s).base + RangeOf(v, s).size > v.next
    ensures !Sound(v)
  {
    assert !SlotOk(v, s);
  }

  /** A range handed out shares no byte with any range that was live or reserved. */
  lemma AllocApart(w: Window, size: u64, alignment: u64, s: Slot)
    requires Sound(w) && AlignmentOk(alignment) && AllocFits(w, size, alignment)
    requires In(w, s) && !s.FreeAt?
    ensures var g := Alloc(w, size, alignment);
            g.addr != 0 ==> g.addr in g.w.live && Apart(RangeOf(w, s), RangeOf(g.w, LiveAt(g.addr)))
  {
    hide Sound, AllocFits, PowerOfTwo;
    var g := Alloc(w, size, alignment);
    AllocExact(w, size, alignment);
    if g.addr != 0 {
      StillThere(w, size, alignment, s);
      PairIn(g.w, s, LiveAt(g.addr));
      EmptyThere(w, size, alignment);
    }
  }

  lemma PairIn(w: Window, s: Slot, t: Slot)
    requires Sound(w)
    ensures PairOk(w, s, t)
  {
  }

  lemma StillThere(w: Window, size: u64, alignment: u64, s: Slot)
    requires In(w, s) && !s.FreeAt?
    ensures var g := Alloc(w, size, alignment); s != LiveAt(g.addr) ==> In(g.w, s) && RangeOf(g.w, s) == RangeOf(w, s)
  {
  }

  /** If the address was live before, it had no bytes. */
  lemma EmptyThere(w: Window, size: u64, alignment: u64)
    requires Sound(w) && AlignmentOk(alignment) && AllocFits(w, size, alignment)
    ensures var a := Alloc(w, size, alignment).addr; a in w.live && a != 0 ==> w.live[a] == 0
  {
    hide PowerOfTwo, Aligned;
    var i := Choice(w, size, alignment);
    if i < |w.free| {
      assert SlotOk(w, FreeAt(i)) && PairOk(w, FreeAt(i), LiveAt(w.free[i].base));
    } else {
      if alignment > 0x1000 {
        AlignedIs(w.next, alignment);
      }
      assert SlotOk(w, LiveAt(Start(w, alignment)));
    }
  }

  predicate ReserveFits(w: Window, size: u64, alignment: u64)
  {
    var al := if alignment < 0x1000 then 0x1000 else alignment;
    && w.next + al - 1 < 0x1_0000_0000_0000_0000
    && (Refused(w, Aligned(w.next, al), Need(size)) ||
        (size + 0xFFF < 0x1_0000_0000_0000_0000 && Aligned(w.next, al) + Need(size) < 0x1_0000_0000_0000_0000))
  }

  /** The reservation just made has the bytes asked for. */
  predicate Held(g: Grant, size: u64)
  {
    g.w.reserved != [] && g.w.reserved[|g.w.reserved| - 1].base == g.addr
      && g.w.reserved[|g.w.reserved| - 1].size >= size
  }

  lemma ReserveExact(w: Window, size: u64, alignment: u64)
    requires Sound(w) && AlignmentOk(alignment)
    ensures var g := Reserve(w, size, alignment);
            (Sound(g.w) && (g.addr != 0 ==> Held(g, size))) <==> ReserveFits(w, size, alignment)
  {
    hide Sound, Need, Aligned, PowerOfTwo;
    var al := if alignment < 0x1000 then 0x1000 else alignment;
    var at, need := Aligned(w.next, al), Need(size);
    var g := Reserve(w, size, alignment);
    SoundBase(w);
    NeedIs(size);
    AlignedIs(w.next, al);
    AtLeastPage(alignment);
    AlignedPages(w.next, al);
    if at < w.next {
      if Refused(w, at, need) {
        Retreated(w, g.w);
      } else {
        BelowBase(w, g.w, ReservedAt(|w.reserved|));
      }
    } else {
      AdvanceSound(w, at);
      if !Refused(w, at, need) {
        if at + need < 0x1_0000_0000_0000_0000 {
          ReserveSound(Advanced(w, at), need);
        } else {
          Overrun(g.w, ReservedAt(|w.reserved|));
        }
      }
    }
  }

  lemma BelowBase(w: Window, v: Window, s: Slot)
    requires v.base == w.base && In(v, s) && RangeOf(v, s).base < w.base
    ensures !Sound(v)
  {
    assert !SlotOk(v, s);
  }

  lemma AtLeastPage(alignment: u64)
    requires AlignmentOk(alignment)
    ensures PowerOfTwo(if alignment < 0x1000 then 0x1000 else alignment)
  {
    Pow12();
  }

  /** A free that gives back a whole live range, or nothing. */
  predicate FreeFits(w: Window, addr: u64, size: u64)
  {
    var page: u64, need := addr / 0x1000 * 0x1000, FreedBytes(addr, size);
    need == 0 || page >= w.limit || if page in w.live && w.live[page] <= need then w.live[page] > 0 else page >= w.next
  }

  lemma FreeExact(w: Window, addr: u64, size: u64)
    requires Sound(w)
    ensures Sound(Free(w, addr, size)) <==> FreeFits(w, addr, size)
  {
    hide FreedBytes, Total, Sum;
    var page: u64, need := addr / 0x1000 * 0x1000, FreedBytes(addr, size);
    var v := Free(w, addr, size);
    if need == 0 || page >= w.limit {
    } else if page in w.live && w.live[page] <= need {
      if w.live[page] > 0 {
        GiveSound(w, page);
      } else {
        assert !SlotOk(v, FreeAt(|w.free|));
      }
    } else if page < w.next {
      TotalAdd(w.free, Range(page, need));
    }
  }

  // ---- whole runs ---------------------------------------------------------------------------------------

  datatype PageOp =
    | DoAlloc(size: u64, alignment: u64)
    | DoReserve(size: u64, alignment: u64)
    | DoFree(addr: u64, size: u64)

  function Step(w: Window, op: PageOp): Window
  {
    match op
    case DoAlloc(n, a) => Alloc(w, n, a).w
    case DoReserve(n, a) => Reserve(w, n, a).w
    case DoFree(a, n) => Free(w, a, n)
  }

  /** What an operation does to the memory. */
  function SpaceAfter(w: Window, s: Space, op: PageOp): Space
  {
    match op
    case DoAlloc(n, a) => if AtFrontier(w, n, a) && Refused(w, Start(w, a), Need(n)) then s
      else Mapped(s, Alloc(w, n, a).addr, Need(n))
    case DoReserve(_, _) => s
    case DoFree(a, n) => if FreedBytes(a, n) == 0 then s else Unmapped(s, a / 0x1000 * 0x1000, FreedBytes(a, n))
  }

  function Run(w: Window, ops: seq<PageOp>): Window
  {
    if ops == [] then w else Step(Run(w, ops[..|ops| - 1]), ops[|ops| - 1])
  }

  ghost predicate OpFits(w: Window, op: PageOp)
  {
    match op
    case DoAlloc(n, a) => AlignmentOk(a) && AllocFits(w, n, a)
    case DoReserve(n, a) => AlignmentOk(a) && ReserveFits(w, n, a)
    case DoFree(a, n) => FreeFits(w, a, n)
  }

  /** A window with nothing handed out is sound, and stays so over any run of fitting operations. */
  lemma {:induction false} RunSound(base: u64, limit: u64, noReuse: bool, ops: seq<PageOp>)
    requires base > 0 && base % 0x1000 == 0
    requires forall k: nat | k < |ops| ::
               OpFits(Run(Window(base, base, limit, noReuse, [], map[], [], 0), ops[..k]), ops[k])
    ensures Sound(Run(Window(base, base, limit, noReuse, [], map[], [], 0), ops))
  {
    hide AllocFits, ReserveFits, FreeFits, Alloc, Reserve, Free, Sound;
    var w := Window(base, base, limit, noReuse, [], map[], [], 0);
    if ops == [] {
      EmptySound(w);
    } else {
      var n := |ops| - 1;
      forall k: nat | k < n ensures OpFits(Run(w, ops[..n][..k]), ops[..n][k]) {
        assert ops[..n][..k] == ops[..k];
      }
      RunSound(base, limit, noReuse, ops[..n]);
      var v := Run(w, ops[..n]);
      match ops[n] {
        case DoAlloc(s, a) => AllocExact(v, s, a);
        case DoReserve(s, a) => ReserveExact(v, s, a);
        case DoFree(a, s) => FreeExact(v, a, s);
      }
    }
  }

  lemma EmptySound(w: Window)
    requires w.base > 0 && w.base % 0x1000 == 0 && w.next == w.base && w.free == w.reserved == [] && w.live == map[]
             && w.gaps == 0
    ensures Sound(w)
  {
  }

  /** The largest size rounds up to nothing: the call succeeds and hands out no bytes. */
  lemma AllocLies()
    ensures var g := Alloc(Window(0x1000, 0x1000, 0x3000, false, [], map[], [], 0), 0xFFFF_FFFF_FFFF_FFFF, 0x1000);
            g.addr == 0x1000 && g.w.live == map[0x1000 := 0]
  {
  }

  /** A request that carries the sum past 2^64 is granted, and the frontier moves down. */
  lemma AllocWraps()
    ensures var g := Alloc(Window(0x2000, 0x2000, 0x9000, false, [], map[], [], 0), 0xFFFF_FFFF_FFFF_F000, 0x1000);
            g.addr == 0x2000 && g.w.next == 0x1000
  {
  }

  lemma RunMore(w: Window, ops: seq<PageOp>, op: PageOp)
    ensures Run(w, ops + [op]) == Step(Run(w, ops), op)
  {
    assert (ops + [op])[..|ops|] == ops;
  }

  lemma StepFree(w: Window, addr: u64, size: u64)
    requires addr % 0x1000 == 0 && size % 0x1000 == 0 && 0 < size < 0x1_0000 && addr < w.limit
    ensures addr in w.live && w.live[addr] <= size ==>
              Free(w, addr, size) == w.(free := w.free + [Range(addr, w.live[addr])], live := w.live - {addr})
    ensures addr !in w.live && addr < w.next ==> Free(w, addr, size) == w.(free := w.free + [Range(addr, size)])
  {
  }

  lemma StepReuse(w: Window, size: u64, i: nat)
    requires size % 0x1000 == 0 && size < 0x1_0000 && i < |w.free| && !w.noReuse && BestFit(w.free, size, |w.free|) == i
             && w.free[i].size == size
    ensures Alloc(w, size, 0x1000).w ==
              w.(free := w.free[..i] + w.free[i + 1..], live := w.live[w.free[i].base := size])
  {
  }

  /** Freeing the second page of an allocation, then all of it, lets two allocations share that page. */
  lemma PartialFreeShares()
    ensures var w := Run(Window(0x1000, 0x1000, 0x9000, false, [], map[], [], 0),
                         [DoAlloc(0x2000, 0x1000), DoFree(0x2000, 0x1000), DoFree(0x1000, 0x2000),
                          DoAlloc(0x1000, 0x1000), DoAlloc(0x2000, 0x1000)]);
            In(w, LiveAt(0x2000)) && In(w, LiveAt(0x1000))
              && !Apart(RangeOf(w, LiveAt(0x2000)), RangeOf(w, LiveAt(0x1000)))
  {
    hide Alloc, Free, Run;
    var w0 := Window(0x1000, 0x1000, 0x9000, false, [], map[], [], 0);
    var w1 := w0.(next := 0x3000, live := map[0x1000 := 0x2000]);
    FirstTaken(w0, w1);
    RunMore(w0, [], DoAlloc(0x2000, 0x1000));
    var o1 := [] + [DoAlloc(0x2000, 0x1000)];
    StepFree(w1, 0x2000, 0x1000);
    RunMore(w0, o1, DoFree(0x2000, 0x1000));
    var o2 := o1 + [DoFree(0x2000, 0x1000)];
    var w2 := w1.(free := [] + [Range(0x2000, 0x1000)]);
    StepFree(w2, 0x1000, 0x2000);
    RunMore(w0, o2, DoFree(0x1000, 0x2000));
    var o3 := o2 + [DoFree(0x1000, 0x2000)];
    var w3 := w2.(free := w2.free + [Range(0x1000, 0x2000)], live := w2.live - {0x1000});
    BestOfTwo(w3.free);
    StepReuse(w3, 0x1000, 0);
    RunMore(w0, o3, DoAlloc(0x1000, 0x1000));
    var o4 := o3 + [DoAlloc(0x1000, 0x1000)];
    var w4 := w3.(free := [Range(0x1000, 0x2000)], live := w3.live[0x2000 := 0x1000]);
    assert w3.free[..0] + w3.free[1..] == w4.free;
    BestOfOne(w4.free);
    StepReuse(w4, 0x2000, 0);
    RunMore(w0, o4, DoAlloc(0x2000, 0x1000));
    assert o4 + [DoAlloc(0x2000, 0x1000)] ==
           [DoAlloc(0x2000, 0x1000), DoFree(0x2000, 0x1000), DoFree(0x1000, 0x2000), DoAlloc(0x1000, 0x1000),
            DoAlloc(0x2000, 0x1000)];
  }

  lemma FirstTaken(w0: Window, w1: Window)
    requires w0 == Window(0x1000, 0x1000, 0x9000, false, [], map[], [], 0)
             && w1 == w0.(next := 0x3000, live := map[0x1000 := 0x2000])
    ensures Run(w0, []) == w0 && Alloc(w0, 0x2000, 0x1000).w == w1
  {
    assert w0.live[0x1000 := 0x2000] == w1.live;
  }

  lemma BestOfTwo(free: seq<Range>)
    requires free == [Range(0x2000, 0x1000), Range(0x1000, 0x2000)]
    ensures BestFit(free, 0x1000, 2) == 0
  {
    assert BestFit(free, 0x1000, 1) == 0;
  }

  lemma BestOfOne(free: seq<Range>)
    requires free == [Range(0x1000, 0x2000)]
    ensures BestFit(free, 0x2000, 1) == 0
  {
  }

  // ---- the allocator itself ---------------------------------------------------------------------------

  class Pages {
    const mem: G.Memory
    var next: u64
    var limit: u64
    var noReuse: bool
    var free: seq<Range>
    var live: map<u64, u64>
    ghost var base: nat
    ghost var reserved: seq<Range>
    ghost var gaps: int

    ghost function Now(): Window
      reads this
    {
      Window(base, next, limit, noReuse, free, live, reserved, gaps)
    }

    constructor (memory: G.Memory, start: u64, end: u64, monotonic: bool)
      ensures mem == memory && Now() == Window(start, start, end, monotonic, [], map[], [], 0)
    {
      mem, next, limit, noReuse, free, live := memory, start, end, monotonic, [], map[];
      base, reserved, gaps := start, [], 0;
    }

    method MoveFrontier(at: u64)
      modifies `next, `gaps
      ensures Now() == Advanced(old(Now()), at)
    {
      gaps := gaps + at - next;
      next := at;
    }

    /** alloc_pages() */
    method AllocPages(size: u64, alignment: u64, name: string) returns (addr: u64)
      requires mem.Valid() && AlignmentOk(alignment)
      modifies this, mem, mem.tlb, mem.tlbw
      ensures mem.Valid() && Grant(Now(), addr) == Alloc(old(Now()), size, alignment)
      ensures mem.Abs() == SpaceAfter(old(Now()), old(mem.Abs()), DoAlloc(size, alignment))
    {
      hide G.Memory.Valid, G.Memory.Abs, Mapped, PowerOfTwo, BestFit, Aligned;
      var need := Need(size);
      ChoiceIs(Now(), size, alignment);
      if alignment > 0x1000 {
        MoveFrontier(Aligned(next, alignment));
        addr := TakeFrontier(need, name);
        return;
      }
      var best := |free|;
      if !noReuse {
        best := FindBest(need);
      }
      if best < |free| {
        var r := free[best];
        addr := r.base;
        if r.size > need {
          free := free[best := Range(W.Wrap64(addr + need), r.size - need)];
        } else {
          free := free[..best] + free[best + 1..];
        }
        mem.Map(addr, need, name);
        live := live[addr := need];
        return;
      }
      addr := TakeFrontier(need, name);
    }

    /** The scan of the free list. */
    method FindBest(need: u64) returns (best: nat)
      ensures best == BestFit(free, need, |free|)
    {
      best := |free|;
      for i := 0 to |free|
        invariant best == BestFit(free, need, i)
      {
        if free[i].size >= need && (best == |free| || free[i].size < free[best].size) {
          best := i;
        }
      }
    }

    method TakeFrontier(need: u64, name: string) returns (addr: u64)
      requires mem.Valid()
      modifies this, mem, mem.tlb, mem.tlbw
      ensures mem.Valid() && base == old(base) && limit == old(limit) && noReuse == old(noReuse) && free == old(free)
              && reserved == old(reserved) && gaps == old(gaps)
      ensures if Refused(old(Now()), old(next), need)
                then addr == 0 && next == old(next) && live == old(live) && mem.Abs() == old(mem.Abs())
              else addr == old(next) && next == W.Wrap64(addr + need) && live == old(live)[addr := need]
                   && mem.Abs() == Mapped(old(mem.Abs()), addr, need)
    {
      hide G.Memory.Valid, G.Memory.Abs, Mapped;
      if W.Wrap64(next + need) > limit {
        return 0;
      }
      addr := next;
      next := W.Wrap64(next + need);
      mem.Map(addr, need, name);
      live := live[addr := need];
    }

    /** reserve_pages(): the address range alone; its pages appear when the guest commits them. */
    method ReservePages(size: u64, alignment: u64) returns (addr: u64)
      requires AlignmentOk(alignment)
      modifies this
      ensures Grant(Now(), addr) == Reserve(old(Now()), size, alignment)
    {
      hide PowerOfTwo, Aligned;
      var need := Need(size);
      var al := if alignment < 0x1000 then 0x1000 else alignment;
      MoveFrontier(Aligned(next, al));
      if W.Wrap64(next + need) > limit {
        return 0;
      }
      addr := next;
      next := W.Wrap64(next + need);
      reserved := reserved + [Range(addr, need)];
    }

    /** free_pages() */
    method FreePages(addr: u64, size: u64)
      requires mem.Valid()
      modifies this, mem, mem.tlb, mem.tlbw
      ensures mem.Valid() && Now() == Free(old(Now()), addr, size)
      ensures mem.Abs() == SpaceAfter(old(Now()), old(mem.Abs()), DoFree(addr, size))
    {
      hide G.Memory.Valid, G.Memory.Abs, Unmapped;
      var page: u64 := addr / 0x1000 * 0x1000;
      var need := W.Wrap64(W.Wrap64(size + (addr - page)) + 0xFFF) / 0x1000 * 0x1000;
      OffsetIs(addr);
      if need == 0 {
        return;
      }
      mem.Unmap(page, need);
      if page >= limit {
        return;
      }
      if page in live && live[page] <= need {
        free := free + [Range(page, live[page])];
        live := live - {page};
        return;
      }
      if page >= next {
        return;
      }
      free := free + [Range(page, need)];
    }
  }

  lemma OffsetIs(addr: u64)
    ensures addr - addr / 0x1000 * 0x1000 == addr % 0x1000
  {
  }
}
