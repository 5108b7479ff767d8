/** The repeated string instructions that are not memmove: MOVS into its own path, STOS and LODS. */
module StringFills {
  import opened Bytes
  import opened Alu
  import opened AddressSpace
  import opened FlatMemory
  import opened Cpu
  import opened StringOps
  import W = WideMath

  // ---- MOVS into its own path -----------------------------------------------------------------------

  /** Going over a range by steps of d: the remainder after s more. */
  lemma RestStep(k: nat, s: nat, d: nat)
    requires s <= d && d > 0
    ensures (k + s) % d == if k % d + s < d then k % d + s else k % d + s - d
  {
    var q, r := k / d, k % d;
    if r + s < d {
      W.DivIs(k + s, d, q, r + s);
    } else {
      assert d * (q + 1) == d * q + d;
      W.DivIs(k + s, d, q + 1, r + s - d);
    }
  }

  /**
    Where the byte at x comes from when [src, src+len) goes up to dst, above src: the first dst - src bytes
    over and over.
    */
  function FromBelow(src: nat, dst: nat, x: nat): nat
    requires src < dst <= x
  {
    src + (x - dst) % (dst - src)
  }

  /** The same downward, to dst below src: the last src - dst bytes over and over. */
  function FromAbove(src: nat, dst: nat, len: nat, x: nat): (y: int)
    requires dst < src && dst <= x < dst + len
  {
    src + len - 1 - (dst + len - 1 - x) % (src - dst)
  }

  ghost predicate FilledUp(f: Flat, g: Flat, src: nat, dst: nat, len: nat)
    requires src < dst
  {
    g.Keys == f.Keys && forall x: nat :: UpAt(f, g, src, dst, len, x)
  }

  predicate UpAt(f: Flat, g: Flat, src: nat, dst: nat, len: nat, x: nat)
    requires src < dst && g.Keys == f.Keys
  {
    x / 4096 in f ==>
      if dst <= x < dst + len then FromBelow(src, dst, x) / 4096 in f && At(g, x) == At(f, FromBelow(src, dst, x))
      else At(g, x) == At(f, x)
  }

  ghost predicate FilledDown(f: Flat, g: Flat, src: nat, dst: nat, len: nat)
    requires dst < src
  {
    g.Keys == f.Keys && forall x: nat :: DownAt(f, g, src, dst, len, x)
  }

  predicate DownAt(f: Flat, g: Flat, src: nat, dst: nat, len: nat, x: nat)
    requires dst < src && g.Keys == f.Keys
  {
    x / 4096 in f ==>
      if dst <= x < dst + len then
        FromAbove(src, dst, len, x) >= 0 && FromAbove(src, dst, len, x) / 4096 in f
        && At(g, x) == At(f, FromAbove(src, dst, len, x))
      else At(g, x) == At(f, x)
  }

  /** Where a byte comes from when an element more is copied: from where it did, or from the new element. */
  lemma BelowStep(src: nat, dst: nat, s: nat, rest: nat, x: nat)
    requires s > 0 && src + s <= dst && dst + s <= x < dst + s + rest
    ensures var y, y' := FromBelow(src + s, dst + s, x), FromBelow(src, dst, x);
            && src <= y' < src + s + rest && y < dst + s
            && y' == if dst <= y then y - dst + src else y
  {
    var k, d: nat := x - dst - s, dst - src;
    RestStep(k, s, d);
    RestBound(k, d);
    RestBound(k + s, d);
  }

  lemma BelowFirst(src: nat, dst: nat, s: nat, x: nat)
    requires s > 0 && src + s <= dst <= x < dst + s
    ensures FromBelow(src, dst, x) == x - dst + src
  {
    W.DivIs(x - dst, dst - src, 0, x - dst);
  }

  /** The first element copied, and then the rest from there. */
  lemma FillUpStep(f: Flat, g: Flat, src: nat, dst: nat, s: nat, rest: nat)
    requires s > 0 && src + s <= dst && AllMapped(f, src, s + rest) && AllMapped(f, src, s)
             && AllMapped(f, dst, s + rest)
    requires FilledUp(Stored(f, dst, Loaded(f, src, s)), g, src + s, dst + s, rest)
    ensures FilledUp(f, g, src, dst, s + rest)
  {
    hide Stored, Loaded, AllMapped, FromBelow;
    var b, len := Loaded(f, src, s), s + rest;
    SameKeys(f, dst, b);
    assert g.Keys == f.Keys;
    forall x: nat ensures UpAt(f, g, src, dst, len, x) {
      assert UpAt(Stored(f, dst, b), g, src + s, dst + s, rest, x);
      StoredAt(f, dst, b, x);
      if x / 4096 in f && dst <= x < dst + s {
        BelowFirst(src, dst, s, x);
        LoadedIs(f, src, s, x - dst);
      } else if x / 4096 in f && dst + s <= x < dst + len {
        var y := FromBelow(src + s, dst + s, x);
        BelowStep(src, dst, s, rest, x);
        StoredAt(f, dst, b, y);
        MappedAt(f, src, len, FromBelow(src, dst, x));
        if dst <= y {
          LoadedIs(f, src, s, y - dst);
        }
      }
    }
  }

  lemma RestBound(k: nat, d: nat)
    requires d > 0
    ensures k % d < d && k % d <= k
  {
    assert k == d * (k / d) + k % d;
  }

  lemma SameKeys(f: Flat, a: nat, b: seq<byte>)
    ensures Stored(f, a, b).Keys == f.Keys
  {
  }

  lemma MappedAt(f: Flat, a: nat, n: nat, x: nat)
    requires AllMapped(f, a, n) && a <= x < a + n
    ensures x / 4096 in f
  {
    assert x / 4096 in PagesOf(a, n);
  }

  /** Where a byte comes from when an element more is copied: from where it did, or from the new element. */
  lemma AboveStep(src: nat, dst: nat, s: nat, rest: nat, x: nat)
    requires s > 0 && dst + s <= src && dst <= x < dst + rest
    ensures var y, y' := FromAbove(src, dst, rest, x), FromAbove(src, dst, rest + s, x);
            && src <= y' < src + rest + s && dst + rest <= y
            && y' == if y < dst + rest + s then y + src - dst else y
  {
    var k, d := dst + rest - 1 - x, src - dst;
    RestStep(k, s, d);
    RestBound(k, d);
    RestBound(k + s, d);
  }

  lemma AboveLast(src: nat, dst: nat, s: nat, rest: nat, x: nat)
    requires s > 0 && dst + s <= src && dst + rest <= x < dst + rest + s
    ensures FromAbove(src, dst, rest + s, x) == x + src - dst
  {
    var j: nat := dst + rest + s - 1 - x;
    W.DivIs(j, src - dst, 0, j);
  }

  /** The last element copied, and then those below it. */
  lemma FillDownStep(f: Flat, g: Flat, src: nat, dst: nat, s: nat, rest: nat)
    requires s > 0 && dst + s <= src && AllMapped(f, src, rest + s) && AllMapped(f, src + rest, s)
             && AllMapped(f, dst, rest + s)
    requires FilledDown(Stored(f, dst + rest, Loaded(f, src + rest, s)), g, src, dst, rest)
    ensures FilledDown(f, g, src, dst, rest + s)
  {
    hide Stored, Loaded, AllMapped, FromAbove;
    var b, len := Loaded(f, src + rest, s), rest + s;
    SameKeys(f, dst + rest, b);
    assert g.Keys == f.Keys;
    forall x: nat ensures DownAt(f, g, src, dst, len, x) {
      assert DownAt(Stored(f, dst + rest, b), g, src, dst, rest, x);
      StoredAt(f, dst + rest, b, x);
      if x / 4096 in f && dst + rest <= x < dst + len {
        AboveLast(src, dst, s, rest, x);
        LoadedIs(f, src + rest, s, x - dst - rest);
      } else if x / 4096 in f && dst <= x < dst + rest {
        var y := FromAbove(src, dst, rest, x);
        AboveStep(src, dst, s, rest, x);
        StoredAt(f, dst + rest, b, y);
        MappedAt(f, src, len, FromAbove(src, dst, len, x));
        if y < dst + len {
          LoadedIs(f, src + rest, s, y - dst - rest);
        }
      }
    }
  }

  lemma NothingFilled(f: Flat, src: nat, dst: nat)
    ensures src < dst ==> FilledUp(f, f, src, dst, 0)
    ensures dst < src ==> FilledDown(f, f, src, dst, 0)
  {
  }

  lemma PassedNothing(fm: Form, m: Machine)
    requires FormOk(fm) && (fm.rep || fm.repne) && Counter(m.regs, fm.asize) == 0
    ensures Repeat(fm, m) == Done(m) && MovedOn(fm, m, m, 0) && Span(0, fm.size) == 0
  {
    hide Element, Repeat, W.Wrap64, RegRead;
    RepeatStep(fm, m);
    PtrStep(m.regs[RSI], m.flags.df, fm.size, 0);
    PtrStep(m.regs[RDI], m.flags.df, fm.size, 0);
  }

  lemma PassedNext(fm: Form, m: Machine, c: Machine, o: Machine, n: nat)
    requires FormOk(fm) && n > 0 && c.flags == m.flags && MovedOn(fm, c, o, n - 1)
    requires c.regs[RSI] == W.Wrap64(if m.flags.df then m.regs[RSI] as int - fm.size else m.regs[RSI] + fm.size)
    requires c.regs[RDI] == W.Wrap64(if m.flags.df then m.regs[RDI] as int - fm.size else m.regs[RDI] + fm.size)
    requires forall i | 0 <= i < 16 && i != RCX && i != RSI && i != RDI :: c.regs[i] == m.regs[i]
    ensures MovedOn(fm, m, o, n)
  {
    hide W.Wrap64, RegRead, Span;
    PtrStep(m.regs[RSI], m.flags.df, fm.size, n - 1);
    PtrStep(m.regs[RDI], m.flags.df, fm.size, n - 1);
  }

  /** Upward into its own path, by at least an element: the bytes between source and destination, over and over. */
  lemma {:induction false} MovsFillsUp(fm: Form, m: Machine, src: nat, dst: nat, n: nat)
    requires FormOk(fm) && fm.op.Movs? && (fm.rep || fm.repne) && !m.flags.df && Counter(m.regs, fm.asize) == n
    requires n > 0 ==> src == Addr(m.regs[RSI], fm.asize) && dst == Addr(m.regs[RDI], fm.asize)
    requires dst + Span(n, fm.size) <= Room(fm.asize) && src + fm.size <= dst
    requires AllMapped(m.flat, src, Span(n, fm.size)) && AllMapped(m.flat, dst, Span(n, fm.size))
    ensures Repeat(fm, m).Done? && FilledUp(m.flat, Repeat(fm, m).m.flat, src, dst, Span(n, fm.size))
            && MovedOn(fm, m, Repeat(fm, m).m, n)
    decreases n
  {
    hide Element, Stored, Loaded, Repeat, AllMapped, W.Wrap64, RegRead, Addr, Room, Span, Counted, MovedOn, FilledUp;
    var s := fm.size;
    if n == 0 {
      PassedNothing(fm, m);
      NothingFilled(m.flat, src, dst);
    } else {
      var rest := Span(n - 1, s);
      SpanStep(n, s);
      MappedParts(m.flat, dst, s, rest, dst, []);
      MappedParts(m.flat, src, s, rest, dst, []);
      var b := Loaded(m.flat, src, s);
      MappedParts(m.flat, dst, s, rest, dst, b);
      MappedParts(m.flat, src, s, rest, dst, b);
      MovsTurn(fm, m);
      var c := Counted(Element(fm, m).m, fm);
      if n > 1 {
        SpanStep(n - 1, s);
        AddrMoved(m.regs[RSI], s, fm.asize);
        AddrMoved(m.regs[RDI], s, fm.asize);
      }
      MovsFillsUp(fm, c, src + s, dst + s, n - 1);
      FillUpStep(m.flat, Repeat(fm, m).m.flat, src, dst, s, rest);
      PassedNext(fm, m, c, Repeat(fm, m).m, n);
    }
  }

  /**
    Downward into its own path, by at least an element: the last bytes between destination and source, over
    and over.
    */
  lemma {:induction false} MovsFillsDown(fm: Form, m: Machine, src: nat, dst: nat, n: nat)
    requires FormOk(fm) && fm.op.Movs? && (fm.rep || fm.repne) && m.flags.df && Counter(m.regs, fm.asize) == n
    requires n > 0 ==>
               Addr(m.regs[RSI], fm.asize) == src + Span(n - 1, fm.size)
                 && Addr(m.regs[RDI], fm.asize) == dst + Span(n - 1, fm.size)
    requires src + Span(n, fm.size) <= Room(fm.asize) && dst + fm.size <= src
    requires AllMapped(m.flat, src, Span(n, fm.size)) && AllMapped(m.flat, dst, Span(n, fm.size))
    ensures Repeat(fm, m).Done? && FilledDown(m.flat, Repeat(fm, m).m.flat, src, dst, Span(n, fm.size))
            && MovedOn(fm, m, Repeat(fm, m).m, n)
    decreases n
  {
    hide Element, Stored, Loaded, Repeat, AllMapped, W.Wrap64, RegRead, Addr, Room, Span, Counted, MovedOn, FilledDown;
    var s := fm.size;
    if n == 0 {
      PassedNothing(fm, m);
      NothingFilled(m.flat, src, dst);
    } else {
      var rest := Span(n - 1, s);
      SpanStep(n, s);
      MappedParts(m.flat, dst, rest, s, dst, []);
      MappedParts(m.flat, src, rest, s, dst, []);
      var b := Loaded(m.flat, src + rest, s);
      MappedParts(m.flat, dst, rest, s, dst + rest, b);
      MappedParts(m.flat, src, rest, s, dst + rest, b);
      MovsTurn(fm, m);
      var c := Counted(Element(fm, m).m, fm);
      if n > 1 {
        SpanStep(n - 1, s);
        AddrMoved(m.regs[RSI], 0 - s as int, fm.asize);
        AddrMoved(m.regs[RDI], 0 - s as int, fm.asize);
      }
      MovsFillsDown(fm, c, src, dst, n - 1);
      FillDownStep(m.flat, Repeat(fm, m).m.flat, src, dst, s, rest);
      PassedNext(fm, m, c, Repeat(fm, m).m, n);
    }
  }

  // ---- STOS -----------------------------------------------------------------------------------------

  /** n copies of b. */
  function Copies(b: seq<byte>, n: nat): (s: seq<byte>)
    ensures |s| == Span(n, |b|)
  {
    if n == 0 then [] else
    SpanStep(n, |b|);
    b + Copies(b, n - 1)
  }

  lemma {:induction false} CopiesBack(b: seq<byte>, n: nat)
    ensures Copies(b, n) + b == b + Copies(b, n)
  {
    if n == 0 {
      assert Copies(b, 0) == [];
    } else {
      CopiesBack(b, n - 1);
      assert b + Copies(b, n - 1) + b == b + (Copies(b, n - 1) + b);
    }
  }

  /** What STOS stores. */
  function Stuff(fm: Form, m: Machine): (b: seq<byte>)
    requires FormOk(fm)
    ensures |b| == fm.size
  {
    ToLE(RegRead(m.regs, fm.rex, RAX, fm.size), fm.size)
  }

  /** The state after one element of a repeated STOS. */
  lemma StosTurn(fm: Form, m: Machine)
    requires FormOk(fm) && fm.op.Stos? && (fm.rep || fm.repne) && Counter(m.regs, fm.asize) > 0
    requires AllMapped(m.flat, Addr(m.regs[RDI], fm.asize), fm.size)
    ensures var c := Counted(Element(fm, m).m, fm);
            && Element(fm, m).Done? && Repeat(fm, m) == Repeat(fm, c) && c.flags == m.flags
            && Stuff(fm, c) == Stuff(fm, m)
            && Counter(c.regs, fm.asize) == Counter(m.regs, fm.asize) - 1
            && c.flat == Stored(m.flat, Addr(m.regs[RDI], fm.asize), Stuff(fm, m))
            && c.regs[RDI] == W.Wrap64(if m.flags.df then m.regs[RDI] as int - fm.size else m.regs[RDI] + fm.size)
            && forall i | 0 <= i < 16 && i != RCX && i != RDI :: c.regs[i] == m.regs[i]
  {
    hide Stored, Repeat, AllMapped, W.Wrap64, Masked, Reach, ToLE;
    RepeatStep(fm, m);
    StosElement(fm, m);
    CountedIs(Element(fm, m).m, fm, true);
    WriteRead(Element(fm, m).m.regs, true, RCX, fm.asize, Counter(m.regs, fm.asize) - 1);
  }

  lemma StosElement(fm: Form, m: Machine)
    requires FormOk(fm) && fm.op.Stos? && AllMapped(m.flat, Addr(m.regs[RDI], fm.asize), fm.size)
    ensures Element(fm, m) ==
              Done(Machine(Moved(m.regs, RDI, m.flags.df, fm.size), m.flags,
                           Stored(m.flat, Addr(m.regs[RDI], fm.asize), Stuff(fm, m))))
  {
    hide Stored, Reach, AllMapped, RegRead, ToLE;
    ReachAll(m.flat, Addr(m.regs[RDI], fm.asize), fm.size);
    assert Stuff(fm, m)[..fm.size] == Stuff(fm, m);
  }

  /** Every element of [dst, dst+len) filled, the pointer n elements on, the count used up, and nothing else changed. */
  predicate Fills(fm: Form, m: Machine, o: Outcome, dst: nat, n: nat)
    requires FormOk(fm)
  {
    && o.Done? && o.m.flat == Stored(m.flat, dst, Copies(Stuff(fm, m), n)) && Counter(o.m.regs, fm.asize) == 0
    && o.m.flags == m.flags
    && o.m.regs[RDI] == PtrAt(m.regs[RDI], m.flags.df, fm.size, n)
    && forall i | 0 <= i < 16 && i != RCX && i != RDI :: o.m.regs[i] == m.regs[i]
  }

  /** REP STOS of n elements, in either direction, fills the range whose first or last element RDI names. */
  lemma {:induction false} StosFills(fm: Form, m: Machine, dst: nat, n: nat)
    requires FormOk(fm) && fm.op.Stos? && (fm.rep || fm.repne) && Counter(m.regs, fm.asize) == n
    requires n > 0 ==> Addr(m.regs[RDI], fm.asize) == dst + if m.flags.df then Span(n - 1, fm.size) else 0
    requires dst + Span(n, fm.size) <= Room(fm.asize) && AllMapped(m.flat, dst, Span(n, fm.size))
    ensures Fills(fm, m, Repeat(fm, m), dst, n)
    decreases n
  {
    hide Element, Stored, Repeat, AllMapped, W.Wrap64, RegRead, Addr, Room, Span, Counted, Stuff;
    var s, b := fm.size, Stuff(fm, m);
    PtrStep(m.regs[RDI], m.flags.df, s, if n == 0 then 0 else n - 1);
    if n == 0 {
      RepeatStep(fm, m);
      StoredNone(m.flat, dst);
    } else {
      var rest := Span(n - 1, s);
      SpanStep(n, s);
      var at := if m.flags.df then dst + rest else dst;
      if m.flags.df {
        MappedParts(m.flat, dst, rest, s, at, b);
      } else {
        MappedParts(m.flat, dst, s, rest, at, b);
      }
      StosTurn(fm, m);
      var c := Counted(Element(fm, m).m, fm);
      if n > 1 {
        SpanStep(n - 1, s);
        AddrMoved(m.regs[RDI], if m.flags.df then 0 - s as int else s, fm.asize);
      }
      StosFills(fm, c, if m.flags.df then dst else dst + s, n - 1);
      CopiesBack(b, n - 1);
      StoredBoth(m.flat, dst, b, Copies(b, n - 1));
      StoredBoth(m.flat, dst, Copies(b, n - 1), b);
    }
  }

  // ---- LODS -----------------------------------------------------------------------------------------

  /** Element i of a repeated LODS. */
  function Item(fm: Form, m: Machine, i: nat): Fetched
    requires FormOk(fm)
  {
    Fetch(m.flat, Addr(PtrAt(m.regs[RSI], m.flags.df, fm.size, i), fm.asize), fm.size)
  }

  /** Repeated, LODS leaves the last element in the accumulator, and memory and flags alone. */
  predicate Loads(fm: Form, m: Machine, o: Outcome, n: nat)
    requires FormOk(fm) && n > 0 && Item(fm, m, n - 1).Got?
  {
    && o.Done? && o.m.flat == m.flat && o.m.flags == m.flags && Counter(o.m.regs, fm.asize) == 0
    && RegRead(o.m.regs, fm.rex, RAX, fm.size) == Item(fm, m, n - 1).v
    && o.m.regs[RSI] == PtrAt(m.regs[RSI], m.flags.df, fm.size, n)
    && forall i | 0 <= i < 16 && i != RAX && i != RCX && i != RSI :: o.m.regs[i] == m.regs[i]
  }

  lemma LodsTurn(fm: Form, m: Machine)
    requires FormOk(fm) && fm.op.Lods? && (fm.rep || fm.repne) && Counter(m.regs, fm.asize) > 0 && Item(fm, m, 0).Got?
    ensures var c := Counted(Element(fm, m).m, fm);
            && Element(fm, m).Done? && Repeat(fm, m) == Repeat(fm, c) && c.flat == m.flat && c.flags == m.flags
            && Counter(c.regs, fm.asize) == Counter(m.regs, fm.asize) - 1
            && RegRead(c.regs, fm.rex, RAX, fm.size) == Item(fm, m, 0).v
            && c.regs[RSI] == W.Wrap64(if m.flags.df then m.regs[RSI] as int - fm.size else m.regs[RSI] + fm.size)
            && forall i | 0 <= i < 16 && i != RAX && i != RCX && i != RSI :: c.regs[i] == m.regs[i]
  {
    hide Repeat, W.Wrap64, Masked, Fetch;
    RepeatStep(fm, m);
    PtrStep(m.regs[RSI], m.flags.df, fm.size, 0);
    ItemFits(fm, m, 0);
    WriteRead(m.regs, fm.rex, RAX, fm.size, Item(fm, m, 0).v);
    CountedIs(Element(fm, m).m, fm, true);
    WriteRead(Element(fm, m).m.regs, true, RCX, fm.asize, Counter(m.regs, fm.asize) - 1);
  }

  lemma ItemFits(fm: Form, m: Machine, i: nat)
    requires FormOk(fm) && Item(fm, m, i).Got?
    ensures Masked(Item(fm, m, i).v, fm.size) == Item(fm, m, i).v
  {
    FetchedFits(Loaded(m.flat, Addr(PtrAt(m.regs[RSI], m.flags.df, fm.size, i), fm.asize), fm.size), fm.size);
    MaskBelow(Item(fm, m, i).v, fm.size);
  }

  /** REP LODS over n elements that can all be read. */
  lemma {:induction false} LodsLoads(fm: Form, m: Machine, n: nat)
    requires FormOk(fm) && fm.op.Lods? && (fm.rep || fm.repne) && Counter(m.regs, fm.asize) == n > 0
    requires forall i | 0 <= i < n :: Item(fm, m, i).Got?
    ensures Loads(fm, m, Repeat(fm, m), n)
    decreases n
  {
    hide Element, Repeat, W.Wrap64, RegRead, Fetch, Counted, PtrAt, Addr;
    assert Item(fm, m, 0).Got?;
    LodsTurn(fm, m);
    var c := Counted(Element(fm, m).m, fm);
    PtrStep(m.regs[RSI], m.flags.df, fm.size, n - 1);
    if n == 1 {
      RepeatStep(fm, c);
      PtrStep(c.regs[RSI], m.flags.df, fm.size, 0);
    } else {
      forall i | 0 <= i < n - 1 ensures Item(fm, c, i) == Item(fm, m, i + 1) {
        PtrStep(m.regs[RSI], m.flags.df, fm.size, i);
      }
      LodsLoads(fm, c, n - 1);
    }
  }
}
