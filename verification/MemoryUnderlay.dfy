/**
  What goes wrong when pages are mapped underneath a contiguous mapping, and exactly when it can
  be seen.
  */
module MemoryUnderlay {
  import opened Bytes
  import opened AddressSpace
  import opened FlatMemory
  import opened MemoryRuns

  // ---- whole runs -----------------------------------------------------------------------------------

  /** Every address is as the reference says. */
  ghost predicate Right(ops: seq<Op>) { forall x :: CellIs(Run(ops).flat, x, CellAfter(ops, x)) }

  predicate Accesses(ops: seq<Op>) { forall i | 0 <= i < |ops| :: Additive(ops[i]) && !ops[i].DoMap? }

  /** However the memory is read and written from here on, it stays as the reference says. */
  ghost predicate StaysRight(ops: seq<Op>) { forall more | Accesses(more) :: Right(ops + more) }

  /** It does so all along the run, and all along the runs of the memories cloned from. */
  ghost predicate AlwaysRight(ops: seq<Op>)
    decreases ops
  {
    StaysRight(ops) &&
    (ops != [] ==> AlwaysRight(ops[..|ops| - 1]) && (ops[|ops| - 1].DoClone? ==> AlwaysRight(ops[|ops| - 1].from)))
  }

  /** A run behaves as the reference all along exactly when it maps nothing under a contiguous mapping. */
  lemma {:induction false} UnderlayExact(ops: seq<Op>)
    ensures AlwaysRight(ops) <==> NoUnderlay(ops)
    decreases ops
  {
    hide StaysRight, Run, Extents';
    if ops != [] {
      var prev, op := ops[..|ops| - 1], ops[|ops| - 1];
      UnderlayExact(prev);
      if op.DoClone? {
        UnderlayExact(op.from);
      }
      assert prev + [op] == ops;
      if op.DoMap? && NoUnderlay(prev) {
        UnderlayShows(prev, op.addr, op.size);
      }
    }
    if NoUnderlay(ops) {
      PlainStaysRight(ops);
    }
  }

  /** One map() leaves memory right for every later access exactly when no contiguous mapping lies over it. */
  lemma UnderlayShows(ops: seq<Op>, a: nat, n: nat)
    requires NoUnderlay(ops)
    ensures StaysRight(ops + [DoMap(a, n)]) <==> NoUnderlay(ops + [DoMap(a, n)])
  {
    hide StaysRight, Run, Extents';
    var all := ops + [DoMap(a, n)];
    assert all[..|all| - 1] == ops && all[|all| - 1] == DoMap(a, n);
    if NoUnderlay(all) {
      PlainStaysRight(all);
    } else {
      var e, p :| e in Extents'(ops) && p in PagesOf(a, Walked(a, n)) && Covers(e, p);
      assert !StaysRight(all) by { HiddenShows(ops, a, n, e, p); }
    }
  }

  lemma PlainStaysRight(ops: seq<Op>)
    requires NoUnderlay(ops)
    ensures StaysRight(ops)
  {
    forall more | Accesses(more) ensures Right(ops + more) {
      AccessesPlain(ops, more);
      forall x: nat ensures CellIs(Run(ops + more).flat, x, CellAfter(ops + more, x)) {
        CellRight(ops + more, x);
      }
    }
  }

  lemma {:induction false} AccessesPlain(ops: seq<Op>, more: seq<Op>)
    requires NoUnderlay(ops) && Accesses(more)
    ensures NoUnderlay(ops + more)
    decreases |more|
  {
    hide Extents';
    if more == [] {
      assert ops + more == ops;
    } else {
      var before := more[..|more| - 1];
      AccessesPlain(ops, before);
      assert (ops + more)[..|ops + more| - 1] == ops + before && (ops + more)[|ops + more| - 1] == more[|more| - 1];
    }
  }

  /** A byte written to the hidden page is not overwritten by the page of zeros that follows. */
  lemma HiddenShows(ops: seq<Op>, a: nat, n: nat, e: Extent, p: nat)
    requires NoUnderlay(ops) && e in Extents'(ops) && p in PagesOf(a, Walked(a, n)) && Covers(e, p)
    ensures !StaysRight(ops + [DoMap(a, n)])
  {
    hide Run, Extents', CellAfter, Covers, PagesOf, OnPage;
    var all, more, x := ops + [DoMap(a, n)], [DoWrite(p * 4096, [1]), DoWrite(p * 4096, ZeroPage())], p * 4096;
    MappedUnder(ops, a, n, e, p);
    RunMore(all, more[0]);
    RunMore(all + [more[0]], more[1]);
    HiddenKeeps(Run(all), p);
    assert all + more == all + [more[0]] + [more[1]];
    assert CellAfter(all + more, x) == Present(0) by {
      CellWritten(all, x, [1]);
      CellWritten(all + [more[0]], x, ZeroPage());
    }
    assert !CellIs(Run(all + more).flat, x, CellAfter(all + more, x));
    assert !Right(all + more) && Accesses(more);
  }

  lemma RunMore(ops: seq<Op>, op: Op)
    ensures Run(ops + [op]) == Apply(Run(ops), op)
  {
    assert (ops + [op])[..|ops|] == ops;
  }

  lemma MappedUnder(ops: seq<Op>, a: nat, n: nat, e: Extent, p: nat)
    requires NoUnderlay(ops) && e in Extents'(ops) && p in PagesOf(a, Walked(a, n)) && Covers(e, p)
    ensures var s := Run(ops + [DoMap(a, n)]); p in s.flat && p in Shadowed(s.slots, s.extents)
    ensures CellAfter(ops + [DoMap(a, n)], p * 4096).Present?
  {
    hide Run, Extents', Covers, PagesOf, OnPage;
    RunMore(ops, DoMap(a, n));
    RunPlain(ops);
    CellRight(ops, p * 4096);
    assert Covered(Run(ops).extents, p);
    var all := ops + [DoMap(a, n)];
    assert all[..|all| - 1] == ops && all[|all| - 1] == DoMap(a, n);
  }

  lemma HiddenKeeps(s: Space, p: nat)
    requires p in s.flat && p in Shadowed(s.slots, s.extents)
    ensures var s1 := Apply(s, DoWrite(p * 4096, [1])); var s2 := Apply(s1, DoWrite(p * 4096, ZeroPage()));
            p in s2.flat && At(s2.flat, p * 4096) == 1
  {
    hide Shadowed, Skipped, StoredBut, Patched, Reach;
    var s1 := Apply(s, DoWrite(p * 4096, [1]));
    OnePageReach(s.flat, p, 1);
    assert [1][..1] == [1];
    OneWritten(s, p);
    OnePageReach(s1.flat, p, 4096);
    assert ZeroPage()[..4096] == ZeroPage();
    ZerosSkipped(s1, p);
  }

  lemma OneWritten(s: Space, p: nat)
    requires p in s.flat
    ensures var w := Written(s, p * 4096, [1]);
            p in w.flat && w.flat[p][0] == 1 && w.slots == s.slots && w.extents == s.extents
  {
    assert Skipped(Shadowed(s.slots, s.extents), p * 4096, [1]) == {};
  }

  lemma ZerosSkipped(s: Space, p: nat)
    requires p in s.flat && p in Shadowed(s.slots, s.extents)
    ensures var w := Written(s, p * 4096, ZeroPage()); p in w.flat && w.flat[p] == s.flat[p]
  {
    assert ZeroPage()[0..4096] == ZeroPage();
    assert Skips(p * 4096, ZeroPage(), p);
  }

  lemma OnePageReach(f: Flat, p: nat, n: nat)
    requires p in f && n <= 4096
    ensures Reach(f, p * 4096, n) == n
  {
    ReachAll(f, p * 4096, n);
  }

  lemma CellWritten(ops: seq<Op>, x: nat, src: seq<byte>)
    requires CellAfter(ops, x).Present? && src != []
    ensures CellAfter(ops + [DoWrite(x, src)], x) == Present(src[0])
  {
    var all := ops + [DoWrite(x, src)];
    LastWrite(all, ops, x, src);
  }

  lemma LastWrite(all: seq<Op>, ops: seq<Op>, x: nat, src: seq<byte>)
    requires all != [] && all[..|all| - 1] == ops && all[|all| - 1] == DoWrite(x, src)
    requires CellAfter(ops, x).Present? && src != []
    ensures CellAfter(all, x) == Present(src[0])
  {
    hide Extents', OnPage, Touches, Covers, RoundUp, RoundDown;
  }

  // ---- the two effects, one operation at a time ---------------------------------------------------------

  /** The skip can be seen exactly when a skipped page is shadowed and not already zero. */
  lemma SkipShows(s: Space, addr: nat, src: seq<byte>)
    ensures Written(s, addr, src).flat == Stored(s.flat, addr, src) <==>
            forall p | p in s.flat && p in Skipped(Shadowed(s.slots, s.extents), addr, src) :: s.flat[p] == ZeroPage()
  {
    var skip := Skipped(Shadowed(s.slots, s.extents), addr, src);
    var w, t := Written(s, addr, src).flat, Stored(s.flat, addr, src);
    forall p | p in s.flat ensures w[p] == t[p] <==> p !in skip || s.flat[p] == ZeroPage() {
      if p in skip {
        SkippedPatch(s.flat[p], p, addr, src);
      }
    }
    assert w == t <==> forall p | p in s.flat :: w[p] == t[p];
  }

  lemma SkippedPatch(pg: PageBytes, p: nat, addr: nat, src: seq<byte>)
    requires Skips(addr, src, p)
    ensures Patched(pg, p, addr, src) == ZeroPage()
  {
    var at := p * 4096 - addr;
    var t := Patched(pg, p, addr, src);
    forall i | 0 <= i < 4096 ensures t[i] == 0 {
      assert src[at..at + 4096][i] == src[at + i];
    }
  }

  /** Contiguous mappings of whole pages, no page under two of them. */
  ghost predicate Tiled(s: Space)
  {
    Consistent(s) && Aligned(s.extents)
    && forall e, f, p: nat | e in s.extents && f in s.extents && Covers(e, p) && Covers(f, p) :: e == f
  }

  /** A page comes back out of an unmap() exactly when a mapping dropped whole was hiding a slot beyond the range. */
  lemma UnmapShows(s: Space, addr: nat, size: nat)
    requires Tiled(s)
    ensures (forall p: nat ::
               p in Unmapped(s, addr, size).flat <==> p in s.flat && !Gone(s.extents, addr, size, p)) <==>
            forall p: nat | p in Shadowed(s.slots, s.extents) && Gone(s.extents, addr, size, p) ::
              OnPage(p, addr, Walked(addr, size))
  {
    forall p: nat
      ensures (p in Unmapped(s, addr, size).flat <==> p in s.flat && !Gone(s.extents, addr, size, p)) <==>
              (p in Shadowed(s.slots, s.extents) && Gone(s.extents, addr, size, p) ==>
               OnPage(p, addr, Walked(addr, size)))
    {
      UnmapPage(s, addr, size, p);
    }
  }

  lemma UnmapPage(s: Space, addr: nat, size: nat, p: nat)
    requires Tiled(s)
    ensures (p in Unmapped(s, addr, size).flat <==> p in s.flat && !Gone(s.extents, addr, size, p)) <==>
            (p in Shadowed(s.slots, s.extents) && Gone(s.extents, addr, size, p) ==>
             OnPage(p, addr, Walked(addr, size)))
  {
    if e :| e in s.extents && Covers(e, p) {
      assert Covered(Kept(s, addr, size), p) <==> e in Kept(s, addr, size);
    }
  }

  // ---- a concrete run ---------------------------------------------------------------------------------

  const SPAN: seq<Op> := [DoContiguous(0, 8192)]

  const UNDERLAY: seq<Op> := SPAN + [DoMap(0, 4096)]

  lemma SpanMade()
    ensures NoUnderlay(SPAN) && Extents'(SPAN) == {Extent(0, 8192)} && 0 in PagesOf(0, 4096)
            && Covers(Extent(0, 8192), 0)
  {
    assert SPAN[..0] == [];
    assert Extents'([]) == {};
  }

  /** Mapping underneath a contiguous mapping makes a later write of zeros disappear. */
  lemma UnderlayLosesZeros()
    ensures var ops := UNDERLAY + [DoWrite(0, [1])] + [DoWrite(0, ZeroPage())];
            CellAfter(ops, 0) == Present(0) && CellIs(Run(ops).flat, 0, Present(1))
  {
    hide Run, CellAfter, Extents';
    SpanMade();
    MappedUnder(SPAN, 0, 4096, Extent(0, 8192), 0);
    RunMore(UNDERLAY, DoWrite(0, [1]));
    RunMore(UNDERLAY + [DoWrite(0, [1])], DoWrite(0, ZeroPage()));
    HiddenKeeps(Run(UNDERLAY), 0);
    CellWritten(UNDERLAY, 0, [1]);
    CellWritten(UNDERLAY + [DoWrite(0, [1])], 0, ZeroPage());
  }

  /** It makes the page come back when the mapping is dropped by its other end. */
  lemma UnderlayReturns()
    ensures var ops := UNDERLAY + [DoUnmap(4096, 4096)];
            CellAfter(ops, 0) == Absent && 0 in Run(ops).flat
  {
    hide Run, Contiguous;
    SpanMade();
    MappedUnder(SPAN, 0, 4096, Extent(0, 8192), 0);
    var ops := UNDERLAY + [DoUnmap(4096, 4096)];
    RunMore(UNDERLAY, DoUnmap(4096, 4096));
    assert ops[..|ops| - 1] == UNDERLAY && UNDERLAY[..|UNDERLAY| - 1] == SPAN;
    var e := Extent(0, 8192);
    assert Extents'(UNDERLAY) == Extents'(SPAN);
    assert e in Extents'(UNDERLAY) && Covers(e, 0) && Touches(e, 4096, 4096);
    assert Gone(Extents'(UNDERLAY), 4096, 4096, 0);
  }
}
