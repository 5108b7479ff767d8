/** The function table, and the loop that walks a stack of frames. */
module StackWalk {
  import opened Bytes
  import opened Wrappers
  import opened Unwinder
  import opened UnwindCodes
  import opened Prologue
  import opened FrameUnwind

  /** A loaded image: where it lies, and its table of RUNTIME_FUNCTION records. */
  datatype Image = Image(base: u64, size: nat, table: u64, tableSize: nat)

  datatype Lookup = Faulted | NoEntry | Found(image: u64, entry: u64)

  function Record(table: nat, i: nat): nat { table + i * 12 }

  /** The search, from the interval it has got to. */
  function Search(m: Mem, image: u64, table: nat, lo: nat, hi: nat, rva: nat): Lookup
    requires table + hi * 12 <= 0x1_0000_0000_0000_0000
    decreases hi - lo
  {
    if lo >= hi then NoEntry
    else
      var mid := lo + (hi - lo) / 2;
      var begin, end := Read(m, Record(table, mid), 4), Read(m, Record(table, mid) + 4, 4);
      if begin.None? || end.None? then Faulted
      else if rva < begin.value then Search(m, image, table, lo, mid, rva)
      else if rva >= end.value then Search(m, image, table, mid + 1, hi, rva)
      else Found(image, Record(table, mid))
  }

  predicate Holds(g: Image, pc: u64) { g.base <= pc < g.base + g.size }

  predicate ImageOk(g: Image) { g.table + g.tableSize <= 0x1_0000_0000_0000_0000 }

  function LookIn(m: Mem, g: Image, pc: u64): Lookup
    requires ImageOk(g)
  {
    if g.table == 0 || g.tableSize == 0 then NoEntry
    else Search(m, g.base, g.table, 0, g.tableSize / 12, (pc - g.base) % 0x1_0000_0000)
  }

  /** The first image that holds pc decides. */
  function LookFor(m: Mem, gs: seq<Image>, pc: u64): Lookup
    requires forall i | 0 <= i < |gs| :: ImageOk(gs[i])
  {
    if gs == [] then NoEntry else if Holds(gs[0], pc) then LookIn(m, gs[0], pc) else LookFor(m, gs[1..], pc)
  }

  method LookupFunctionEntry(m: Mem, gs: seq<Image>, pc: u64) returns (r: Lookup)
    requires forall i | 0 <= i < |gs| :: ImageOk(gs[i])
    ensures r == LookFor(m, gs, pc)
  {
    hide LookIn, Holds;
    var k := 0;
    while k < |gs| && !Holds(gs[k], pc)
      invariant k <= |gs| && LookFor(m, gs[k..], pc) == LookFor(m, gs, pc)
    {
      k := k + 1;
    }
    if k == |gs| {
      return NoEntry;
    }
    r := SearchTable(m, gs[k], pc);
  }

  method SearchTable(m: Mem, g: Image, pc: u64) returns (r: Lookup)
    requires ImageOk(g)
    ensures r == LookIn(m, g, pc)
  {
    hide Read;
    if g.table == 0 || g.tableSize == 0 {
      return NoEntry;
    }
    var rva := (pc - g.base) % 0x1_0000_0000;
    var lo, hi := 0, g.tableSize / 12;
    ghost var goal := Search(m, g.base, g.table, lo, hi, rva);
    while lo < hi
      invariant 0 <= lo <= hi <= g.tableSize / 12
      invariant Search(m, g.base, g.table, lo, hi, rva) == goal
      decreases hi - lo
    {
      var mid := lo + (hi - lo) / 2;
      var begin, end := Read(m, Record(g.table, mid), 4), Read(m, Record(g.table, mid) + 4, 4);
      if begin.None? || end.None? {
        return Faulted;
      }
      if rva < begin.value {
        hi := mid;
      } else if rva >= end.value {
        lo := mid + 1;
      } else {
        return Found(g.base, Record(g.table, mid));
      }
    }
    r := NoEntry;
  }

  /** Record i of the table covers [begin, end). */
  ghost predicate Covers(m: Mem, table: nat, i: nat, rva: nat)
  {
    var begin, end := Read(m, Record(table, i), 4), Read(m, Record(table, i) + 4, 4);
    begin.Some? && end.Some? && begin.value <= rva < end.value
  }

  ghost predicate NoneCovers(m: Mem, table: nat, count: nat, rva: nat) {
    forall i | 0 <= i < count :: !Covers(m, table, i, rva)
  }

  /** A table the linker wrote: readable, and its functions in increasing order without overlap. */
  ghost predicate TableOk(m: Mem, table: nat, count: nat)
  {
    && (forall i | 0 <= i < count :: Read(m, Record(table, i), 4).Some? && Read(m, Record(table, i) + 4, 4).Some?)
    && (forall i | 0 <= i < count :: Read(m, Record(table, i), 4).value <= Read(m, Record(table, i) + 4, 4).value)
    && (forall i, j | 0 <= i < j < count ::
        Read(m, Record(table, i) + 4, 4).value <= Read(m, Record(table, j), 4).value)
  }

  /** Only records from lo to hi can cover the address. */
  ghost predicate Within(m: Mem, table: nat, count: nat, lo: nat, hi: nat, rva: nat)
  {
    forall i | 0 <= i < count && Covers(m, table, i, rva) :: lo <= i < hi
  }

  /** Comparing with one record rules out those on the other side of it. */
  lemma Narrowed(m: Mem, table: nat, count: nat, lo: nat, hi: nat, mid: nat, rva: nat)
    requires TableOk(m, table, count) && lo <= mid < hi <= count && Within(m, table, count, lo, hi, rva)
    ensures Read(m, Record(table, mid), 4).Some? && Read(m, Record(table, mid) + 4, 4).Some?
    ensures rva < Read(m, Record(table, mid), 4).value ==> Within(m, table, count, lo, mid, rva)
    ensures rva >= Read(m, Record(table, mid) + 4, 4).value ==> Within(m, table, count, mid + 1, hi, rva)
    ensures Covers(m, table, mid, rva) ==> Within(m, table, count, mid, mid + 1, rva)
  {
    hide Read;
  }

  lemma SearchStep(m: Mem, image: u64, table: nat, lo: nat, hi: nat, rva: nat)
    requires table + hi * 12 <= 0x1_0000_0000_0000_0000 && lo < hi
    requires var mid := lo + (hi - lo) / 2;
             Read(m, Record(table, mid), 4).Some? && Read(m, Record(table, mid) + 4, 4).Some?
    ensures var mid := lo + (hi - lo) / 2;
            Search(m, image, table, lo, hi, rva) ==
            if rva < Read(m, Record(table, mid), 4).value then Search(m, image, table, lo, mid, rva)
            else if rva >= Read(m, Record(table, mid) + 4, 4).value then Search(m, image, table, mid + 1, hi, rva)
            else Found(image, Record(table, mid))
  {
    hide Read;
  }

  lemma SearchNone(m: Mem, image: u64, table: nat, lo: nat, rva: nat)
    requires table + lo * 12 <= 0x1_0000_0000_0000_0000
    ensures Search(m, image, table, lo, lo, rva) == NoEntry
  {
  }

  /** The record that covers the address, and only that, when there is one. */
  ghost predicate Answers(m: Mem, image: u64, table: nat, count: nat, rva: nat, r: Lookup)
    requires table + count * 12 <= 0x1_0000_0000_0000_0000
  {
    && !r.Faulted?
    && (forall i | 0 <= i < count && Covers(m, table, i, rva) :: r == Found(image, Record(table, i)))
    && (NoneCovers(m, table, count, rva) ==> r == NoEntry)
  }

  lemma AnswersHere(m: Mem, image: u64, table: nat, count: nat, rva: nat, k: nat)
    requires k < count && table + count * 12 <= 0x1_0000_0000_0000_0000 && Covers(m, table, k, rva)
             && Within(m, table, count, k, k + 1, rva)
    ensures Answers(m, image, table, count, rva, Found(image, Record(table, k)))
  {
    hide Covers, Record;
  }

  lemma AnswersNone(m: Mem, image: u64, table: nat, count: nat, rva: nat, k: nat)
    requires table + count * 12 <= 0x1_0000_0000_0000_0000 && Within(m, table, count, k, k, rva)
    ensures Answers(m, image, table, count, rva, NoEntry)
  {
    hide Covers, Record;
  }

  /** The search finds the record that covers the address. */
  lemma {:induction false} SearchFinds(m: Mem, image: u64, table: nat, count: nat, lo: nat, hi: nat, rva: nat)
    requires table + count * 12 <= 0x1_0000_0000_0000_0000 && TableOk(m, table, count) && lo <= hi <= count
    requires Within(m, table, count, lo, hi, rva)
    ensures Answers(m, image, table, count, rva, Search(m, image, table, lo, hi, rva))
    decreases hi - lo
  {
    hide Read, Search, TableOk, Within, Answers;
    if lo < hi {
      var mid := lo + (hi - lo) / 2;
      Narrowed(m, table, count, lo, hi, mid, rva);
      SearchStep(m, image, table, lo, hi, rva);
      if rva < Read(m, Record(table, mid), 4).value {
        SearchFinds(m, image, table, count, lo, mid, rva);
      } else if rva >= Read(m, Record(table, mid) + 4, 4).value {
        SearchFinds(m, image, table, count, mid + 1, hi, rva);
      } else {
        AnswersHere(m, image, table, count, rva, mid);
      }
    } else {
      SearchNone(m, image, table, lo, rva);
      AnswersNone(m, image, table, count, rva, lo);
    }
  }

  /** The first image that holds pc. */
  function Holder(gs: seq<Image>, pc: u64): Option<Image>
  {
    if gs == [] then None else if Holds(gs[0], pc) then Some(gs[0]) else Holder(gs[1..], pc)
  }

  /** The first image whose bytes pc is among. */
  lemma {:induction false} HolderFirst(gs: seq<Image>, pc: u64)
    ensures Holder(gs, pc).None? <==> forall k | 0 <= k < |gs| :: !(gs[k].base <= pc < gs[k].base + gs[k].size)
    ensures Holder(gs, pc).Some? <==>
            exists k | 0 <= k < |gs| :: Holder(gs, pc) == Some(gs[k]) && gs[k].base <= pc < gs[k].base + gs[k].size
              && forall j | 0 <= j < k :: !(gs[j].base <= pc < gs[j].base + gs[j].size)
  {
    if gs != [] && !Holds(gs[0], pc) {
      HolderFirst(gs[1..], pc);
      if Holder(gs, pc).Some? {
        var k :| 0 <= k < |gs[1..]| && Holder(gs, pc) == Some(gs[1..][k])
          && gs[1..][k].base <= pc < gs[1..][k].base + gs[1..][k].size
          && forall j | 0 <= j < k :: !(gs[1..][j].base <= pc < gs[1..][j].base + gs[1..][j].size);
        assert gs[k + 1] == gs[1..][k];
        forall j | 0 <= j < k + 1 ensures !(gs[j].base <= pc < gs[j].base + gs[j].size) {
          assert j > 0 ==> gs[j] == gs[1..][j - 1];
        }
      }
    }
  }

  /** No function of the image that holds pc covers it. */
  ghost predicate Uncovered(m: Mem, gs: seq<Image>, pc: u64)
  {
    match Holder(gs, pc)
    case None => true
    case Some(g) =>
      g.table == 0 || g.tableSize == 0 ||
      (TableOk(m, g.table, g.tableSize / 12) && NoneCovers(m, g.table, g.tableSize / 12, (pc - g.base) % 0x1_0000_0000))
  }

  /** The function at `entry`, in the table of the image that holds pc, covers it. */
  ghost predicate CoveredBy(m: Mem, gs: seq<Image>, pc: u64, entry: u64)
  {
    match Holder(gs, pc)
    case None => false
    case Some(g) =>
      && g.table != 0 && g.tableSize != 0 && TableOk(m, g.table, g.tableSize / 12)
      && exists i | 0 <= i < g.tableSize / 12 ::
           Covers(m, g.table, i, (pc - g.base) % 0x1_0000_0000) && entry == Record(g.table, i)
  }

  /** With the linker's tables, the lookup finds the one function that covers pc, or none. */
  lemma LookupFinds(m: Mem, gs: seq<Image>, pc: u64, entry: u64)
    requires forall i | 0 <= i < |gs| :: ImageOk(gs[i])
    ensures Uncovered(m, gs, pc) ==> LookFor(m, gs, pc) == NoEntry
    ensures CoveredBy(m, gs, pc, entry) ==>
              Holder(gs, pc).Some? && LookFor(m, gs, pc) == Found(Holder(gs, pc).value.base, entry)
  {
    hide TableOk, Covers, Search;
    HolderLooks(m, gs, pc);
    var g := Holder(gs, pc);
    if g.Some? && g.value.table != 0 && g.value.tableSize != 0 && TableOk(m, g.value.table, g.value.tableSize / 12) {
      SearchFinds(m, g.value.base, g.value.table, g.value.tableSize / 12, 0, g.value.tableSize / 12,
                  (pc - g.value.base) % 0x1_0000_0000);
    }
  }

  lemma {:induction false} HolderLooks(m: Mem, gs: seq<Image>, pc: u64)
    requires forall i | 0 <= i < |gs| :: ImageOk(gs[i])
    ensures Holder(gs, pc).Some? ==> ImageOk(Holder(gs, pc).value)
    ensures LookFor(m, gs, pc) == if Holder(gs, pc).None? then NoEntry else LookIn(m, Holder(gs, pc).value, pc)
  {
    hide LookIn, Holds;
    if gs != [] {
      HolderLooks(m, gs[1..], pc);
    }
  }

  // ---- the walk -----------------------------------------------------------------------------------

  /** A frame with unwind data, as a handler would be shown it. */
  datatype Visit = Visit(pc: u64, entry: u64, establisher: u64, handler: u64)

  datatype Step = Step(c: Ctx, visits: seq<Visit>)

  /** One frame: through its unwind data, or as a leaf with only a return address. */
  function StepFrame(m: Mem, gs: seq<Image>, kind: nat, c: Ctx): Option<Step>
    requires forall i | 0 <= i < |gs| :: ImageOk(gs[i])
  {
    match LookFor(m, gs, c.rip)
    case Faulted => None
    case NoEntry =>
      var c' :- Return(m, c);
      Some(Step(c', []))
    case Found(image, entry) =>
      var u :- Unwind(m, kind, image, c.rip, entry, c);
      Some(Step(u.c, [Visit(c.rip, entry, u.establisher, u.handler)]))
  }

  /** At most n frames, stopping at a zero instruction pointer, or before leaving the target frame. */
  function Walk(m: Mem, gs: seq<Image>, kind: nat, target: Option<u64>, n: nat, c: Ctx): Option<Step>
    requires forall i | 0 <= i < |gs| :: ImageOk(gs[i])
    decreases n
  {
    if n == 0 || c.rip == 0 then Some(Step(c, []))
    else
      var s :- StepFrame(m, gs, kind, c);
      if s.visits != [] && target == Some(s.visits[0].establisher) then Some(Step(c, s.visits))
      else
        var rest :- Walk(m, gs, kind, target, n - 1, s.c);
        Some(Step(rest.c, s.visits + rest.visits))
  }

  /** The frame loops of dispatch and unwind, when every handler shown a frame declines it. */
  method WalkFrames(m: Mem, gs: seq<Image>, kind: nat, target: Option<u64>, ctx: Context)
    returns (ok: bool, visits: seq<Visit>)
    requires forall i | 0 <= i < |gs| :: ImageOk(gs[i])
    modifies ctx
    ensures ok <==> Walk(m, gs, kind, target, 256, old(ctx.Value())).Some?
    ensures ok ==> Walk(m, gs, kind, target, 256, old(ctx.Value())).value == Step(ctx.Value(), visits)
  {
    hide LookFor, Unwind, Read64;
    ghost var goal := Walk(m, gs, kind, target, 256, ctx.Value());
    visits := [];
    var depth := 0;
    AfterNone(goal);
    while depth < 256
      invariant 0 <= depth <= 256
      invariant goal == After'(visits, Walk(m, gs, kind, target, 256 - depth, ctx.Value()))
    {
      var pc := ctx.rip;
      if pc == 0 {
        break;
      }
      var found := LookupFunctionEntry(m, gs, pc);
      if found.Faulted? {
        return false, visits;
      }
      if found.NoEntry? {
        var good := UnwindLeaf(m, ctx);
        if !good {
          return false, visits;
        }
        AfterNone(Walk(m, gs, kind, target, 255 - depth, ctx.Value()));
      } else {
        ghost var here := ctx.Value();
        var caller := new Context(Ctx(ctx.regs, ctx.rip));
        var good, handler, data, establisher := VirtualUnwind(m, kind, found.image, pc, found.entry, caller);
        if !good {
          return false, visits;
        }
        ghost var rest := Walk(m, gs, kind, target, 255 - depth, caller.Value());
        AfterOne(visits, Visit(pc, found.entry, establisher, handler), rest);
        visits := visits + [Visit(pc, found.entry, establisher, handler)];
        if target == Some(establisher) {
          return true, visits;
        }
        ctx.regs, ctx.rip := caller.regs, caller.rip;
      }
      depth := depth + 1;
    }
    assert visits + [] == visits;
    ok := true;
  }

  /** A walk that continues after some frames have been visited. */
  ghost function After'(visits: seq<Visit>, r: Option<Step>): Option<Step>
  {
    if r.None? then None else Some(Step(r.value.c, visits + r.value.visits))
  }

  lemma AfterOne(visits: seq<Visit>, v: Visit, r: Option<Step>)
    ensures After'(visits, After'([v], r)) == After'(visits + [v], r)
    ensures After'(visits, if r.None? then None else Some(Step(r.value.c, [] + r.value.visits))) == After'(visits, r)
  {
    if r.Some? {
      assert visits + ([v] + r.value.visits) == (visits + [v]) + r.value.visits;
      assert [] + r.value.visits == r.value.visits;
    }
  }

  lemma AfterNone(r: Option<Step>)
    ensures After'([], r) == r
  {
    if r.Some? {
      assert [] + r.value.visits == r.value.visits;
    }
  }

  method UnwindLeaf(m: Mem, ctx: Context) returns (ok: bool)
    modifies ctx
    ensures ok <==> Return(m, old(ctx.Value())).Some?
    ensures ok ==> Return(m, old(ctx.Value())).value == ctx.Value()
  {
    hide Read64, W;
    var sp: int := ctx.regs[RSP];
    var ip := Read64(m, sp);
    if ip.None? {
      return false;
    }
    ctx.rip := ip.value;
    ctx.regs := ctx.regs[RSP := W(sp + 8)];
    ok := true;
  }

  // ---- every caller on the stack --------------------------------------------------------------------

  /** The registers a callee must give back: RBX, RBP, RSI, RDI, R12 to R15, and XMM6 to XMM15. */
  const NONVOLATILE: set<nat> := {3, 5, 6, 7, 12, 13, 14, 15} + set r | Xmm(6) <= r < 48

  ghost predicate Preserved(a: Regs, b: Regs) { forall r | 0 <= r < 48 && r in NONVOLATILE :: a[r] == b[r] }

  ghost predicate Same(c: Ctx, d: Ctx) { c.rip == d.rip && c.regs[RSP] == d.regs[RSP] && Preserved(c.regs, d.regs) }

  /** `inner` is a leaf called from `outer`: its return address is on top of the stack. */
  ghost predicate LeafOf(m: Mem, gs: seq<Image>, inner: Ctx, outer: Ctx)
  {
    && Uncovered(m, gs, inner.rip)
    && Read64(m, inner.regs[RSP]) == Some(outer.rip) && outer.regs[RSP] == W(inner.regs[RSP] as int + 8)
    && Preserved(inner.regs, outer.regs)
  }

  /** `inner` runs in an activation, with unwind data in its image's table, called from `outer`. */
  ghost predicate FrameOf(m: Mem, gs: seq<Image>, kind: nat, inner: Ctx, outer: Ctx, act: Activation)
  {
    && CoveredBy(m, gs, inner.rip, act.entry)
    && Live(m, Holder(gs, inner.rip).value.base, kind, act, inner, NONVOLATILE)
    && (act.f.reg == 0 || act.f.reg in NONVOLATILE)
    && Read64(m, act.entered.regs[RSP]) == Some(outer.rip) && outer.regs[RSP] == W(act.entered.regs[RSP] as int + 8)
    && Preserved(act.entered.regs, outer.regs)
  }

  /** `inner` runs in a call made from `outer`. */
  ghost predicate CalledFrom(m: Mem, gs: seq<Image>, kind: nat, inner: Ctx, outer: Ctx, a: Option<Activation>)
  {
    inner.rip != 0 && if a.None? then LeafOf(m, gs, inner, outer) else FrameOf(m, gs, kind, inner, outer, a.value)
  }

  /** What is shown of the frame: its establisher and its function's handler; nothing for a leaf. */
  ghost function Told(m: Mem, gs: seq<Image>, kind: nat, inner: Ctx, outer: Ctx, a: Option<Activation>): seq<Visit>
    requires CalledFrom(m, gs, kind, inner, outer, a)
  {
    if a.None? then [] else ToldOf(m, Holder(gs, inner.rip).value.base, kind, inner, a.value)
  }

  ghost function ToldOf(m: Mem, image: u64, kind: nat, inner: Ctx, a: Activation): seq<Visit>
    requires Live(m, image, kind, a, inner, NONVOLATILE)
  {
    [Visit(inner.rip, a.entry, FrameBase(inner.regs, a.f), Handler(m, image, kind, a).0)]
  }

  lemma LeafRecovers(m: Mem, gs: seq<Image>, kind: nat, inner: Ctx, outer: Ctx, c: Ctx)
    requires forall i | 0 <= i < |gs| :: ImageOk(gs[i])
    requires LeafOf(m, gs, inner, outer) && Same(c, inner)
    ensures StepFrame(m, gs, kind, c).Some? && Same(StepFrame(m, gs, kind, c).value.c, outer)
            && StepFrame(m, gs, kind, c).value.visits == []
  {
    hide LookFor, Unwind, Read64, W, Uncovered, CoveredBy;
    LookupFinds(m, gs, c.rip, 0);
  }

  /** What an unwind leaves is the context of the caller, as far as it is to be recovered. */
  lemma CallerSame(m: Mem, kind: nat, image: u64, act: Activation, c: Ctx, u: Unwound, outer: Ctx)
    requires Live(m, image, kind, act, c, NONVOLATILE) && Caller(m, kind, image, act, c, NONVOLATILE, u)
    requires Read64(m, act.entered.regs[RSP]) == Some(outer.rip)
    requires outer.regs[RSP] == W(act.entered.regs[RSP] as int + 8) && Preserved(act.entered.regs, outer.regs)
    ensures Same(u.c, outer)
    ensures u.establisher == FrameBase(c.regs, act.f) && u.handler == Handler(m, image, kind, act).0
  {
    hide Live, Read64, W, FrameBase, Handler;
  }

  lemma FrameRecovers(m: Mem, gs: seq<Image>, kind: nat, inner: Ctx, outer: Ctx, act: Activation, c: Ctx)
    requires forall i | 0 <= i < |gs| :: ImageOk(gs[i])
    requires FrameOf(m, gs, kind, inner, outer, act) && Same(c, inner)
    ensures var s := StepFrame(m, gs, kind, c);
            && s.Some? && Same(s.value.c, outer)
            && s.value.visits == ToldOf(m, Holder(gs, inner.rip).value.base, kind, inner, act)
  {
    hide LookFor, Unwind, Read64, W, Uncovered, CoveredBy, Live, FrameBase, NONVOLATILE, Handler, Preserved, Caller,
         Holder, Return, ImageOk;
    LookupFinds(m, gs, c.rip, act.entry);
    var image := Holder(gs, c.rip).value.base;
    LiveSame(m, image, kind, act, inner, c);
    UnwindRecovers(m, kind, image, act, c, NONVOLATILE);
    CallerSame(m, kind, image, act, c, Unwind(m, kind, image, c.rip, act.entry, c).value, outer);
  }

  /** One step of the walk from any context that looks like `inner` gives one that looks like `outer`. */
  lemma StepRecovers(m: Mem, gs: seq<Image>, kind: nat, inner: Ctx, outer: Ctx, a: Option<Activation>, c: Ctx)
    requires forall i | 0 <= i < |gs| :: ImageOk(gs[i])
    requires CalledFrom(m, gs, kind, inner, outer, a) && Same(c, inner)
    ensures var s := StepFrame(m, gs, kind, c);
            && c.rip != 0 && s.Some? && Same(s.value.c, outer)
            && s.value.visits == Told(m, gs, kind, inner, outer, a)
  {
    hide StepFrame, LeafOf, FrameOf, ToldOf;
    if a.None? {
      LeafRecovers(m, gs, kind, inner, outer, c);
    } else {
      FrameRecovers(m, gs, kind, inner, outer, a.value, c);
    }
  }

  lemma LiveSame(m: Mem, image: u64, kind: nat, a: Activation, inner: Ctx, c: Ctx)
    requires Live(m, image, kind, a, inner, NONVOLATILE) && Same(c, inner) && (a.f.reg == 0 || a.f.reg in NONVOLATILE)
    ensures Live(m, image, kind, a, c, NONVOLATILE) && a.f.reg < 16
            && FrameBase(c.regs, a.f) == FrameBase(inner.regs, a.f)
  {
    hide ChainLies, Read, Read64, Run, Shaped, Intact, Program, PartOk, W;
    var ran := HasRun(m, image, c.rip, a);
    if HasFrame(ran) {
      FrameNamed(ran, a.f);
    }
  }

  /** A stack: each context runs in a call made from the next. */
  ghost predicate Stack(m: Mem, gs: seq<Image>, kind: nat, frames: seq<Ctx>, acts: seq<Option<Activation>>)
  {
    |frames| == |acts| + 1 && forall i | 0 <= i < |acts| :: CalledFrom(m, gs, kind, frames[i], frames[i + 1], acts[i])
  }

  /** The frame is not the one the walk is to stop at. */
  ghost predicate Passes(target: Option<u64>, inner: Ctx, a: Option<Activation>)
  {
    a.Some? && a.value.f.reg < 16 ==> target != Some(FrameBase(inner.regs, a.value.f))
  }

  /** What is shown of n frames from frame i on. */
  ghost function ToldFrom(m: Mem, gs: seq<Image>, kind: nat, frames: seq<Ctx>, acts: seq<Option<Activation>>,
                          i: nat, n: nat): seq<Visit>
    requires Stack(m, gs, kind, frames, acts) && i + n <= |acts|
    decreases n
  {
    if n == 0 then [] else
    assert CalledFrom(m, gs, kind, frames[i], frames[i + 1], acts[i]);
    Told(m, gs, kind, frames[i], frames[i + 1], acts[i]) + ToldFrom(m, gs, kind, frames, acts, i + 1, n - 1)
  }

  /** n turns of the walk from frame i, none of them at the target, recover frame i + n. */
  lemma {:induction false} WalkReaches(m: Mem, gs: seq<Image>, kind: nat, target: Option<u64>, frames: seq<Ctx>,
                                       acts: seq<Option<Activation>>, i: nat, n: nat, more: nat, c: Ctx)
    returns (c': Ctx, visits: seq<Visit>)
    requires forall i | 0 <= i < |gs| :: ImageOk(gs[i])
    requires Stack(m, gs, kind, frames, acts) && i + n <= |acts| && Same(c, frames[i])
    requires forall j | i <= j < i + n :: Passes(target, frames[j], acts[j])
    ensures Same(c', frames[i + n]) && visits == ToldFrom(m, gs, kind, frames, acts, i, n)
    ensures Walk(m, gs, kind, target, n + more, c) == After'(visits, Walk(m, gs, kind, target, more, c'))
    decreases n
  {
    hide CalledFrom, StepFrame, Same, FrameBase, Told;
    if n == 0 {
      AfterNone(Walk(m, gs, kind, target, more, c));
      return c, [];
    }
    assert CalledFrom(m, gs, kind, frames[i], frames[i + 1], acts[i]);
    StepRecovers(m, gs, kind, frames[i], frames[i + 1], acts[i], c);
    var s := StepFrame(m, gs, kind, c).value;
    PassedOn(m, gs, kind, target, frames[i], frames[i + 1], acts[i]);
    var rest;
    c', rest := WalkReaches(m, gs, kind, target, frames, acts, i + 1, n - 1, more, s.c);
    visits := s.visits + rest;
    AfterBoth(s.visits, rest, Walk(m, gs, kind, target, more, c'));
  }

  lemma PassedOn(m: Mem, gs: seq<Image>, kind: nat, target: Option<u64>, inner: Ctx, outer: Ctx, a: Option<Activation>)
    requires CalledFrom(m, gs, kind, inner, outer, a) && Passes(target, inner, a)
    ensures var told := Told(m, gs, kind, inner, outer, a); told == [] || target != Some(told[0].establisher)
  {
    hide Handler, FrameBase;
  }

  lemma AfterBoth(a: seq<Visit>, b: seq<Visit>, r: Option<Step>)
    ensures After'(a, After'(b, r)) == After'(a + b, r)
  {
    if r.Some? {
      assert a + (b + r.value.visits) == (a + b) + r.value.visits;
    }
  }

  /** Walking a stack recovers each caller in turn. */
  lemma WalkRecovers(m: Mem, gs: seq<Image>, kind: nat, frames: seq<Ctx>, acts: seq<Option<Activation>>, n: nat, c: Ctx)
    requires forall i | 0 <= i < |gs| :: ImageOk(gs[i])
    requires Stack(m, gs, kind, frames, acts) && n <= |acts| && Same(c, frames[0])
    ensures var w := Walk(m, gs, kind, None, n, c);
            && w.Some? && Same(w.value.c, frames[n]) && w.value.visits == ToldFrom(m, gs, kind, frames, acts, 0, n)
  {
    hide CalledFrom, Same, Walk, ToldFrom, Stack;
    var c', visits := WalkReaches(m, gs, kind, None, frames, acts, 0, n, 0, c);
    WalkNone(m, gs, kind, None, c');
  }

  lemma WalkNone(m: Mem, gs: seq<Image>, kind: nat, target: Option<u64>, c: Ctx)
    requires forall i | 0 <= i < |gs| :: ImageOk(gs[i])
    ensures Walk(m, gs, kind, target, 0, c) == Some(Step(c, []))
  {
  }

  /** A stack of at most n frames, whose outermost return address is zero, is walked to its end. */
  lemma WalkEnds(m: Mem, gs: seq<Image>, kind: nat, frames: seq<Ctx>, acts: seq<Option<Activation>>, n: nat, c: Ctx)
    requires forall i | 0 <= i < |gs| :: ImageOk(gs[i])
    requires Stack(m, gs, kind, frames, acts) && |acts| <= n && Same(c, frames[0]) && frames[|acts|].rip == 0
    ensures var w := Walk(m, gs, kind, None, n, c);
            && w.Some? && Same(w.value.c, frames[|acts|])
            && w.value.visits == ToldFrom(m, gs, kind, frames, acts, 0, |acts|)
  {
    hide CalledFrom, Walk, Same, ToldFrom;
    var c', visits := WalkReaches(m, gs, kind, None, frames, acts, 0, |acts|, n - |acts|, c);
    WalkDone(m, gs, kind, None, n - |acts|, c', frames[|acts|]);
  }

  lemma WalkDone(m: Mem, gs: seq<Image>, kind: nat, target: Option<u64>, n: nat, c: Ctx, d: Ctx)
    requires forall i | 0 <= i < |gs| :: ImageOk(gs[i])
    requires Same(c, d) && d.rip == 0
    ensures Walk(m, gs, kind, target, n, c) == Some(Step(c, []))
  {
    hide StepFrame;
  }

  /** A walk with a target stops at the first frame whose establisher is the target, with that frame's own context. */
  lemma WalkStops(m: Mem, gs: seq<Image>, kind: nat, target: u64, frames: seq<Ctx>, acts: seq<Option<Activation>>,
                  k: nat, n: nat, c: Ctx)
    requires forall i | 0 <= i < |gs| :: ImageOk(gs[i])
    requires Stack(m, gs, kind, frames, acts) && k < |acts| && k < n && Same(c, frames[0])
    requires forall j | 0 <= j < k :: Passes(Some(target), frames[j], acts[j])
    requires !Passes(Some(target), frames[k], acts[k])
    ensures var w := Walk(m, gs, kind, Some(target), n, c);
            && w.Some? && Same(w.value.c, frames[k]) && w.value.visits == ToldFrom(m, gs, kind, frames, acts, 0, k + 1)
            && w.value.visits != [] && w.value.visits[|w.value.visits| - 1].establisher == target
  {
    hide CalledFrom, Walk, Told, ToldFrom, Passes, Same;
    ToldMore(m, gs, kind, frames, acts, 0, k);
    var c', visits := WalkReaches(m, gs, kind, Some(target), frames, acts, 0, k, n - k, c);
    StopsHere(m, gs, kind, target, frames[k], frames[k + 1], acts[k], n - k, c');
  }

  /** A walk goes no further than the frame it is to stop at. */
  lemma StopsHere(m: Mem, gs: seq<Image>, kind: nat, target: u64, inner: Ctx, outer: Ctx, a: Option<Activation>, n: nat,
                  c: Ctx)
    requires forall i | 0 <= i < |gs| :: ImageOk(gs[i])
    requires CalledFrom(m, gs, kind, inner, outer, a) && !Passes(Some(target), inner, a) && n > 0 && Same(c, inner)
    ensures var told := Told(m, gs, kind, inner, outer, a);
            Walk(m, gs, kind, Some(target), n, c) == Some(Step(c, told)) && |told| == 1 && told[0].establisher == target
  {
    hide CalledFrom, StepFrame, FrameBase, Same;
    StepRecovers(m, gs, kind, inner, outer, a, c);
  }

  lemma {:induction false} ToldMore(m: Mem, gs: seq<Image>, kind: nat, frames: seq<Ctx>,
                                    acts: seq<Option<Activation>>, i: nat, n: nat)
    requires Stack(m, gs, kind, frames, acts) && i + n < |acts|
    ensures CalledFrom(m, gs, kind, frames[i + n], frames[i + n + 1], acts[i + n])
    ensures ToldFrom(m, gs, kind, frames, acts, i, n + 1) ==
            ToldFrom(m, gs, kind, frames, acts, i, n) + Told(m, gs, kind, frames[i + n], frames[i + n + 1], acts[i + n])
    decreases n
  {
    hide CalledFrom, Told;
    if n > 0 {
      ToldMore(m, gs, kind, frames, acts, i + 1, n - 1);
    }
  }
}
