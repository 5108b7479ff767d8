/**
  The unwinder against the unwind data a compiler emits: a function, or a fragment of one
  chained to its parents, interrupted anywhere in or after its prologue.
  */
module FrameUnwind {
  import opened Bytes
  import opened Wrappers
  import opened Unwinder
  import opened UnwindCodes
  import opened Prologue

  /** A fragment's prologue in program order, its size in bytes, and its handler flags. */
  datatype Part = Part(steps: seq<Entry>, prolog: byte, flags: nat)

  function Codes(es: seq<Entry>): (ps: seq<Code>)
    ensures |ps| == |es|
  {
    seq(|es|, i requires 0 <= i < |es| => es[i].code)
  }

  /** Unwind codes lie in descending order of prologue offset. */
  function Rev(es: seq<Entry>): (r: seq<Entry>)
    ensures |r| == |es|
    ensures EntriesOk(es) ==> EntriesOk(r)
  {
    if es == [] then [] else [es[|es| - 1]] + Rev(es[..|es| - 1])
  }

  /** Steps end at increasing offsets. */
  predicate Ascending(es: seq<Entry>) { forall i, j | 0 <= i < j < |es| :: es[i].at <= es[j].at }

  /** The steps that have run. */
  function Ran(es: seq<Entry>, past: bool, limit: nat): (r: seq<Entry>)
    ensures r <= es
  {
    if es == [] then [] else if past || es[|es| - 1].at <= limit then es else Ran(es[..|es| - 1], past, limit)
  }

  lemma CodesParts(es: seq<Entry>)
    requires es != []
    ensures Codes(es)[..|es| - 1] == Codes(es[..|es| - 1]) && Codes(es)[|es| - 1] == es[|es| - 1].code
  {
  }

  lemma {:induction false} RanIsPast(es: seq<Entry>, past: bool, limit: nat)
    ensures past ==> Ran(es, past, limit) == es
  {
  }

  /** Every step undone, when every step has run. */
  lemma {:induction false} UndoEvery(m: Mem, es: seq<Entry>, past: bool, limit: nat, base: u64, f: FrameInfo, c: Ctx)
    requires EntriesOk(es) && f.reg < 16 && (past || forall i | 0 <= i < |es| :: es[i].at <= limit)
    ensures CodesOk(Codes(es))
    ensures UndoEntries(m, Rev(es), past, limit, base, f, c) == UndoRun(m, Codes(es), base, f, c)
    decreases |es|
  {
    hide Undo;
    if es != [] {
      CodesParts(es);
      var last, before := es[|es| - 1], es[..|es| - 1];
      assert Rev(es)[1..] == Rev(before);
      var u := Undo(m, last.code, base, f, c);
      if u.Some? {
        UndoEvery(m, before, past, limit, base, f, u.value);
      }
    }
  }

  /** Codes past the interruption are passed over; those before it are undone. */
  lemma {:induction false} UndoRan(m: Mem, es: seq<Entry>, past: bool, limit: nat, base: u64, f: FrameInfo, c: Ctx)
    requires EntriesOk(es) && f.reg < 16 && Ascending(es)
    ensures CodesOk(Codes(Ran(es, past, limit)))
    ensures UndoEntries(m, Rev(es), past, limit, base, f, c) == UndoRun(m, Codes(Ran(es, past, limit)), base, f, c)
    decreases |es|
  {
    hide Undo, UndoRun;
    if es == [] {
      UndoEvery(m, es, past, limit, base, f, c);
    } else {
      var last, before := es[|es| - 1], es[..|es| - 1];
      if past || last.at <= limit {
        UndoEvery(m, es, past, limit, base, f, c);
      } else {
        assert Rev(es)[1..] == Rev(before);
        UndoRan(m, before, past, limit, base, f, c);
      }
    }
  }

  /** Undoing a + b is undoing b, then a. */
  lemma {:induction false} UndoJoin(m: Mem, a: seq<Code>, b: seq<Code>, base: u64, f: FrameInfo, c: Ctx)
    requires CodesOk(a) && CodesOk(b) && f.reg < 16
    ensures CodesOk(a + b)
    ensures UndoRun(m, a + b, base, f, c) ==
            var u := UndoRun(m, b, base, f, c); if u.None? then None else UndoRun(m, a, base, f, u.value)
    decreases |b|
  {
    hide Undo;
    if b == [] {
      assert a + b == a;
    } else {
      var last, before := b[|b| - 1], b[..|b| - 1];
      assert (a + b)[..|a + b| - 1] == a + before && (a + b)[|a + b| - 1] == last;
      var u := Undo(m, last, base, f, c);
      if u.Some? {
        UndoJoin(m, a, before, base, f, u.value);
      }
    }
  }

  // ---- unwind info in memory ------------------------------------------------------------------

  predicate PartOk(p: Part) {
    EntriesOk(p.steps) && Ascending(p.steps) && |EncodeAll(Rev(p.steps))| / 2 < 256 && p.flags < 4
  }

  predicate FrameOk(f: FrameInfo) { f.reg < 16 && f.off < 16 }

  function Header(p: Part, f: FrameInfo, chained: bool): seq<byte>
    requires PartOk(p) && FrameOk(f)
  {
    [1 + 8 * (p.flags + if chained then 4 else 0), p.prolog, |EncodeAll(Rev(p.steps))| / 2, f.reg + 16 * f.off]
  }

  ghost predicate PartLies(m: Mem, info: u64, p: Part, f: FrameInfo, chained: bool)
    requires PartOk(p) && FrameOk(f)
  {
    && Lies(m, info, Header(p, f, chained) + EncodeAll(Rev(p.steps)))
  }

  /** Where the record after the codes lies: they are padded to a multiple of four bytes. */
  function After(info: u64, p: Part): nat
    requires PartOk(p)
  {
    var n := |EncodeAll(Rev(p.steps))|;
    info + 4 + n + if n % 4 == 2 then 2 else 0
  }

  /** Whether a function has a handler of the kind asked for: 1 for exceptions, 2 for unwinds, 3 for either. */
  predicate Asks(flags: nat, kind: nat)
  {
    match kind % 4
    case 0 => false
    case 1 => flags == 1 || flags == 3
    case 2 => flags == 2 || flags == 3
    case _ => flags != 0
  }

  lemma WantsAsks(flags: nat, kind: nat)
    requires flags < 4
    ensures Wants(flags, kind) <==> Asks(flags, kind)
  {
  }

  lemma AfterEven(info: u64, p: Part)
    requires PartOk(p)
    ensures After(info, p) == info + 4 + Even(|EncodeAll(Rev(p.steps))| / 2) * 2
  {
  }

  /** A fragment at `info`, and its chain of parents. */
  ghost predicate ChainLies(m: Mem, image: u64, info: u64, ps: seq<Part>, f: FrameInfo, kind: nat)
    requires (forall i | 0 <= i < |ps| :: PartOk(ps[i])) && FrameOk(f)
    decreases |ps|
  {
    && ps != []
    && PartLies(m, info, ps[0], f, |ps| > 1)
    && (|ps| == 1 ==> Asks(ps[0].flags, kind) ==> Read(m, After(info, ps[0]), 4).Some?)
    && (|ps| > 1 ==> Read(m, After(info, ps[0]), 4).Some? && Read(m, After(info, ps[0]) + 8, 4).Some?
                     && ChainLies(m, image, W(image + Read(m, After(info, ps[0]) + 8, 4).value), ps[1..], f, kind))
  }

  /** The handler of the outermost parent, if it has one of the kind asked for, and where the handler's data lies. */
  function HandlerOf(m: Mem, image: u64, info: u64, ps: seq<Part>, f: FrameInfo, kind: nat): (u64, u64)
    requires (forall i | 0 <= i < |ps| :: PartOk(ps[i])) && FrameOk(f) && ChainLies(m, image, info, ps, f, kind)
    decreases |ps|
  {
    var after := After(info, ps[0]);
    if |ps| > 1 then HandlerOf(m, image, W(image + Read(m, after + 8, 4).value), ps[1..], f, kind)
    else if Asks(ps[0].flags, kind) then (W(image + Read(m, after, 4).value), W(after + 4))
    else (0, 0)
  }

  /** All that has run: the parents' prologues outermost first, then the fragment's own. */
  function Program(ps: seq<Part>, past: bool, limit: nat): seq<Code>
    requires ps != []
    decreases |ps|
  {
    if |ps| == 1 then Codes(Ran(ps[0].steps, past, limit))
    else Program(ps[1..], true, 0) + Codes(Ran(ps[0].steps, past, limit))
  }

  lemma HeaderReads(m: Mem, info: u64, p: Part, f: FrameInfo, chained: bool)
    requires PartOk(p) && FrameOk(f) && PartLies(m, info, p, f, chained)
    ensures Read(m, info, 1) == Some(1 + 8 * (p.flags + if chained then 4 else 0))
    ensures Read(m, info + 1, 1) == Some(p.prolog)
    ensures Read(m, info + 2, 1) == Some(|EncodeAll(Rev(p.steps))| / 2)
    ensures Read(m, info + 3, 1) == Some(f.reg + 16 * f.off)
    ensures Lies(m, info + 4, EncodeAll(Rev(p.steps)))
  {
    hide Lies, Read, EncodeAll;
    var h := Header(p, f, chained);
    var bs := h + EncodeAll(Rev(p.steps));
    LiesParts(m, info, h, EncodeAll(Rev(p.steps)));
    ReadByte(m, info, h, 0);
    ReadByte(m, info, h, 1);
    ReadByte(m, info, h, 2);
    ReadByte(m, info, h, 3);
  }

  lemma FieldsBack(f: FrameInfo, flags: nat, chained: bool)
    requires FrameOk(f) && flags < 4
    ensures FrameInfo((f.reg + 16 * f.off) % 16, (f.reg + 16 * f.off) / 16 % 16) == f
    ensures var b := 1 + 8 * (flags + if chained then 4 else 0); b / 8 == flags + (if chained then 4 else 0)
    ensures (flags + if chained then 4 else 0) / 4 % 2 == (if chained then 1 else 0)
  {
  }

  /** The record after the codes: a parent, or the handler asked for. */
  ghost predicate Follows(m: Mem, image: u64, after: nat, p: Part, kind: nat, chained: bool, n: Next)
  {
    if chained then
      && Read(m, after, 4).Some? && Read(m, after + 8, 4).Some?
      && n == Chained(W(image + Read(m, after + 8, 4).value), W(image + Read(m, after, 4).value))
    else if Asks(p.flags, kind) then
      Read(m, after, 4).Some? && n == Complete(W(image + Read(m, after, 4).value), W(after + 4))
    else n == Complete(0, 0)
  }

  lemma FollowingIs(m: Mem, image: u64, after: nat, p: Part, kind: nat, chained: bool)
    requires p.flags < 4
    requires chained ==> Read(m, after, 4).Some? && Read(m, after + 8, 4).Some?
    requires !chained && Asks(p.flags, kind) ==> Read(m, after, 4).Some?
    ensures var n := Following(m, image, after, p.flags + if chained then 4 else 0, kind);
            n.Some? && Follows(m, image, after, p, kind, chained, n.value)
  {
    hide Read, W, Wants, Asks;
    WantsAsks(p.flags, kind);
    if chained {
      NoWants(p.flags);
    } else {
      SameWants(p.flags, kind);
    }
  }

  lemma NoWants(flags: nat)
    requires flags < 4
    ensures (flags + 4) / 4 % 2 == 1 && flags / 4 % 2 == 0
  {
  }

  lemma SameWants(flags: nat, kind: nat)
    requires flags < 4
    ensures flags / 4 % 2 == 0
  {
  }

  /** One fragment, read back from memory: its steps that have run are undone. */
  lemma PartUndone(m: Mem, image: u64, pc: u64, info: u64, start: u64, parent: bool, base: Option<u64>, kind: nat,
                   c: Ctx, p: Part, f: FrameInfo, chained: bool, limit: nat, past: bool, base': u64)
    requires PartOk(p) && FrameOk(f) && PartLies(m, info, p, f, chained)
    requires chained ==> Read(m, After(info, p), 4).Some? && Read(m, After(info, p) + 8, 4).Some?
    requires !chained && Asks(p.flags, kind) ==> Read(m, After(info, p), 4).Some?
    requires limit == (if pc > start then pc - start else 0) && past == (parent || limit >= p.prolog)
    requires base' == if base.Some? then base.value else FrameBase(c.regs, f)
    ensures CodesOk(Codes(Ran(p.steps, past, limit)))
    ensures var g := UndoFragment(m, image, pc, info, start, parent, base, kind, c);
            var u := UndoRun(m, Codes(Ran(p.steps, past, limit)), base', f, c);
            && (g.Some? <==> u.Some?)
            && (g.Some? ==>
                   g.value.c == u.value && g.value.base == base'
                     && Follows(m, image, After(info, p), p, kind, chained, g.value.next))
  {
    hide Read, EncodeAll, UndoFrom, UndoEntries, UndoRun, Ran, Rev, Codes, Lies, PartLies, Following, Follows, Asks, W,
         Even, Header, After;
    HeaderReads(m, info, p, f, chained);
    FieldsBack(f, p.flags, chained);
    HeaderCodes(m, info, p, f, chained);
    DecodeAll(m, info + 4, 0, Rev(p.steps), past, limit, base', f, c);
    UndoRan(m, p.steps, past, limit, base', f, c);
    AfterEven(info, p);
    FollowingIs(m, image, After(info, p), p, kind, chained);
  }

  lemma HeaderCodes(m: Mem, info: u64, p: Part, f: FrameInfo, chained: bool)
    requires PartOk(p) && FrameOk(f) && PartLies(m, info, p, f, chained)
    ensures Lies(m, info + 4 + 0 * 2, EncodeAll(Rev(p.steps)))
  {
    HeaderReads(m, info, p, f, chained);
  }

  /** Every fragment's steps are undone, the innermost first. */
  lemma {:induction false} ChainUndone(m: Mem, image: u64, pc: u64, info: u64, start: u64, parent: bool,
                                       base: Option<u64>, kind: nat, fuel: nat, c: Ctx, ps: seq<Part>, f: FrameInfo,
                                       limit: nat, past: bool, base': u64)
    requires (forall i | 0 <= i < |ps| :: PartOk(ps[i])) && FrameOk(f) && ChainLies(m, image, info, ps, f, kind)
             && |ps| <= fuel
    requires limit == (if pc > start then pc - start else 0) && past == (parent || limit >= ps[0].prolog)
    requires base' == if base.Some? then base.value else FrameBase(c.regs, f)
    ensures CodesOk(Program(ps, past, limit))
    ensures var r := UndoChain(m, image, pc, info, start, parent, base, kind, fuel, c);
            var u := UndoRun(m, Program(ps, past, limit), base', f, c);
            && (r.Some? <==> u.Some?)
            && (r.Some? ==> r.value.c == u.value && r.value.establisher == base'
                            && (r.value.handler, r.value.handlerData) == HandlerOf(m, image, info, ps, f, kind))
    decreases |ps|
  {
    hide Read, EncodeAll, UndoRun, Ran, Codes, PartLies, UndoFragment, W, After, PartOk, Asks;
    var p, rest := ps[0], ps[1..];
    PartUndone(m, image, pc, info, start, parent, base, kind, c, p, f, |ps| > 1, limit, past, base');
    var own := Codes(Ran(p.steps, past, limit));
    var g := UndoFragment(m, image, pc, info, start, parent, base, kind, c);
    if |ps| > 1 {
      ProgramOk(rest);
      UndoJoin(m, Program(rest, true, 0), own, base', f, c);
      if g.Some? {
        var next := g.value.next;
        var limit' := if pc > next.start then pc - next.start else 0;
        ProgramPast(rest, limit');
        ChainUndone(m, image, pc, next.info, next.start, true, Some(base'), kind, fuel - 1, g.value.c, rest, f, limit',
                    true, base');
      }
    }
  }

  lemma {:induction false} ProgramOk(ps: seq<Part>)
    requires ps != [] && forall i | 0 <= i < |ps| :: PartOk(ps[i])
    ensures CodesOk(Program(ps, true, 0))
    decreases |ps|
  {
    RanIsPast(ps[0].steps, true, 0);
    if |ps| > 1 {
      ProgramOk(ps[1..]);
    }
  }

  lemma ProgramPast(ps: seq<Part>, limit: nat)
    requires ps != []
    ensures Program(ps, true, limit) == Program(ps, true, 0)
  {
    RanIsPast(ps[0].steps, true, limit);
    RanIsPast(ps[0].steps, true, 0);
  }

  // ---- the theorem ------------------------------------------------------------------------------

  /** A call in progress: its unwind data, and the machine as it was when the call was made. */
  datatype Activation = Activation(entry: u64, parts: seq<Part>, f: FrameInfo, entered: Machine)

  predicate ActivationOk(a: Activation)
  {
    a.parts != [] && |a.parts| <= 32 && (forall i | 0 <= i < |a.parts| :: PartOk(a.parts[i])) && FrameOk(a.f)
  }

  /** What has run of the activation's prologue when it is interrupted at pc. */
  function HasRun(m: Mem, image: u64, pc: u64, a: Activation): seq<Code>
    requires ActivationOk(a) && Read(m, a.entry, 4).Some?
  {
    var start := W(image + Read(m, a.entry, 4).value);
    var limit := if pc > start then pc - start else 0;
    Program(a.parts, limit >= a.parts[0].prolog, limit)
  }

  /**
    A context interrupted at c.rip inside the activation: the unwind data is in memory, what has
    run of the prologue is of the documented shape, the words it stored are untouched, and the
    body has left alone the register that locates the frame and every wanted register that the
    prologue did not put away.
    */
  ghost predicate Live(m: Mem, image: u64, kind: nat, a: Activation, c: Ctx, wanted: set<nat>)
  {
    && ActivationOk(a)
    && Read(m, a.entry, 4).Some? && Read(m, a.entry + 8, 4).Some?
    && ChainLies(m, image, W(image + Read(m, a.entry + 8, 4).value), a.parts, a.f, kind)
    && (var ran := HasRun(m, image, c.rip, a);
        CodesOk(ran) && Shaped(ran, a.f) && Intact(m, a.entered, ran, a.f)
        && Agrees(Run(a.entered, ran, a.f), ran, a.f, c, wanted))
    && Read64(m, a.entered.regs[RSP]).Some?
  }

  /** The handler of the function the activation is of, and where its data lies. */
  ghost function Handler(m: Mem, image: u64, kind: nat, a: Activation): (u64, u64)
    requires ActivationOk(a) && Read(m, a.entry + 8, 4).Some?
    requires ChainLies(m, image, W(image + Read(m, a.entry + 8, 4).value), a.parts, a.f, kind)
  {
    HandlerOf(m, image, W(image + Read(m, a.entry + 8, 4).value), a.parts, a.f, kind)
  }

  /** The registers a save is addressed from are settled before any save. */
  lemma {:induction false} SavesHaveBase(ps: seq<Code>, f: FrameInfo)
    requires f.reg < 16 && Shaped(ps, f) && HasSave(ps)
    ensures f.reg != 0 <==> HasFrame(ps)
  {
    LastPart(ps);
    var before := ps[..|ps| - 1];
    if HasFrame(ps) {
      FrameNamed(ps, f);
    }
    if HasSave(before) {
      SavesHaveBase(before, f);
    }
  }

  /** The chain of an activation, undone from the frame base. */
  lemma ActivationUndone(m: Mem, kind: nat, image: u64, a: Activation, c: Ctx, wanted: set<nat>)
    requires Live(m, image, kind, a, c, wanted)
    ensures var info, start := W(image + Read(m, a.entry + 8, 4).value), W(image + Read(m, a.entry, 4).value);
            var r := UndoChain(m, image, c.rip, info, start, false, None, kind, 32, c);
            var u := UndoRun(m, HasRun(m, image, c.rip, a), FrameBase(c.regs, a.f), a.f, c);
            && (r.Some? <==> u.Some?)
            && (r.Some? ==> r.value.c == u.value && r.value.establisher == FrameBase(c.regs, a.f)
                            && (r.value.handler, r.value.handlerData) == Handler(m, image, kind, a))
  {
    hide ChainLies, Read, Read64, W, UndoChain, UndoRun, Run, Shaped, Intact, Program, PartOk, Agrees, BaseOk,
         FrameBase, HandlerOf;
    var info := W(image + Read(m, a.entry + 8, 4).value);
    var start := W(image + Read(m, a.entry, 4).value);
    var limit := if c.rip > start then c.rip - start else 0;
    var past := limit >= a.parts[0].prolog;
    ChainUndone(m, image, c.rip, info, start, false, None, kind, 32, c, a.parts, a.f, limit, past,
                FrameBase(c.regs, a.f));
  }

  lemma LiveRan(m: Mem, kind: nat, image: u64, a: Activation, c: Ctx, wanted: set<nat>)
    requires Live(m, image, kind, a, c, wanted)
    ensures ActivationOk(a) && a.f.reg < 16
    ensures Read(m, a.entry, 4).Some? && Read(m, a.entry + 8, 4).Some? && Read64(m, a.entered.regs[RSP]).Some?
    ensures var ran := HasRun(m, image, c.rip, a);
            CodesOk(ran) && Shaped(ran, a.f) && Intact(m, a.entered, ran, a.f)
            && Agrees(Run(a.entered, ran, a.f), ran, a.f, c, wanted)
  {
    hide Read, Read64, Run, Shaped, Intact, HasRun, Agrees;
  }

  /**
    The caller: the return address, the stack pointer as it was before the call, and every wanted
    register as it was at the call; with the frame base, and the function's handler if it has one
    of the kind asked for.
    */
  ghost predicate Caller(m: Mem, kind: nat, image: u64, a: Activation, c: Ctx, wanted: set<nat>, u: Unwound)
    requires Live(m, image, kind, a, c, wanted)
  {
    && Some(u.c.rip) == Read64(m, a.entered.regs[RSP])
    && u.c.regs[RSP] == W(a.entered.regs[RSP] as int + 8)
    && (forall i | i in wanted && i < 48 && i != RSP :: u.c.regs[i] == a.entered.regs[i])
    && u.establisher == FrameBase(c.regs, a.f)
    && (u.handler, u.handlerData) == Handler(m, image, kind, a)
  }

  /** Unwinding recovers the caller. */
  lemma UnwindRecovers(m: Mem, kind: nat, image: u64, a: Activation, c: Ctx, wanted: set<nat>)
    requires Live(m, image, kind, a, c, wanted)
    ensures var r := Unwind(m, kind, image, c.rip, a.entry, c);
            r.Some? && Caller(m, kind, image, a, c, wanted, r.value)
  {
    hide Live, Read, Read64, W, UndoChain, UndoRun, Run, Shaped, Intact, HasRun, ActivationOk, Agrees, BaseOk,
         FrameBase, Handler, Unwind, Return;
    LiveRan(m, kind, image, a, c, wanted);
    var ran := HasRun(m, image, c.rip, a);
    ActivationUndone(m, kind, image, a, c, wanted);
    BaseSettled(Run(a.entered, ran, a.f), ran, a.f, c, wanted);
    UndoAll(m, a.entered, ran, a.f, FrameBase(c.regs, a.f), c, wanted);
    var u := UndoRun(m, ran, FrameBase(c.regs, a.f), a.f, c);
    Returned(m, kind, image, c.rip, a.entry, c, u.value);
  }

  /** After the chain comes the return. */
  lemma Returned(m: Mem, kind: nat, image: u64, pc: u64, entry: u64, c: Ctx, d: Ctx)
    requires Read(m, entry, 4).Some? && Read(m, entry + 8, 4).Some? && Read64(m, d.regs[RSP]).Some?
    ensures var info, start := W(image + Read(m, entry + 8, 4).value), W(image + Read(m, entry, 4).value);
            var r := UndoChain(m, image, pc, info, start, false, None, kind, 32, c);
            var t := Unwind(m, kind, image, pc, entry, c);
            r.Some? && r.value.c == d ==>
              && t.Some? && t.value == r.value.(c := t.value.c) && Some(t.value.c.rip) == Read64(m, d.regs[RSP])
              && t.value.c.regs == d.regs[RSP := W(d.regs[RSP] as int + 8)]
  {
    hide Read, Read64, W, UndoChain;
  }

  lemma BaseSettled(s: Machine, ps: seq<Code>, f: FrameInfo, c: Ctx, wanted: set<nat>)
    requires f.reg < 16 && Shaped(ps, f) && Agrees(s, ps, f, c, wanted)
    ensures BaseOk(s, ps, f, FrameBase(c.regs, f))
  {
    if HasSave(ps) {
      SavesHaveBase(ps, f);
    }
  }

  // ---- memory right after the prologue ------------------------------------------------------------

  /** The words a step stores. */
  function Words(regs: Regs, code: Code, f: FrameInfo): set<nat>
    requires f.reg < 16
  {
    var at := StoreAt(regs, code, f);
    if Wide(code) then {at, W(at + 8)} else if Stores(code) then {at} else {}
  }

  ghost predicate ApartFrom(t: nat, slots: set<nat>) { forall a | a in slots && a != t :: a + 8 <= t || t + 8 <= a }

  /** The words a prologue stores do not overlap each other, the return address, or the end of memory. */
  ghost predicate Apart(s: Machine, ps: seq<Code>, f: FrameInfo, slots: set<nat>)
    requires CodesOk(ps) && f.reg < 16
  {
    if ps == [] then slots == {s.regs[RSP]}
    else
      var before, code := ps[..|ps| - 1], ps[|ps| - 1];
      var own := Words(Run(s, before, f).regs, code, f);
      && own <= slots && Apart(s, before, f, slots - own) && (forall t | t in own :: ApartFrom(t, slots))
      && (Wide(code) ==> |own| == 2)
  }

  lemma PutSame(m: Mem, a: nat, v: u64)
    ensures Read64(Put64(m, a, v), a) == Some(v)
  {
    hide ToLE, FromLE;
    var n := Put64(m, a, v);
    var b := ToLE(v, 8);
    forall i | a <= i < a + 8 ensures i in n && n[i] == b[i - a] {
    }
    assert Present(n, a, 8);
    var s := Slice(n, a, 8);
    assert forall i | 0 <= i < 8 :: s[i] == n[a + i] == b[i];
    assert s == b;
    Pow256Values();
    FromToLE(v, 8);
  }

  lemma PutElsewhere(m: Mem, a: nat, v: u64, t: nat)
    requires t + 8 <= a || a + 8 <= t
    ensures Read64(Put64(m, a, v), t) == Read64(m, t)
  {
    hide ToLE, FromLE;
    var n := Put64(m, a, v);
    assert forall i | t <= i < t + 8 :: (i in n <==> i in m) && (i in m ==> n[i] == m[i]);
    if Present(m, t, 8) {
      assert Present(n, t, 8);
      assert Slice(n, t, 8) == Slice(m, t, 8);
    }
  }

  /** A step whose store is apart from a word leaves that word alone. */
  lemma ExecElsewhere(s: Machine, code: Code, f: FrameInfo, t: nat)
    requires CodeOk(code) && f.reg < 16
    requires t !in Words(s.regs, code, f) && ApartFrom(t, Words(s.regs, code, f))
    ensures Read64(Exec(s, code, f).mem, t) == Read64(s.mem, t)
  {
    hide Put64, Read64, W;
    if Stores(code) {
      var at: nat := StoreAt(s.regs, code, f);
      PutElsewhere(s.mem, at, s.regs[First(code)], t);
      if Wide(code) {
        PutElsewhere(Put64(s.mem, at, s.regs[First(code)]), W(at + 8), s.regs[First(code) + 1], t);
      }
    }
  }

  /** A step's own words are in memory after it. */
  lemma ExecKept(s: Machine, code: Code, f: FrameInfo)
    requires CodeOk(code) && f.reg < 16
    requires Wide(code) ==> var at := StoreAt(s.regs, code, f); at + 8 <= W(at + 8) || W(at + 8) + 8 <= at
    ensures Kept(Exec(s, code, f).mem, s.regs, code, f)
  {
    hide Put64, Read64, W;
    if Stores(code) {
      var at: nat := StoreAt(s.regs, code, f);
      PutSame(s.mem, at, s.regs[First(code)]);
      if Wide(code) {
        var m := Put64(s.mem, at, s.regs[First(code)]);
        PutSame(m, W(at + 8), s.regs[First(code) + 1]);
        PutElsewhere(m, W(at + 8), s.regs[First(code) + 1], at);
      }
    }
  }

  /** Words that are not among those later stored stay intact from one memory to another. */
  lemma {:induction false} IntactKept(m: Mem, n: Mem, s: Machine, ps: seq<Code>, f: FrameInfo, slots: set<nat>)
    requires CodesOk(ps) && f.reg < 16 && Apart(s, ps, f, slots) && Intact(m, s, ps, f)
    requires forall t | t in slots :: Read64(n, t) == Read64(m, t)
    ensures Intact(n, s, ps, f)
  {
    hide Read64, Run, W, StoreAt;
    if ps != [] {
      var before, code := ps[..|ps| - 1], ps[|ps| - 1];
      IntactKept(m, n, s, before, f, slots - Words(Run(s, before, f).regs, code, f));
    }
  }

  lemma {:induction false} ReturnSlot(s: Machine, ps: seq<Code>, f: FrameInfo, slots: set<nat>)
    requires CodesOk(ps) && f.reg < 16 && Apart(s, ps, f, slots)
    ensures s.regs[RSP] in slots
  {
    hide Run, Words;
    if ps != [] {
      var before, code := ps[..|ps| - 1], ps[|ps| - 1];
      ReturnSlot(s, before, f, slots - Words(Run(s, before, f).regs, code, f));
    }
  }

  lemma OwnApart(regs: Regs, code: Code, f: FrameInfo, slots: set<nat>)
    requires f.reg < 16 && Words(regs, code, f) <= slots
             && (forall t | t in Words(regs, code, f) :: ApartFrom(t, slots))
    ensures Wide(code) ==> var at := StoreAt(regs, code, f); at + 8 <= W(at + 8) || W(at + 8) + 8 <= at
  {
    if Wide(code) {
      var at: nat := StoreAt(regs, code, f);
      assert at != W(at + 8);
      assert ApartFrom(at, slots);
    }
  }

  /** Running a prologue whose words are apart leaves all of them, and the return address, in place. */
  lemma {:induction false} RunIntact(s: Machine, ps: seq<Code>, f: FrameInfo, slots: set<nat>)
    requires CodesOk(ps) && f.reg < 16 && Apart(s, ps, f, slots)
    ensures Intact(Run(s, ps, f).mem, s, ps, f)
    ensures Read64(Run(s, ps, f).mem, s.regs[RSP]) == Read64(s.mem, s.regs[RSP])
  {
    hide Read64, Exec, Words, Kept;
    if ps != [] {
      var before, code := ps[..|ps| - 1], ps[|ps| - 1];
      var b := Run(s, before, f);
      var own := Words(b.regs, code, f);
      var inner := slots - own;
      RunIntact(s, before, f, inner);
      forall t | t in inner ensures Read64(Exec(b, code, f).mem, t) == Read64(b.mem, t) {
        ExecElsewhere(b, code, f, t);
      }
      IntactKept(b.mem, Exec(b, code, f).mem, s, before, f, inner);
      ReturnSlot(s, before, f, inner);
      OwnApart(b.regs, code, f, slots);
      ExecKept(b, code, f);
    }
  }
}
