/**
  The prologue a function runs on entry, executed forwards, and the theorem the unwinder is
  for: undoing the codes of the steps that have run gives back the caller's registers.
  */
module Prologue {
  import opened Bytes
  import opened Wrappers
  import opened Unwinder
  import opened UnwindCodes

  datatype Machine = Machine(regs: Regs, mem: Mem)

  function Put64(m: Mem, a: nat, v: u64): Mem
  {
    var b := ToLE(v, 8);
    m[a := b[0]][a + 1 := b[1]][a + 2 := b[2]][a + 3 := b[3]]
     [a + 4 := b[4]][a + 5 := b[5]][a + 6 := b[6]][a + 7 := b[7]]
  }

  /** Where saved registers are addressed from. */
  function FrameBase(regs: Regs, f: FrameInfo): u64
    requires f.reg < 16
  {
    if f.reg != 0 then W(regs[f.reg] - f.off * 16) else regs[RSP]
  }

  /** The address a step stores to, if it stores. */
  function StoreAt(regs: Regs, code: Code, f: FrameInfo): u64
    requires f.reg < 16
  {
    if code.Push? then W(regs[RSP] as int - 8) else W(FrameBase(regs, f) as int + SaveOffset(code))
  }

  predicate Wide(code: Code) { code.SaveXmm? || code.SaveXmmFar? }

  predicate Saves(code: Code) { code.Save? || code.SaveFar? || Wide(code) }

  predicate Stores(code: Code) { code.Push? || Saves(code) }

  /** The register a step stores, the low half of an XMM register. */
  function First(code: Code): nat
    requires Stores(code)
  {
    if Wide(code) then Xmm(code.reg) else code.reg
  }

  /** The step puts register r away. */
  predicate Puts(code: Code, r: nat) { Stores(code) && (r == First(code) || (Wide(code) && r == First(code) + 1)) }

  /** Both halves of an XMM register, the low half first. */
  function PutXmm(s: Machine, code: Code, f: FrameInfo): Mem
    requires CodeOk(code) && f.reg < 16 && Wide(code)
  {
    var at := StoreAt(s.regs, code, f);
    Put64(Put64(s.mem, at, s.regs[First(code)]), W(at + 8), s.regs[First(code) + 1])
  }

  /** One prologue instruction. */
  function Exec(s: Machine, code: Code, f: FrameInfo): Machine
    requires CodeOk(code) && f.reg < 16
  {
    match code
    case Push(r) =>
      var sp := W(s.regs[RSP] as int - 8);
      Machine(s.regs[RSP := sp], Put64(s.mem, sp, s.regs[r]))
    case SetFrame => s.(regs := s.regs[f.reg := W(s.regs[RSP] as int + f.off * 16)])
    case Save(r, _) => s.(mem := Put64(s.mem, StoreAt(s.regs, code, f), s.regs[r]))
    case SaveFar(r, _) => s.(mem := Put64(s.mem, StoreAt(s.regs, code, f), s.regs[r]))
    case SaveXmm(_, _) => s.(mem := PutXmm(s, code, f))
    case SaveXmmFar(_, _) => s.(mem := PutXmm(s, code, f))
    case _ => s.(regs := s.regs[RSP := W(s.regs[RSP] as int - AllocSize(code))])
  }

  predicate CodesOk(ps: seq<Code>) { forall i | 0 <= i < |ps| :: CodeOk(ps[i]) }

  function Run(s: Machine, ps: seq<Code>, f: FrameInfo): Machine
    requires CodesOk(ps) && f.reg < 16
  {
    if ps == [] then s else Exec(Run(s, ps[..|ps| - 1], f), ps[|ps| - 1], f)
  }

  predicate HasFrame(ps: seq<Code>) { SetFrame in ps }

  predicate HasSave(ps: seq<Code>) { exists i | 0 <= i < |ps| :: Saves(ps[i]) }

  /** The registers a prologue has put away. */
  predicate Saved(ps: seq<Code>, r: nat)
  {
    exists i | 0 <= i < |ps| :: Puts(ps[i], r)
  }

  /**
    The prologues the unwind format describes: pushes come before the frame register is set,
    saves come last, the frame register is pushed before it is set and is saved no other way,
    and nothing saves the stack pointer.
    */
  predicate Shaped(ps: seq<Code>, f: FrameInfo)
    requires f.reg < 16
  {
    ps == [] ||
    (var before, code := ps[..|ps| - 1], ps[|ps| - 1];
     Shaped(before, f) &&
     match code
     case Push(r) => r != RSP && !HasFrame(before) && !HasSave(before)
     case SetFrame => f.reg != 0 && f.reg != RSP && !HasFrame(before) && !HasSave(before) && Push(f.reg) in before
     case Save(r, _) => r != RSP && (f.reg != 0 ==> r != f.reg && HasFrame(before))
     case SaveFar(r, _) => r != RSP && (f.reg != 0 ==> r != f.reg && HasFrame(before))
     case SaveXmm(_, _) => f.reg != 0 ==> HasFrame(before)
     case SaveXmmFar(_, _) => f.reg != 0 ==> HasFrame(before)
     case _ => !HasSave(before))
  }

  /** The words a step stored are in memory. */
  ghost predicate Kept(m: Mem, regs: Regs, code: Code, f: FrameInfo)
    requires CodeOk(code) && f.reg < 16
  {
    && (Stores(code) ==> Read64(m, StoreAt(regs, code, f)) == Some(regs[First(code)]))
    && (Wide(code) ==> Read64(m, W(StoreAt(regs, code, f) + 8)) == Some(regs[First(code) + 1]))
  }

  /** Every word the prologue stored is still there. */
  ghost predicate Intact(m: Mem, s: Machine, ps: seq<Code>, f: FrameInfo)
    requires CodesOk(ps) && f.reg < 16
  {
    ps == [] ||
    (var before, code := ps[..|ps| - 1], ps[|ps| - 1];
     Intact(m, s, before, f) &&
     Kept(m, Run(s, before, f).regs, code, f))
  }

  /** Undo the steps that have run, last first. */
  function UndoRun(m: Mem, ps: seq<Code>, base: u64, f: FrameInfo, c: Ctx): Option<Ctx>
    requires CodesOk(ps) && f.reg < 16
  {
    if ps == [] then Some(c)
    else
      var c' :- Undo(m, ps[|ps| - 1], base, f, c);
      UndoRun(m, ps[..|ps| - 1], base, f, c')
  }

  /**
    How a context stands to the machine as the steps `ps` left it: it locates the frame, through
    the frame register once that is set and through the stack pointer until then, and each
    register asked about is either put away or untouched.
    */
  ghost predicate Agrees(s: Machine, ps: seq<Code>, f: FrameInfo, c: Ctx, wanted: set<nat>)
    requires f.reg < 16
  {
    && (if HasFrame(ps) then c.regs[f.reg] == s.regs[f.reg] else c.regs[RSP] == s.regs[RSP])
    && forall r | r in wanted && r < 48 && r != RSP :: Saved(ps, r) || c.regs[r] == s.regs[r]
  }

  ghost predicate BaseOk(s: Machine, ps: seq<Code>, f: FrameInfo, base: u64)
    requires f.reg < 16
  {
    HasSave(ps) ==> base == FrameBase(s.regs, f)
  }

  lemma WrapBack(x: u64, n: int)
    ensures W(W(x - n) + n) == x && W(W(x + n) - n) == x
  {
  }

  lemma LastPart(ps: seq<Code>)
    requires ps != []
    ensures var before, code := ps[..|ps| - 1], ps[|ps| - 1];
            && ps == before + [code]
            && (HasFrame(ps) <==> HasFrame(before) || code == SetFrame)
            && (HasSave(ps) <==> HasSave(before) || Saves(code))
            && (forall r :: Saved(ps, r) <==> Saved(before, r) || Puts(code, r))
  {
    var before, code := ps[..|ps| - 1], ps[|ps| - 1];
    assert ps == before + [code];
    if HasSave(ps) && !Saves(code) {
      var i :| 0 <= i < |ps| && Saves(ps[i]);
      assert before[i] == ps[i];
    }
    if HasSave(before) {
      var i :| 0 <= i < |before| && Saves(before[i]);
      assert before[i] == ps[i];
    }
    forall r ensures Saved(ps, r) <==> Saved(before, r) || Puts(code, r) {
      if i :| 0 <= i < |before| && Puts(before[i], r) {
        assert ps[i] == before[i];
      }
      if i :| 0 <= i < |ps| && Puts(ps[i], r) {
        assert i < |before| ==> before[i] == ps[i];
      }
    }
  }

  /** Undoing the last step takes the machine back one step, as far as the context can tell. */
  lemma UndoLast(m: Mem, s0: Machine, ps: seq<Code>, f: FrameInfo, base: u64, c: Ctx, wanted: set<nat>)
    requires ps != [] && CodesOk(ps) && f.reg < 16 && Shaped(ps, f) && Intact(m, s0, ps, f)
    requires Agrees(Run(s0, ps, f), ps, f, c, wanted) && BaseOk(Run(s0, ps, f), ps, f, base)
    ensures var before, code := ps[..|ps| - 1], ps[|ps| - 1];
            var u := Undo(m, code, base, f, c);
            u.Some? && Agrees(Run(s0, before, f), before, f, u.value, wanted)
              && BaseOk(Run(s0, before, f), before, f, base)
  {
    var before, code := ps[..|ps| - 1], ps[|ps| - 1];
    LastPart(ps);
    hide HasFrame, HasSave, Saved, Run, Shaped, Intact, W;
    var s := Run(s0, before, f);
    RunLast(m, s0, ps, f);
    UndoExec(m, s, before, code, f, base, c, wanted);
  }

  lemma RunLast(m: Mem, s0: Machine, ps: seq<Code>, f: FrameInfo)
    requires ps != [] && CodesOk(ps) && f.reg < 16
    ensures var before, code := ps[..|ps| - 1], ps[|ps| - 1];
            && Run(s0, ps, f) == Exec(Run(s0, before, f), code, f)
            && (Intact(m, s0, ps, f) ==>
                  && Intact(m, s0, before, f) && Kept(m, Run(s0, before, f).regs, code, f))
            && (Shaped(ps, f) ==> Shaped(before, f) && StepShaped(before, code, f))
  {
  }

  predicate StepShaped(before: seq<Code>, code: Code, f: FrameInfo)
    requires f.reg < 16
  {
    match code
    case Push(r) => r != RSP && !HasFrame(before) && !HasSave(before)
    case SetFrame => f.reg != 0 && f.reg != RSP && !HasFrame(before) && !HasSave(before) && Push(f.reg) in before
    case Save(r, _) => r != RSP && (f.reg != 0 ==> r != f.reg && HasFrame(before))
    case SaveFar(r, _) => r != RSP && (f.reg != 0 ==> r != f.reg && HasFrame(before))
    case SaveXmm(_, _) => f.reg != 0 ==> HasFrame(before)
    case SaveXmmFar(_, _) => f.reg != 0 ==> HasFrame(before)
    case _ => !HasSave(before)
  }

  lemma UndoExec(m: Mem, s: Machine, before: seq<Code>, code: Code, f: FrameInfo, base: u64, c: Ctx, wanted: set<nat>)
    requires CodeOk(code) && f.reg < 16 && Shaped(before, f) && StepShaped(before, code, f)
    requires Kept(m, s.regs, code, f)
    requires Agrees(Exec(s, code, f), before + [code], f, c, wanted)
             && BaseOk(Exec(s, code, f), before + [code], f, base)
    ensures var u := Undo(m, code, base, f, c);
            u.Some? && Agrees(s, before, f, u.value, wanted) && BaseOk(s, before, f, base)
  {
    var ps := before + [code];
    assert ps[..|ps| - 1] == before && ps[|ps| - 1] == code;
    LastPart(ps);
    if HasFrame(before) {
      FrameNamed(before, f);
    }
    UndoStep(m, s, before, code, f, base, c, wanted);
  }

  lemma UndoStep(m: Mem, s: Machine, before: seq<Code>, code: Code, f: FrameInfo, base: u64, c: Ctx, wanted: set<nat>)
    requires CodeOk(code) && f.reg < 16 && StepShaped(before, code, f)
    requires HasFrame(before) ==> f.reg != 0 && f.reg != RSP
    requires Kept(m, s.regs, code, f)
    requires HasFrame(before + [code]) <==> HasFrame(before) || code == SetFrame
    requires HasSave(before + [code]) <==> HasSave(before) || Saves(code)
    requires forall r :: Saved(before + [code], r) <==> Saved(before, r) || Puts(code, r)
    requires Agrees(Exec(s, code, f), before + [code], f, c, wanted)
             && BaseOk(Exec(s, code, f), before + [code], f, base)
    ensures var u := Undo(m, code, base, f, c);
            u.Some? && Agrees(s, before, f, u.value, wanted) && BaseOk(s, before, f, base)
  {
    hide HasFrame, HasSave, Saved, W, Read64, Put64;
    match code
    case Push(r) => WrapBack(s.regs[RSP], 8);
    case SetFrame =>
      WrapBack(s.regs[RSP], f.off * 16);
      PushSaved(before, f.reg);
    case Save(r, _) =>
    case SaveFar(r, _) =>
    case SaveXmm(r, _) =>
    case SaveXmmFar(r, _) =>
    case _ => WrapBack(s.regs[RSP], AllocSize(code));
  }

  lemma PushSaved(ps: seq<Code>, r: nat)
    requires Push(r) in ps
    ensures Saved(ps, r)
  {
    var i :| 0 <= i < |ps| && ps[i] == Push(r);
  }

  lemma {:induction false} FrameNamed(ps: seq<Code>, f: FrameInfo)
    requires f.reg < 16 && Shaped(ps, f) && HasFrame(ps)
    ensures f.reg != 0 && f.reg != RSP
  {
    if ps[|ps| - 1] != SetFrame {
      var before := ps[..|ps| - 1];
      assert ps == before + [ps[|ps| - 1]];
      FrameNamed(before, f);
    }
  }

  /** Undoing everything that has run gives the stack pointer and every wanted register back. */
  lemma {:induction false} UndoAll(m: Mem, s0: Machine, ps: seq<Code>, f: FrameInfo, base: u64, c: Ctx,
                                   wanted: set<nat>)
    requires CodesOk(ps) && f.reg < 16 && Shaped(ps, f) && Intact(m, s0, ps, f)
    requires Agrees(Run(s0, ps, f), ps, f, c, wanted) && BaseOk(Run(s0, ps, f), ps, f, base)
    ensures UndoRun(m, ps, base, f, c).Some?
    ensures UndoRun(m, ps, base, f, c).value.regs[RSP] == s0.regs[RSP]
    ensures forall r | r in wanted && r < 48 && r != RSP :: UndoRun(m, ps, base, f, c).value.regs[r] == s0.regs[r]
    decreases |ps|
  {
    if ps != [] {
      hide Undo, Exec, Agrees, BaseOk;
      UndoLast(m, s0, ps, f, base, c, wanted);
      RunLast(m, s0, ps, f);
      var u := Undo(m, ps[|ps| - 1], base, f, c).value;
      UndoAll(m, s0, ps[..|ps| - 1], f, base, u, wanted);
    }
  }
}
