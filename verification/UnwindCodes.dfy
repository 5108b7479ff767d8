/** Unwind data as a compiler writes it, and what the unwinder reads back out of it. */
module UnwindCodes {
  import opened Bytes
  import opened Wrappers
  import opened Unwinder

  datatype Code =
    | Push(reg: nat)
    | AllocSmall(units: nat)
    | AllocBig(units: nat)
    | AllocHuge(size: nat)
    | SetFrame
    | Save(reg: nat, units: nat)
    | SaveFar(reg: nat, off: nat)
    | SaveXmm(reg: nat, units: nat)
    | SaveXmmFar(reg: nat, off: nat)

  /** A code, and the prologue offset just past the instruction it describes. */
  datatype Entry = Entry(at: byte, code: Code)

  predicate CodeOk(c: Code)
  {
    match c
    case Push(r) => r < 16
    case AllocSmall(n) => 1 <= n <= 16
    case AllocBig(n) => n < 0x1_0000
    case AllocHuge(n) => n < 0x1_0000_0000
    case SetFrame => true
    case Save(r, n) => r < 16 && n < 0x1_0000
    case SaveFar(r, n) => r < 16 && n < 0x1_0000_0000
    case SaveXmm(r, n) => r < 16 && n < 0x1_0000
    case SaveXmmFar(r, n) => r < 16 && n < 0x1_0000_0000
  }

  predicate EntriesOk(es: seq<Entry>) { forall i | 0 <= i < |es| :: CodeOk(es[i].code) }

  /** The operation, and the four bits beside it. */
  function Op(c: Code): (op: nat)
    ensures op < 16
  {
    match c
    case Push(_) => 0
    case AllocBig(_) => 1
    case AllocHuge(_) => 1
    case AllocSmall(_) => 2
    case SetFrame => 3
    case Save(_, _) => 4
    case SaveFar(_, _) => 5
    case SaveXmm(_, _) => 8
    case SaveXmmFar(_, _) => 9
  }

  function Info(c: Code): (info: nat)
    requires CodeOk(c)
    ensures info < 16
  {
    match c
    case Push(r) => r
    case AllocBig(_) => 0
    case AllocHuge(_) => 1
    case AllocSmall(n) => n - 1
    case SetFrame => 0
    case Save(r, _) => r
    case SaveFar(r, _) => r
    case SaveXmm(r, _) => r
    case SaveXmmFar(r, _) => r
  }

  /** The operand, and its size in bytes. */
  function Operand(c: Code): nat
  {
    match c
    case AllocBig(n) => n
    case AllocHuge(n) => n
    case Save(_, n) => n
    case SaveFar(_, n) => n
    case SaveXmm(_, n) => n
    case SaveXmmFar(_, n) => n
    case _ => 0
  }

  function OperandSize(c: Code): (n: nat)
    ensures n == 0 || n == 2 || n == 4
  {
    if c.AllocBig? || c.Save? || c.SaveXmm? then 2 else if c.AllocHuge? || c.SaveFar? || c.SaveXmmFar? then 4 else 0
  }

  /** The bytes of one code: its offset, operation and operand. */
  function Encode(e: Entry): (s: seq<byte>)
    requires CodeOk(e.code)
    ensures |s| == 2 + OperandSize(e.code)
  {
    [e.at, Op(e.code) + 16 * Info(e.code)] + ToLE(Operand(e.code), OperandSize(e.code))
  }

  function EncodeAll(es: seq<Entry>): (s: seq<byte>)
    requires EntriesOk(es)
    ensures |s| % 2 == 0
  {
    if es == [] then [] else Encode(es[0]) + EncodeAll(es[1..])
  }

  /** How much the stack pointer moves down for an allocation. */
  function AllocSize(c: Code): nat
  {
    match c
    case AllocSmall(n) => n * 8
    case AllocBig(n) => n * 8
    case AllocHuge(n) => n
    case _ => 0
  }

  function SaveOffset(c: Code): nat
  {
    match c
    case Save(_, n) => n * 8
    case SaveFar(_, n) => n
    case SaveXmm(_, n) => n * 16
    case SaveXmmFar(_, n) => n
    case _ => 0
  }

  /** What undoing a code does to the context. */
  function Undo(m: Mem, code: Code, base: u64, f: FrameInfo, c: Ctx): Option<Ctx>
    requires CodeOk(code) && f.reg < 16
  {
    match code
    case Push(r) => Pop(m, c, r)
    case SetFrame => Some(SetReg(c, RSP, GetFrame(c, f)))
    case Save(r, _) => Restore(m, c, r, W(base + SaveOffset(code)))
    case SaveFar(r, _) => Restore(m, c, r, W(base + SaveOffset(code)))
    case SaveXmm(r, _) => RestoreXmm(m, c, r, W(base + SaveOffset(code)))
    case SaveXmmFar(r, _) => RestoreXmm(m, c, r, W(base + SaveOffset(code)))
    case _ => Some(AddRsp(c, AllocSize(code)))
  }

  function UndoEntries(m: Mem, es: seq<Entry>, past: bool, limit: nat, base: u64, f: FrameInfo, c: Ctx): Option<Ctx>
    requires EntriesOk(es) && f.reg < 16
  {
    if es == [] then Some(c)
    else
      var c' :- if past || es[0].at <= limit then Undo(m, es[0].code, base, f, c) else Some(c);
      UndoEntries(m, es[1..], past, limit, base, f, c')
  }

  // ---- bytes in memory ------------------------------------------------------------------------

  ghost predicate ByteLies(m: Mem, a: nat, bs: seq<byte>, i: nat)
    requires i < |bs|
  {
    a + i in m && m[a + i] == bs[i]
  }

  ghost predicate Lies(m: Mem, a: nat, bs: seq<byte>)
  {
    forall i | 0 <= i < |bs| :: ByteLies(m, a, bs, i)
  }

  lemma ReadLies(m: Mem, a: nat, bs: seq<byte>, k: nat, n: nat)
    requires Lies(m, a, bs) && k + n <= |bs|
    ensures Present(m, a + k, n) && Slice(m, a + k, n) == bs[k..k + n]
    ensures Read(m, a + k, n) == Some(FromLE(bs[k..k + n]))
  {
    forall i | a + k <= i < a + k + n ensures i in m {
      assert ByteLies(m, a, bs, i - a);
    }
    var s := Slice(m, a + k, n);
    forall i | 0 <= i < n ensures s[i] == bs[k + i] {
      assert ByteLies(m, a, bs, k + i);
    }
  }

  lemma ReadByte(m: Mem, a: nat, bs: seq<byte>, k: nat)
    requires Lies(m, a, bs) && k < |bs|
    ensures Read(m, a + k, 1) == Some(bs[k])
  {
    ReadLies(m, a, bs, k, 1);
    assert FromLE(bs[k..k + 1]) == bs[k] + 256 * FromLE(bs[k..k + 1][1..]);
  }

  lemma ReadWord(m: Mem, a: nat, bs: seq<byte>, k: nat, n: nat, v: nat)
    requires Lies(m, a, bs) && k + n <= |bs| && v < Pow256(n) && bs[k..k + n] == ToLE(v, n)
    ensures Read(m, a + k, n) == Some(v)
  {
    ReadLies(m, a, bs, k, n);
    FromToLE(v, n);
  }

  lemma ReadOperand(m: Mem, a: nat, x: byte, y: byte, v: nat, n: nat)
    requires Lies(m, a, [x, y] + ToLE(v, n)) && v < Pow256(n)
    ensures Read(m, a + 2, n) == Some(v)
  {
    var bs := [x, y] + ToLE(v, n);
    assert bs[2..2 + n] == ToLE(v, n);
    ReadWord(m, a, bs, 2, n, v);
  }

  /** The operation byte splits back, and takes as many slots as the code has bytes for. */
  lemma OpByte(c: Code)
    requires CodeOk(c)
    ensures var b := Op(c) + 16 * Info(c); b < 256 && b % 16 == Op(c) && b / 16 % 16 == Info(c)
    ensures SlotsOf(Op(c), Info(c)) * 2 == 2 + OperandSize(c)
    ensures Operand(c) < Pow256(OperandSize(c))
  {
    Pow256Values();
  }

  /** A slot whose bytes are those of a code is undone as that code is. */
  lemma SlotUndone(m: Mem, a: nat, code: Code, b: byte, applies: bool, base: u64, f: FrameInfo, c: Ctx)
    requires CodeOk(code) && f.reg < 16 && Read(m, a + 1, 1) == Some(b) && b % 16 == Op(code)
             && b / 16 % 16 == Info(code)
    requires OperandSize(code) > 0 ==> Read(m, a + 2, OperandSize(code)) == Some(Operand(code))
    ensures UndoSlot(m, a, applies, base, f, c) == if applies then Undo(m, code, base, f, c) else Some(c)
  {
    hide Read, Pop, Restore, RestoreXmm, SetReg, GetFrame, AddRsp, W;
  }

  /** Reading one encoded code back undoes that code and takes its slots. */
  lemma DecodeOne(m: Mem, a: nat, e: Entry, applies: bool, base: u64, f: FrameInfo, c: Ctx)
    requires CodeOk(e.code) && f.reg < 16 && Lies(m, a, Encode(e))
    ensures Read(m, a, 1) == Some(e.at)
    ensures Read(m, a + 1, 1).Some?
    ensures var b := Read(m, a + 1, 1).value; SlotsOf(b % 16, b / 16 % 16) * 2 == |Encode(e)|
    ensures UndoSlot(m, a, applies, base, f, c) == if applies then Undo(m, e.code, base, f, c) else Some(c)
  {
    hide Read, ToLE, Lies, Undo, UndoSlot, SlotsOf, Op, Info, Operand, OperandSize;
    OpByte(e.code);
    ReadByte(m, a, Encode(e), 0);
    ReadByte(m, a, Encode(e), 1);
    var b: byte := Op(e.code) + 16 * Info(e.code);
    if OperandSize(e.code) > 0 {
      ReadOperand(m, a, e.at, b, Operand(e.code), OperandSize(e.code));
    }
    SlotUndone(m, a, e.code, b, applies, base, f, c);
  }

  /** Reading a run of encoded codes back undoes them in the order they lie. */
  lemma {:induction false} DecodeAll(m: Mem, codes: nat, i: nat, es: seq<Entry>, past: bool, limit: nat, base: u64,
                                     f: FrameInfo, c: Ctx)
    requires EntriesOk(es) && f.reg < 16 && Lies(m, codes + i * 2, EncodeAll(es))
    ensures UndoFrom(m, codes, i, i + |EncodeAll(es)| / 2, past, limit, base, f, c) ==
              UndoEntries(m, es, past, limit, base, f, c)
    decreases |es|
  {
    hide UndoSlot, Undo, Read, Encode;
    if es != [] {
      var e, a := es[0], codes + i * 2;
      var bs, rest := Encode(e), EncodeAll(es[1..]);
      LiesParts(m, a, bs, rest);
      var applies := past || e.at <= limit;
      DecodeOne(m, a, e, applies, base, f, c);
      var r := UndoSlot(m, a, applies, base, f, c);
      if r.Some? {
        DecodeAll(m, codes, i + |bs| / 2, es[1..], past, limit, base, f, r.value);
      }
    }
  }

  lemma LiesParts(m: Mem, a: nat, x: seq<byte>, y: seq<byte>)
    requires Lies(m, a, x + y)
    ensures Lies(m, a, x) && Lies(m, a + |x|, y)
  {
    forall i | 0 <= i < |x| ensures ByteLies(m, a, x, i) {
      assert ByteLies(m, a, x + y, i);
    }
    var b := a + |x|;
    forall i | 0 <= i < |y| ensures ByteLies(m, b, y, i) {
      assert ByteLies(m, a, x + y, |x| + i);
    }
  }
}
