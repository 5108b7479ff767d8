/** The byte stream of a saved state: how fields are appended to it and taken from it again. */
module Stream {
  import opened Bytes

  type u16 = v: int | 0 <= v < 0x1_0000
  type u32 = v: int | 0 <= v < 0x1_0000_0000
  type i32 = v: int | -0x8000_0000 <= v < 0x8000_0000

  /** A string of bytes short enough for its length to be written down. */
  type Text = s: seq<byte> | |s| < 0x1_0000_0000_0000_0000 witness []

  // ---- what is written ----------------------------------------------------------------------------
  // Each field goes in front of what follows it, so that a record is read off the front in the
  // order in which it was written.

  function PutU8(v: byte, t: seq<byte>): seq<byte> { ToLE(v, 1) + t }
  function PutU16(v: u16, t: seq<byte>): seq<byte> { ToLE(v, 2) + t }
  function PutU32(v: u32, t: seq<byte>): seq<byte> { ToLE(v, 4) + t }
  function PutU64(v: u64, t: seq<byte>): seq<byte> { ToLE(v, 8) + t }
  function PutI32(v: i32, t: seq<byte>): seq<byte> { PutU32(v % 0x1_0000_0000, t) }
  function PutBool(b: bool, t: seq<byte>): seq<byte> { PutU8(if b then 1 else 0, t) }
  function PutRaw(s: seq<byte>, t: seq<byte>): seq<byte> { s + t }
  function PutText(s: Text, t: seq<byte>): seq<byte> { PutU64(|s|, PutRaw(s, t)) }

  // ---- what is read -------------------------------------------------------------------------------

  /** What a reader has left, and whether it has ever come up short. */
  datatype Feed = Feed(rest: seq<byte>, ok: bool)

  datatype Got<+T> = Got(v: T, f: Feed)

  function Short(f: Feed): Feed { f.(ok := false) }

  /** A run of bytes; nothing once the feed has come up short. */
  function GetRaw(f: Feed, n: nat): Got<seq<byte>>
  {
    if !f.ok || n > |f.rest| then Got([], Short(f)) else Got(f.rest[..n], f.(rest := f.rest[n..]))
  }

  /** A little-endian number of n bytes; 0 once the feed has come up short. */
  function GetNumber(f: Feed, n: nat): (g: Got<nat>)
    ensures g.v < Pow256(n)
  {
    var g := GetRaw(f, n);
    FromLEBound(g.v);
    if g.f.ok then Got(FromLE(g.v), g.f) else Got(0, g.f)
  }

  function GetU8(f: Feed): Got<byte> { Pow256Values(); var g := GetNumber(f, 1); Got(g.v, g.f) }
  function GetU16(f: Feed): Got<u16> { Pow256Values(); var g := GetNumber(f, 2); Got(g.v, g.f) }
  function GetU32(f: Feed): Got<u32> { Pow256Values(); var g := GetNumber(f, 4); Got(g.v, g.f) }
  function GetU64(f: Feed): Got<u64> { Pow256Values(); var g := GetNumber(f, 8); Got(g.v, g.f) }

  function GetI32(f: Feed): Got<i32>
  {
    var g := GetU32(f);
    Got(if g.v < 0x8000_0000 then g.v else g.v - 0x1_0000_0000, g.f)
  }

  function GetBool(f: Feed): Got<bool> { var g := GetU8(f); Got(g.v != 0, g.f) }

  function GetText(f: Feed): Got<Text>
  {
    var g := GetU64(f);
    var s := GetRaw(g.f, g.v);
    Got(s.v, s.f)
  }

  // ---- reading back ---------------------------------------------------------------------------------

  lemma RawBack(s: seq<byte>, t: seq<byte>)
    ensures GetRaw(Feed(PutRaw(s, t), true), |s|) == Got(s, Feed(t, true))
  {
    assert (s + t)[..|s|] == s && (s + t)[|s|..] == t;
  }

  lemma NumberBack(v: nat, n: nat, t: seq<byte>)
    requires v < Pow256(n)
    ensures GetNumber(Feed(ToLE(v, n) + t, true), n) == Got(v, Feed(t, true))
  {
    RawBack(ToLE(v, n), t);
    FromToLE(v, n);
  }

  lemma Back8(v: byte, t: seq<byte>)
    ensures GetU8(Feed(PutU8(v, t), true)) == Got(v, Feed(t, true))
  {
    Pow256Values();
    NumberBack(v, 1, t);
  }

  lemma Back16(v: u16, t: seq<byte>)
    ensures GetU16(Feed(PutU16(v, t), true)) == Got(v, Feed(t, true))
  {
    Pow256Values();
    NumberBack(v, 2, t);
  }

  lemma Back32(v: u32, t: seq<byte>)
    ensures GetU32(Feed(PutU32(v, t), true)) == Got(v, Feed(t, true))
  {
    Pow256Values();
    NumberBack(v, 4, t);
  }

  lemma Back64(v: u64, t: seq<byte>)
    ensures GetU64(Feed(PutU64(v, t), true)) == Got(v, Feed(t, true))
  {
    Pow256Values();
    NumberBack(v, 8, t);
  }

  lemma BackI32(v: i32, t: seq<byte>)
    ensures GetI32(Feed(PutI32(v, t), true)) == Got(v, Feed(t, true))
  {
    Back32(v % 0x1_0000_0000, t);
  }

  lemma BackBool(b: bool, t: seq<byte>)
    ensures GetBool(Feed(PutBool(b, t), true)) == Got(b, Feed(t, true))
  {
    Back8(if b then 1 else 0, t);
  }

  lemma BackText(s: Text, t: seq<byte>)
    ensures GetText(Feed(PutText(s, t), true)) == Got(s, Feed(t, true))
  {
    Back64(|s|, PutRaw(s, t));
    RawBack(s, t);
  }

  /** Every field is read back as it was written, whatever follows it. */
  lemma FieldsBack()
    ensures forall v: byte, t: seq<byte> :: GetU8(Feed(PutU8(v, t), true)) == Got(v, Feed(t, true))
    ensures forall v: u16, t: seq<byte> :: GetU16(Feed(PutU16(v, t), true)) == Got(v, Feed(t, true))
    ensures forall v: u32, t: seq<byte> :: GetU32(Feed(PutU32(v, t), true)) == Got(v, Feed(t, true))
    ensures forall v: u64, t: seq<byte> :: GetU64(Feed(PutU64(v, t), true)) == Got(v, Feed(t, true))
    ensures forall v: i32, t: seq<byte> :: GetI32(Feed(PutI32(v, t), true)) == Got(v, Feed(t, true))
    ensures forall b: bool, t: seq<byte> :: GetBool(Feed(PutBool(b, t), true)) == Got(b, Feed(t, true))
    ensures forall s: Text, t: seq<byte> :: GetText(Feed(PutText(s, t), true)) == Got(s, Feed(t, true))
  {
    hide GetU8, GetU16, GetU32, GetU64, GetI32, GetBool, GetText, PutU8, PutU16, PutU32, PutU64, PutI32, PutBool,
         PutText;
    forall v: byte, t: seq<byte> ensures GetU8(Feed(PutU8(v, t), true)) == Got(v, Feed(t, true)) { Back8(v, t); }
    forall v: u16, t: seq<byte> ensures GetU16(Feed(PutU16(v, t), true)) == Got(v, Feed(t, true)) { Back16(v, t); }
    forall v: u32, t: seq<byte> ensures GetU32(Feed(PutU32(v, t), true)) == Got(v, Feed(t, true)) { Back32(v, t); }
    forall v: u64, t: seq<byte> ensures GetU64(Feed(PutU64(v, t), true)) == Got(v, Feed(t, true)) { Back64(v, t); }
    forall v: i32, t: seq<byte> ensures GetI32(Feed(PutI32(v, t), true)) == Got(v, Feed(t, true)) { BackI32(v, t); }
    forall b: bool, t: seq<byte> ensures GetBool(Feed(PutBool(b, t), true)) == Got(b, Feed(t, true)) { BackBool(b, t); }
    forall s: Text, t: seq<byte> ensures GetText(Feed(PutText(s, t), true)) == Got(s, Feed(t, true)) { BackText(s, t); }
  }

  // ---- the two classes ------------------------------------------------------------------------------

  /** What has been written, in front of what is still to come. */
  function Upto(done: seq<byte>, t: seq<byte>): seq<byte> { done + t }

  class Writer {
    var buf: seq<byte>

    constructor ()
      ensures buf == []
    {
      buf := [];
    }

    method Clear()
      modifies this
      ensures buf == []
    {
      buf := [];
    }

    method Raw(s: seq<byte>)
      modifies this
      ensures forall t: seq<byte> {:trigger Upto(buf, t)} :: Upto(buf, t) == Upto(old(buf), PutRaw(s, t))
    {
      buf := buf + s;
      forall t: seq<byte> ensures Upto(buf, t) == Upto(old(buf), PutRaw(s, t)) {
        assert old(buf) + s + t == old(buf) + (s + t);
      }
    }

    method U8(v: byte)
      modifies this
      ensures forall t: seq<byte> {:trigger Upto(buf, t)} :: Upto(buf, t) == Upto(old(buf), PutU8(v, t))
    {
      Raw(ToLE(v, 1));
      assert forall t: seq<byte> :: PutU8(v, t) == PutRaw(ToLE(v, 1), t);
    }

    method U16(v: u16)
      modifies this
      ensures forall t: seq<byte> {:trigger Upto(buf, t)} :: Upto(buf, t) == Upto(old(buf), PutU16(v, t))
    {
      Raw(ToLE(v, 2));
      assert forall t: seq<byte> :: PutU16(v, t) == PutRaw(ToLE(v, 2), t);
    }

    method U32(v: u32)
      modifies this
      ensures forall t: seq<byte> {:trigger Upto(buf, t)} :: Upto(buf, t) == Upto(old(buf), PutU32(v, t))
    {
      Raw(ToLE(v, 4));
      assert forall t: seq<byte> :: PutU32(v, t) == PutRaw(ToLE(v, 4), t);
    }

    method U64(v: u64)
      modifies this
      ensures forall t: seq<byte> {:trigger Upto(buf, t)} :: Upto(buf, t) == Upto(old(buf), PutU64(v, t))
    {
      Raw(ToLE(v, 8));
      assert forall t: seq<byte> :: PutU64(v, t) == PutRaw(ToLE(v, 8), t);
    }

    method I32(v: i32)
      modifies this
      ensures forall t: seq<byte> {:trigger Upto(buf, t)} :: Upto(buf, t) == Upto(old(buf), PutI32(v, t))
    {
      U32(v % 0x1_0000_0000);
    }

    method Bool(v: bool)
      modifies this
      ensures forall t: seq<byte> {:trigger Upto(buf, t)} :: Upto(buf, t) == Upto(old(buf), PutBool(v, t))
    {
      U8(if v then 1 else 0);
    }

    method Str(v: Text)
      modifies this
      ensures forall t: seq<byte> {:trigger Upto(buf, t)} :: Upto(buf, t) == Upto(old(buf), PutText(v, t))
    {
      U64(|v|);
      Raw(v);
    }
  }

  /** A reader never goes past its buffer, and stays failed once a read has come up short. */
  class Reader {
    const buf: seq<byte>
    var at: nat
    var ok: bool

    predicate Valid()
      reads this
    {
      at <= |buf|
    }

    function Now(): Feed
      reads this
      requires Valid()
    {
      Feed(buf[at..], ok)
    }

    constructor (b: seq<byte>)
      ensures Valid() && buf == b && Now() == Feed(b, true)
    {
      buf, at, ok := b, 0, true;
    }

    /** block(): nothing, and the reader poisoned, when there are not n bytes left. */
    method Block(n: nat) returns (s: seq<byte>)
      requires Valid()
      modifies this
      ensures Valid() && Got(s, Now()) == GetRaw(old(Now()), n)
    {
      if !ok || n > |buf| - at {
        ok := false;
        return [];
      }
      s := buf[at..at + n];
      assert buf[at..][..n] == s && buf[at..][n..] == buf[at + n..];
      at := at + n;
    }

    /** get<T>() */
    method Number(n: nat) returns (v: nat)
      requires Valid()
      modifies this
      ensures Valid() && Got(v, Now()) == GetNumber(old(Now()), n)
    {
      var s := Block(n);
      v := if ok then FromLE(s) else 0;
    }

    method U8() returns (v: byte)
      requires Valid()
      modifies this
      ensures Valid() && Got(v, Now()) == GetU8(old(Now()))
    {
      var x := Number(1);
      v := x;
    }

    method U16() returns (v: u16)
      requires Valid()
      modifies this
      ensures Valid() && Got(v, Now()) == GetU16(old(Now()))
    {
      var x := Number(2);
      v := x;
    }

    method U32() returns (v: u32)
      requires Valid()
      modifies this
      ensures Valid() && Got(v, Now()) == GetU32(old(Now()))
    {
      var x := Number(4);
      v := x;
    }

    method U64() returns (v: u64)
      requires Valid()
      modifies this
      ensures Valid() && Got(v, Now()) == GetU64(old(Now()))
    {
      var x := Number(8);
      v := x;
    }

    method I32() returns (v: i32)
      requires Valid()
      modifies this
      ensures Valid() && Got(v, Now()) == GetI32(old(Now()))
    {
      var x := U32();
      v := if x < 0x8000_0000 then x else x as int - 0x1_0000_0000;
    }

    method Bool() returns (v: bool)
      requires Valid()
      modifies this
      ensures Valid() && Got(v, Now()) == GetBool(old(Now()))
    {
      var x := U8();
      v := x != 0;
    }

    method Str() returns (v: Text)
      requires Valid()
      modifies this
      ensures Valid() && Got(v, Now()) == GetText(old(Now()))
    {
      var n := U64();
      v := Block(n);
    }
  }
}
