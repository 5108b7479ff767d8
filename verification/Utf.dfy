/** The conversions between the guest's 16-bit strings and UTF-8. */
module Utf {
  import opened Bytes

  type unit = u: int | 0 <= u < 0x1_0000

  predicate High(u: unit) { 0xD800 <= u < 0xDC00 }

  predicate Low(u: unit) { 0xDC00 <= u < 0xE000 }

  // ---- one code point -----------------------------------------------------------------------------

  function Joined(h: unit, l: unit): nat
    requires High(h) && Low(l)
  {
    0x1_0000 + (h - 0xD800) * 0x400 + (l - 0xDC00)
  }

  function Spell(c: nat): seq<byte>
    requires c < 0x11_0000
  {
    if c < 0x80 then [c]
    else if c < 0x800 then [0xC0 + c / 0x40, 0x80 + c % 0x40]
    else if c < 0x1_0000 then [0xE0 + c / 0x1000, 0x80 + c / 0x40 % 0x40, 0x80 + c % 0x40]
    else [0xF0 + c / 0x4_0000, 0x80 + c / 0x1000 % 0x40, 0x80 + c / 0x40 % 0x40, 0x80 + c % 0x40]
  }

  function Units(c: nat): seq<unit>
    requires c < 0x20_0000
  {
    if c >= 0x1_0000 then [0xD800 + (c - 0x1_0000) / 0x400, 0xDC00 + (c - 0x1_0000) % 0x400] else [c]
  }

  /** How many bytes a leading byte says follow, and the bits it carries itself. */
  function Extra(b: byte): (n: nat)
    ensures n <= 3
  {
    if b < 0x80 then 0
    else if 0xC0 <= b < 0xE0 then 1 else if 0xE0 <= b < 0xF0 then 2 else if 0xF0 <= b < 0xF8 then 3 else 0
  }

  function Lead(b: byte): (c: nat)
    ensures c < 0x20 || (Extra(b) == 0 && c < 0x1_0000)
    ensures (Extra(b) == 2 ==> c < 0x10) && (Extra(b) == 3 ==> c < 8)
  {
    if b < 0x80 then b else if 0xC0 <= b < 0xE0 then b % 0x20 else if 0xE0 <= b < 0xF0 then b % 0x10
    else if 0xF0 <= b < 0xF8 then b % 8 else 0xFFFD
  }

  /** Six bits from each following byte, as many as there are up to n. */
  function Gather(c: nat, b: seq<byte>, n: nat): nat
    decreases n
  {
    if n == 0 || b == [] then c else Gather(c * 0x40 + b[0] % 0x40, b[1..], n - 1)
  }

  // ---- whole strings --------------------------------------------------------------------------------

  /** utf16_string_to_utf8() */
  function ToUtf8(s: seq<unit>): seq<byte>
    decreases |s|
  {
    if s == [] then []
    else if |s| > 1 && High(s[0]) && Low(s[1]) then Spell(Joined(s[0], s[1])) + ToUtf8(s[2..])
    else Spell(s[0]) + ToUtf8(s[1..])
  }

  function Taken(b: seq<byte>): (n: nat)
    requires b != []
    ensures 1 <= n <= |b|
  {
    if 1 + Extra(b[0]) <= |b| then 1 + Extra(b[0]) else |b|
  }

  function First(b: seq<byte>): (c: nat)
    requires b != []
    ensures c < 0x20_0000
  {
    GatherBound(Lead(b[0]), b[1..], Extra(b[0]));
    Gather(Lead(b[0]), b[1..], Extra(b[0]))
  }

  lemma GatherBound(c: nat, b: seq<byte>, n: nat)
    ensures n == 0 ==> Gather(c, b, n) == c
    ensures n == 1 && c < 0x20 ==> Gather(c, b, n) < 0x20_0000
    ensures n == 2 && c < 0x10 ==> Gather(c, b, n) < 0x20_0000
    ensures n == 3 && c < 8 ==> Gather(c, b, n) < 0x20_0000
  {
    if n > 0 && b != [] {
      var d := c * 0x40 + b[0] % 0x40;
      if n > 1 && |b| > 1 {
        assert Gather(d, b[1..], n - 1) == Gather(d * 0x40 + b[1] % 0x40, b[1..][1..], n - 2);
        if n == 3 && |b| > 2 {
          assert Gather(d * 0x40 + b[1] % 0x40, b[1..][1..], 1) == (d * 0x40 + b[1] % 0x40) * 0x40 + b[2] % 0x40;
        }
      }
    }
  }

  /** utf8_to_utf16() */
  function ToUtf16(b: seq<byte>): seq<unit>
    decreases |b|
  {
    if b == [] then [] else Units(First(b)) + ToUtf16(b[Taken(b)..])
  }

  method EncodeUtf8(s: seq<unit>) returns (out: seq<byte>)
    ensures out == ToUtf8(s)
  {
    hide Spell;
    out := [];
    var i := 0;
    while i < |s|
      invariant i <= |s| && out + ToUtf8(s[i..]) == ToUtf8(s)
    {
      var c: nat := s[i];
      var next := i + 1;
      if 0xD800 <= c < 0xDC00 && i + 1 < |s| && 0xDC00 <= s[i + 1] < 0xE000 {
        c := Joined(s[i], s[i + 1]);
        next := i + 2;
      }
      assert s[i..][1..] == s[i + 1..] && (i + 2 <= |s| ==> s[i..][2..] == s[i + 2..]);
      assert out + (Spell(c) + ToUtf8(s[next..])) == out + Spell(c) + ToUtf8(s[next..]);
      out := out + Spell(c);
      i := next;
    }
  }

  /** One code point from place i, and the place after it. */
  method DecodeOne(s: seq<byte>, i: nat) returns (c: nat, j: nat)
    requires i < |s|
    ensures c == First(s[i..]) && j == i + Taken(s[i..]) <= |s|
  {
    hide Gather, Lead, Extra;
    ghost var b := s[i..];
    c := Lead(s[i]);
    var extra: nat := Extra(s[i]);
    j := i + 1;
    assert b[1..] == s[j..];
    var k := 0;
    while k < extra && j < |s|
      invariant 0 <= k <= extra && j == i + 1 + k <= |s| && Gather(c, s[j..], extra - k) == First(b)
    {
      GatherOne(c, s[j..], extra - k);
      assert s[j..][1..] == s[j + 1..];
      c := c * 0x40 + s[j] % 0x40;
      k, j := k + 1, j + 1;
    }
    GatherNone(c, s[j..], extra - k);
  }

  method DecodeUtf8(s: seq<byte>) returns (out: seq<unit>)
    ensures out == ToUtf16(s)
  {
    hide Units, First, Taken;
    out := [];
    var i := 0;
    while i < |s|
      invariant i <= |s| && out + ToUtf16(s[i..]) == ToUtf16(s)
    {
      var c, j := DecodeOne(s, i);
      assert s[i..][Taken(s[i..])..] == s[j..];
      assert out + (Units(c) + ToUtf16(s[j..])) == out + Units(c) + ToUtf16(s[j..]);
      out := out + Units(c);
      i := j;
    }
  }

  lemma GatherOne(c: nat, b: seq<byte>, n: nat)
    requires n > 0 && b != []
    ensures Gather(c, b, n) == Gather(c * 0x40 + b[0] % 0x40, b[1..], n - 1)
  {
  }

  lemma GatherNone(c: nat, b: seq<byte>, n: nat)
    requires n == 0 || b == []
    ensures Gather(c, b, n) == c
  {
  }

  // ---- round trips ----------------------------------------------------------------------------------

  lemma GatherTwo(c: nat, x: byte, y: byte, t: seq<byte>)
    ensures Gather(c, [x] + t, 1) == c * 0x40 + x % 0x40
    ensures Gather(c, [x, y] + t, 2) == (c * 0x40 + x % 0x40) * 0x40 + y % 0x40
  {
    assert ([x] + t)[1..] == t;
    assert ([x, y] + t)[1..] == [y] + t && ([y] + t)[1..] == t;
  }

  lemma GatherThree(c: nat, x: byte, y: byte, z: byte, t: seq<byte>)
    ensures Gather(c, [x, y, z] + t, 3) == ((c * 0x40 + x % 0x40) * 0x40 + y % 0x40) * 0x40 + z % 0x40
  {
    assert ([x, y, z] + t)[1..] == [y, z] + t;
    GatherTwo(c * 0x40 + x % 0x40, y, z, t);
  }

  // Reading one, two, three or four bytes off the front.

  lemma FirstOne(a: byte, t: seq<byte>)
    requires Extra(a) == 0
    ensures First([a] + t) == Lead(a) && Taken([a] + t) == 1
  {
    GatherNone(Lead(a), ([a] + t)[1..], 0);
  }

  lemma FirstTwo(a: byte, x: byte, t: seq<byte>)
    requires Extra(a) == 1
    ensures First([a, x] + t) == Lead(a) * 0x40 + x % 0x40 && Taken([a, x] + t) == 2
  {
    hide Gather, Lead, Extra;
    assert ([a, x] + t)[1..] == [x] + t;
    GatherTwo(Lead(a), x, 0, t);
  }

  lemma FirstThree(a: byte, x: byte, y: byte, t: seq<byte>)
    requires Extra(a) == 2
    ensures First([a, x, y] + t) == (Lead(a) * 0x40 + x % 0x40) * 0x40 + y % 0x40 && Taken([a, x, y] + t) == 3
  {
    hide Gather, Lead, Extra;
    assert ([a, x, y] + t)[1..] == [x, y] + t;
    GatherTwo(Lead(a), x, y, t);
  }

  lemma FirstFour(a: byte, x: byte, y: byte, z: byte, t: seq<byte>)
    requires Extra(a) == 3
    ensures First([a, x, y, z] + t) == ((Lead(a) * 0x40 + x % 0x40) * 0x40 + y % 0x40) * 0x40 + z % 0x40
            && Taken([a, x, y, z] + t) == 4
  {
    hide Gather, Lead, Extra;
    assert ([a, x, y, z] + t)[1..] == [x, y, z] + t;
    GatherThree(Lead(a), x, y, z, t);
  }

  lemma SixBits(x: nat)
    requires x < 0x40
    ensures (0x80 + x) % 0x40 == x
  {
  }

  /** A number is its groups of six bits. */
  lemma Groups(c: nat)
    ensures c / 0x40 * 0x40 + c % 0x40 == c
    ensures (c / 0x1000 * 0x40 + c / 0x40 % 0x40) * 0x40 + c % 0x40 == c
    ensures ((c / 0x4_0000 * 0x40 + c / 0x1000 % 0x40) * 0x40 + c / 0x40 % 0x40) * 0x40 + c % 0x40 == c
  {
    assert c / 0x1000 == c / 0x40 / 0x40;
    assert c / 0x4_0000 == c / 0x1000 / 0x40;
  }

  lemma LeadIs(k: nat)
    ensures k < 0x80 ==> Lead(k) == k && Extra(k) == 0
    ensures k < 0x20 ==> Lead(0xC0 + k) == k && Extra(0xC0 + k) == 1
    ensures k < 0x10 ==> Lead(0xE0 + k) == k && Extra(0xE0 + k) == 2
    ensures k < 8 ==> Lead(0xF0 + k) == k && Extra(0xF0 + k) == 3
  {
  }

  /** The leading byte carries the top bits, and says how many bytes follow. */
  lemma LeadSpelled(c: nat)
    requires c < 0x11_0000
    ensures Spell(c) != [] && Extra(Spell(c)[0]) == |Spell(c)| - 1
    ensures Lead(Spell(c)[0]) ==
              if c < 0x80 then c else if c < 0x800 then c / 0x40 else if c < 0x1_0000 then c / 0x1000 else c / 0x4_0000
  {
    hide Lead, Extra;
    LeadIs(c);
    LeadIs(c / 0x40);
    LeadIs(c / 0x1000);
    LeadIs(c / 0x4_0000);
  }

  /** A code point that was spelled is read back, whatever follows it. */
  lemma SpellBack(c: nat, t: seq<byte>)
    requires c < 0x11_0000
    ensures Spell(c) + t != [] && First(Spell(c) + t) == c && Taken(Spell(c) + t) == |Spell(c)|
  {
    hide First, Taken, Lead, Extra;
    var b := Spell(c);
    LeadSpelled(c);
    Groups(c);
    SixBits(c % 0x40);
    SixBits(c / 0x40 % 0x40);
    SixBits(c / 0x1000 % 0x40);
    if c < 0x80 {
      FirstOne(b[0], t);
    } else if c < 0x800 {
      FirstTwo(b[0], b[1], t);
    } else if c < 0x1_0000 {
      FirstThree(b[0], b[1], b[2], t);
    } else {
      FirstFour(b[0], b[1], b[2], b[3], t);
    }
  }

  lemma SpelledUnits(c: nat, t: seq<byte>)
    requires c < 0x11_0000
    ensures ToUtf16(Spell(c) + t) == Units(c) + ToUtf16(t)
  {
    hide First, Taken, Spell, Units;
    SpellBack(c, t);
    assert (Spell(c) + t)[|Spell(c)|..] == t;
  }

  lemma JoinedUnits(h: unit, l: unit)
    requires High(h) && Low(l)
    ensures Joined(h, l) < 0x11_0000 && Units(Joined(h, l)) == [h, l]
  {
  }

  // ---- bytes that are no UTF-8 ------------------------------------------------------------------------

  ghost function Six(b: byte): nat { b % 0x40 }

  /** What a leading byte carries, and six bits from each byte after it: `more` of them, or as many as there are. */
  ghost predicate ReadAs(b: seq<byte>, base: nat, more: nat)
    requires b != []
  {
    var n := if |b| < more + 1 then |b| else more + 1;
    && Taken(b) == n
    && (n == 1 ==> First(b) == b[0] - base)
    && (n == 2 ==> First(b) == 0x40 * (b[0] - base) + Six(b[1]))
    && (n == 3 ==> First(b) == 0x1000 * (b[0] - base) + 0x40 * Six(b[1]) + Six(b[2]))
    && (n == 4 ==> First(b) == 0x4_0000 * (b[0] - base) + 0x1000 * Six(b[1]) + 0x40 * Six(b[2]) + Six(b[3]))
  }

  lemma CutRead(c: nat, b: seq<byte>, n: nat)
    requires |b| <= n <= 3
    ensures |b| == 0 ==> Gather(c, b, n) == c
    ensures |b| == 1 ==> Gather(c, b, n) == 0x40 * c + Six(b[0])
    ensures |b| == 2 ==> Gather(c, b, n) == 0x1000 * c + 0x40 * Six(b[0]) + Six(b[1])
    ensures |b| == 3 ==> Gather(c, b, n) == 0x4_0000 * c + 0x1000 * Six(b[0]) + 0x40 * Six(b[1]) + Six(b[2])
    decreases n
  {
    if b != [] {
      CutRead(c * 0x40 + b[0] % 0x40, b[1..], n - 1);
    }
  }

  lemma CutAt(c: nat, b: seq<byte>, n: nat)
    requires n <= |b|
    ensures Gather(c, b, n) == Gather(c, b[..n], n)
    decreases n
  {
    if n > 0 {
      assert b[..n][1..] == b[1..][..n - 1];
      CutAt(c * 0x40 + b[0] % 0x40, b[1..], n - 1);
    }
  }

  lemma FirstRead(b: seq<byte>, base: nat, more: nat)
    requires b != [] && more == Extra(b[0]) && Lead(b[0]) == b[0] - base
    ensures ReadAs(b, base, more)
  {
    hide Gather, Lead, Extra;
    if more < |b| {
      CutAt(Lead(b[0]), b[1..], more);
      CutRead(Lead(b[0]), b[1..][..more], more);
    } else {
      CutRead(Lead(b[0]), b[1..], more);
    }
  }

  /** A leading byte says how many bytes follow; those are read whatever they are, and only as far as they go. */
  lemma BytesRead(b: seq<byte>)
    requires b != []
    ensures b[0] < 0x80 ==> ReadAs(b, 0, 0)
    ensures 0xC0 <= b[0] < 0xE0 ==> ReadAs(b, 0xC0, 1)
    ensures 0xE0 <= b[0] < 0xF0 ==> ReadAs(b, 0xE0, 2)
    ensures 0xF0 <= b[0] < 0xF8 ==> ReadAs(b, 0xF0, 3)
  {
    hide ReadAs;
    var a := b[0];
    if a < 0x80 {
      FirstRead(b, 0, 0);
    } else if 0xC0 <= a < 0xE0 {
      LeadIs(a - 0xC0);
      FirstRead(b, 0xC0, 1);
    } else if 0xE0 <= a < 0xF0 {
      LeadIs(a - 0xE0);
      FirstRead(b, 0xE0, 2);
    } else if 0xF0 <= a < 0xF8 {
      LeadIs(a - 0xF0);
      FirstRead(b, 0xF0, 3);
    }
  }

  /** Any other leading byte is read alone, as the replacement character. */
  lemma StrayRead(b: seq<byte>)
    requires b != [] && (0x80 <= b[0] < 0xC0 || 0xF8 <= b[0])
    ensures ToUtf16(b) == [0xFFFD] + ToUtf16(b[1..])
  {
    GatherNone(0xFFFD, b[1..], 0);
  }

  /** What is read gives one unit, or above 0xFFFF the two units that stand for it, past the code points too. */
  lemma UnitsRead(b: seq<byte>)
    requires b != []
    ensures var c, t := First(b), ToUtf16(b[Taken(b)..]);
            if c < 0x1_0000 then ToUtf16(b) == [c] + t
            else exists h: unit, l: unit ::
              ToUtf16(b) == [h, l] + t && 0xD800 <= h && Low(l) && c - 0x1_0000 == 0x400 * (h - 0xD800) + (l - 0xDC00)
  {
    hide First, Taken;
    var c, t := First(b), ToUtf16(b[Taken(b)..]);
    if c >= 0x1_0000 {
      var h, l := Units(c)[0], Units(c)[1];
      assert ToUtf16(b) == [h, l] + t;
    }
  }

  /** Any 16-bit units, unpaired surrogates included, survive the way to UTF-8 and back. */
  lemma {:induction false} UnitsSurvive(s: seq<unit>)
    ensures ToUtf16(ToUtf8(s)) == s
    decreases |s|
  {
    hide Spell, Joined, ToUtf16;
    if s == [] {
      NothingDecoded();
    } else if |s| > 1 && High(s[0]) && Low(s[1]) {
      UnitsSurvive(s[2..]);
      JoinedUnits(s[0], s[1]);
      SpelledUnits(Joined(s[0], s[1]), ToUtf8(s[2..]));
    } else {
      UnitsSurvive(s[1..]);
      SpelledUnits(s[0], ToUtf8(s[1..]));
    }
  }

  lemma NothingDecoded()
    ensures ToUtf16([]) == []
  {
  }

  // ---- well-formed UTF-8 (section 4 of RFC 3629) -------------------------------------------------------

  predicate Tail(b: byte) { 0x80 <= b < 0xC0 }

  /** The length of the well-formed sequence at the front, 0 if there is none. */
  function FormLength(b: seq<byte>): (n: nat)
    ensures n <= |b| && n <= 4
  {
    if b == [] then 0
    else if b[0] < 0x80 then 1
    else if |b| > 1 && 0xC2 <= b[0] < 0xE0 && Tail(b[1]) then 2
    else if |b| > 2 && Tail(b[2]) &&
            ((b[0] == 0xE0 && 0xA0 <= b[1] < 0xC0) || (0xE1 <= b[0] < 0xED && Tail(b[1])) ||
             (b[0] == 0xED && 0x80 <= b[1] < 0xA0) || (0xEE <= b[0] < 0xF0 && Tail(b[1]))) then 3
    else if |b| > 3 && Tail(b[2]) && Tail(b[3]) &&
            ((b[0] == 0xF0 && 0x90 <= b[1] < 0xC0) || (0xF1 <= b[0] < 0xF4 && Tail(b[1]))
             || (b[0] == 0xF4 && 0x80 <= b[1] < 0x90)) then 4
    else 0
  }

  predicate WellFormed(b: seq<byte>)
    decreases |b|
  {
    b == [] || (FormLength(b) > 0 && WellFormed(b[FormLength(b)..]))
  }

  predicate Scalar(c: nat) { c < 0x11_0000 && !(0xD800 <= c < 0xE000) }

  // The spelling of what each form is read as.

  lemma TailBack(x: byte)
    requires Tail(x)
    ensures x % 0x40 == x - 0x80
  {
  }

  /** The groups of six bits of a number that was put together from them. */
  lemma GroupsBack(l: nat, x: nat, y: nat, z: nat)
    requires x < 0x40 && y < 0x40 && z < 0x40
    ensures var c := l * 0x40 + z; c / 0x40 == l && c % 0x40 == z
    ensures var c := (l * 0x40 + y) * 0x40 + z; c / 0x1000 == l && c / 0x40 % 0x40 == y && c % 0x40 == z
    ensures var c := ((l * 0x40 + x) * 0x40 + y) * 0x40 + z;
            c / 0x4_0000 == l && c / 0x1000 % 0x40 == x && c / 0x40 % 0x40 == y && c % 0x40 == z
  {
    SixOff(l, z);
    SixOff(l * 0x40 + y, z);
    SixOff(l, y);
    SixOff((l * 0x40 + x) * 0x40 + y, z);
    SixOff(l * 0x40 + x, y);
    SixOff(l, x);
    SixTwice((l * 0x40 + y) * 0x40 + z);
    SixTwice(((l * 0x40 + x) * 0x40 + y) * 0x40 + z);
  }

  lemma SixOff(d: nat, r: nat)
    requires r < 0x40
    ensures (d * 0x40 + r) / 0x40 == d && (d * 0x40 + r) % 0x40 == r
  {
  }

  lemma SixTwice(c: nat)
    ensures c / 0x1000 == c / 0x40 / 0x40 && c / 0x4_0000 == c / 0x40 / 0x40 / 0x40
  {
  }

  lemma TwoSpelled(a: byte, x: byte)
    requires 0xC2 <= a < 0xE0 && Tail(x)
    ensures var c := Lead(a) * 0x40 + x % 0x40; 0x80 <= c < 0x800 && Spell(c) == [a, x]
  {
    hide Lead;
    LeadIs(a - 0xC0);
    TailBack(x);
    GroupsBack(a - 0xC0, 0, 0, x - 0x80);
  }

  lemma ThreeSpelled(a: byte, x: byte, y: byte)
    requires 0xE0 <= a < 0xF0 && Tail(x) && Tail(y) && (a == 0xE0 ==> x >= 0xA0)
    ensures var c := (Lead(a) * 0x40 + x % 0x40) * 0x40 + y % 0x40; 0x800 <= c < 0x1_0000 && Spell(c) == [a, x, y]
    ensures (a == 0xED ==> x < 0xA0) ==> Scalar((Lead(a) * 0x40 + x % 0x40) * 0x40 + y % 0x40)
  {
    hide Lead;
    LeadIs(a - 0xE0);
    TailBack(x);
    TailBack(y);
    GroupsBack(a - 0xE0, 0, x - 0x80, y - 0x80);
  }

  lemma FourSpelled(a: byte, x: byte, y: byte, z: byte)
    requires 0xF0 <= a < 0xF5 && Tail(x) && Tail(y) && Tail(z) && (a == 0xF0 ==> x >= 0x90) && (a == 0xF4 ==> x < 0x90)
    ensures var c := ((Lead(a) * 0x40 + x % 0x40) * 0x40 + y % 0x40) * 0x40 + z % 0x40;
            0x1_0000 <= c < 0x11_0000 && Spell(c) == [a, x, y, z]
  {
    hide Lead;
    LeadIs(a - 0xF0);
    TailBack(x);
    TailBack(y);
    TailBack(z);
    GroupsBack(a - 0xF0, x - 0x80, y - 0x80, z - 0x80);
  }

  /** A well-formed sequence is the spelling of the scalar value it is read as. */
  lemma FormSpelled(b: seq<byte>)
    requires FormLength(b) > 0
    ensures Scalar(First(b)) && Taken(b) == FormLength(b) && Spell(First(b)) == b[..FormLength(b)]
  {
    hide First, Taken;
    var n := FormLength(b);
    if n == 1 {
      assert b == [b[0]] + b[1..];
      FirstOne(b[0], b[1..]);
    } else if n == 2 {
      assert b == [b[0], b[1]] + b[2..];
      FirstTwo(b[0], b[1], b[2..]);
      TwoSpelled(b[0], b[1]);
    } else if n == 3 {
      assert b == [b[0], b[1], b[2]] + b[3..];
      FirstThree(b[0], b[1], b[2], b[3..]);
      ThreeSpelled(b[0], b[1], b[2]);
    } else {
      assert b == [b[0], b[1], b[2], b[3]] + b[4..];
      FirstFour(b[0], b[1], b[2], b[3], b[4..]);
      FourSpelled(b[0], b[1], b[2], b[3]);
    }
  }

  /** The units of a scalar value are spelled as it is. */
  lemma UnitsSpelled(c: nat, t: seq<unit>)
    requires Scalar(c)
    ensures ToUtf8(Units(c) + t) == Spell(c) + ToUtf8(t)
  {
    var s := Units(c) + t;
    assert s[|Units(c)|..] == t;
  }

  /** Well-formed UTF-8 survives the way to 16-bit units and back. */
  lemma {:induction false} BytesSurvive(b: seq<byte>)
    requires WellFormed(b)
    ensures ToUtf8(ToUtf16(b)) == b
    decreases |b|
  {
    hide Spell, Units, First, Taken, FormLength, ToUtf8;
    if b == [] {
      NothingEncoded();
    } else {
      FormSpelled(b);
      var rest := b[FormLength(b)..];
      BytesSurvive(rest);
      UnitsSpelled(First(b), ToUtf16(rest));
      assert b[..FormLength(b)] + rest == b;
    }
  }

  lemma NothingEncoded()
    ensures ToUtf8([]) == []
  {
  }

  /** Every surrogate is half of a pair (section 2 of RFC 2781). */
  predicate Paired(s: seq<unit>)
    decreases |s|
  {
    if s == [] then true
    else if High(s[0]) then |s| > 1 && Low(s[1]) && Paired(s[2..])
    else !Low(s[0]) && Paired(s[1..])
  }

  lemma SpellForm(c: nat, t: seq<byte>)
    requires c < 0x11_0000
    ensures FormLength(Spell(c) + t) == if Scalar(c) then |Spell(c)| else 0
  {
    var b := Spell(c) + t;
    if c < 0x80 {
    } else if c < 0x800 {
    } else if c < 0x1_0000 {
      assert b[0] == 0xE0 + c / 0x1000 && b[1] == 0x80 + c / 0x40 % 0x40;
    } else {
      assert b[0] == 0xF0 + c / 0x4_0000 && b[1] == 0x80 + c / 0x1000 % 0x40;
    }
  }

  /** What is written is well-formed UTF-8 exactly when the units are well-formed UTF-16. */
  lemma {:induction false} PairedExact(s: seq<unit>)
    ensures WellFormed(ToUtf8(s)) <==> Paired(s)
    decreases |s|
  {
    hide Spell, FormLength;
    if s != [] {
      var pair := |s| > 1 && High(s[0]) && Low(s[1]);
      var c: nat, rest := if pair then Joined(s[0], s[1]) else s[0], s[if pair then 2 else 1..];
      PairedExact(rest);
      SpellForm(c, ToUtf8(rest));
      SpellSome(c);
      assert (Spell(c) + ToUtf8(rest))[|Spell(c)|..] == ToUtf8(rest);
    }
  }

  /** A high surrogate on its own is written as three bytes that are not well-formed. */
  lemma LoneSurrogate()
    ensures !WellFormed(ToUtf8([0xD800]))
  {
    PairedExact([0xD800]);
  }

  lemma SpellSome(c: nat)
    requires c < 0x11_0000
    ensures Spell(c) != []
  {
  }
}
