/** Splitting a Windows command line, and the quoting that splitting undoes. */
module CommandLine {
  predicate Blank(c: char) { c == ' ' || c == '\t' }

  predicate Blanks(s: string) { forall i | 0 <= i < |s| :: Blank(s[i]) }

  function Slashes(n: nat): (s: string)
    ensures |s| == n && forall i | 0 <= i < n :: s[i] == '\\'
  {
    seq(n, _ => '\\')
  }

  /** How many backslashes s starts with. */
  function Run(s: string): (n: nat)
    ensures n <= |s| && (forall i | 0 <= i < n :: s[i] == '\\') && (n < |s| ==> s[n] != '\\')
    ensures s != "" && s[0] == '\\' ==> n > 0
  {
    if s == "" || s[0] != '\\' then 0 else 1 + Run(s[1..])
  }

  function SkipBlanks(s: string): (r: string)
    ensures |r| <= |s|
  {
    if s != "" && Blank(s[0]) then SkipBlanks(s[1..]) else s
  }

  // ---- splitting ----------------------------------------------------------------------------------

  /** An argument, and what of the line follows it. */
  datatype Parsed = Parsed(arg: string, rest: string)

  /** The rest of an argument: backslashes count only before a quote, and quotes toggle. */
  function Rest(s: string, inQuotes: bool, arg: string): (p: Parsed)
    ensures |p.rest| <= |s|
    ensures s != "" && !Blank(s[0]) ==> |p.rest| < |s|
    decreases |s|
  {
    if s == "" then Parsed(arg, s)
    else if s[0] == '\\' then
      var n := Run(s);
      var t := s[n..];
      if t != "" && t[0] == '"' then
        if n % 2 == 1 then Rest(t[1..], inQuotes, arg + Slashes(n / 2) + "\"")
        else Rest(t, inQuotes, arg + Slashes(n / 2))
      else Rest(t, inQuotes, arg + Slashes(n))
    else if s[0] == '"' then
      if inQuotes && |s| > 1 && s[1] == '"' then Rest(s[2..], inQuotes, arg + "\"") else Rest(s[1..], !inQuotes, arg)
    else if !inQuotes && Blank(s[0]) then Parsed(arg, s)
    else Rest(s[1..], inQuotes, arg + [s[0]])
  }

  function Others(s: string): seq<string>
    decreases |s|
  {
    var t := SkipBlanks(s);
    if t == "" then []
    else
      SkipStops(s);
      var p := Rest(t, false, "");
      [p.arg] + Others(p.rest)
  }

  lemma {:induction false} SkipStops(s: string)
    ensures SkipBlanks(s) != "" ==> !Blank(SkipBlanks(s)[0])
  {
    if s != "" && Blank(s[0]) {
      SkipStops(s[1..]);
    }
  }

  /** How far it is to the next quote, or the next blank. */
  function ToQuote(s: string): (n: nat)
    ensures n <= |s| && (forall i | 0 <= i < n :: s[i] != '"') && (n < |s| ==> s[n] == '"')
  {
    if s == "" || s[0] == '"' then 0 else 1 + ToQuote(s[1..])
  }

  function ToBlank(s: string): (n: nat)
    ensures n <= |s| && (forall i | 0 <= i < n :: !Blank(s[i])) && (n < |s| ==> Blank(s[n]))
  {
    if s == "" || Blank(s[0]) then 0 else 1 + ToBlank(s[1..])
  }

  /** The program name: no backslash rules, just an optional pair of quotes. */
  function Program(s: string): Parsed
    requires s != ""
  {
    if s[0] == '"' then
      var n := ToQuote(s[1..]);
      Parsed(s[1..][..n], if n + 1 < |s| then s[n + 2..] else "")
    else Parsed(s[..ToBlank(s)], s[ToBlank(s)..])
  }

  /** split_command_line() */
  function Split(cmd: string): seq<string>
  {
    var s := SkipBlanks(cmd);
    if s == "" then [] else [Program(s).arg] + Others(Program(s).rest)
  }

  method SkipFrom(cmd: string, i: nat) returns (j: nat)
    requires i <= |cmd|
    ensures i <= j <= |cmd| && cmd[j..] == SkipBlanks(cmd[i..]) && (j < |cmd| ==> !Blank(cmd[j]))
  {
    j := i;
    while j < |cmd| && (cmd[j] == ' ' || cmd[j] == '\t')
      invariant i <= j <= |cmd| && SkipBlanks(cmd[j..]) == SkipBlanks(cmd[i..])
    {
      assert cmd[j..][1..] == cmd[j + 1..];
      j := j + 1;
    }
  }

  method TakeQuoted(cmd: string, i: nat) returns (arg0: string, j: nat)
    requires i < |cmd| && cmd[i] == '"'
    ensures j <= |cmd| && Program(cmd[i..]) == Parsed(arg0, cmd[j..])
  {
    ghost var s := cmd[i..];
    arg0 := "";
    j := i + 1;
    assert s[1..] == cmd[j..];
    while j < |cmd| && cmd[j] != '"'
      invariant i + 1 <= j <= |cmd| && arg0 == cmd[i + 1..j]
      invariant ToQuote(s[1..]) == j - (i + 1) + ToQuote(cmd[j..])
    {
      assert cmd[j..][1..] == cmd[j + 1..];
      arg0 := arg0 + [cmd[j]];
      j := j + 1;
    }
    assert arg0 == s[1..][..j - (i + 1)];
    if j < |cmd| {
      j := j + 1;
      assert s[j - i..] == cmd[j..];
    }
  }

  method TakeBare(cmd: string, i: nat) returns (arg0: string, j: nat)
    requires i < |cmd| && cmd[i] != '"'
    ensures j <= |cmd| && Program(cmd[i..]) == Parsed(arg0, cmd[j..])
  {
    hide ToBlank, Program;
    arg0 := "";
    j := i;
    while j < |cmd| && cmd[j] != ' ' && cmd[j] != '\t'
      invariant i <= j <= |cmd| && arg0 == cmd[i..j]
      invariant ToBlank(cmd[i..]) == j - i + ToBlank(cmd[j..])
    {
      BlankNext(cmd, j);
      arg0 := arg0 + [cmd[j]];
      j := j + 1;
    }
    BlankNext(cmd, j);
    ProgramBare(cmd, i, j);
  }

  lemma BlankNext(cmd: string, j: nat)
    requires j <= |cmd|
    ensures ToBlank(cmd[j..]) == if j == |cmd| || Blank(cmd[j]) then 0 else 1 + ToBlank(cmd[j + 1..])
  {
    assert j < |cmd| ==> cmd[j..][1..] == cmd[j + 1..];
  }

  lemma ProgramBare(cmd: string, i: nat, j: nat)
    requires i < |cmd| && cmd[i] != '"' && i <= j <= |cmd| && ToBlank(cmd[i..]) == j - i
    ensures Program(cmd[i..]) == Parsed(cmd[i..j], cmd[j..])
  {
    assert cmd[i..][..j - i] == cmd[i..j] && cmd[i..][j - i..] == cmd[j..];
  }

  /** A run of backslashes. */
  method CountSlashes(cmd: string, i: nat) returns (n: nat)
    requires i < |cmd| && cmd[i] == '\\'
    ensures 0 < n <= |cmd| - i && n == Run(cmd[i..])
  {
    n := 0;
    var j := i;
    while j < |cmd| && cmd[j] == '\\'
      invariant i <= j <= |cmd| && n == j - i && Run(cmd[i..]) == n + Run(cmd[j..])
    {
      Suffixes(cmd, j);
      n := n + 1;
      j := j + 1;
    }
  }

  /** One step of an argument, by place in the line. */
  lemma RestStep(cmd: string, i: nat, inQuotes: bool, arg: string)
    requires i < |cmd|
    ensures cmd[i] == '\\' ==>
              var j := i + Run(cmd[i..]);
              && i < j <= |cmd|
              && Rest(cmd[i..], inQuotes, arg) ==
                 (if j < |cmd| && cmd[j] == '"' then
                    if (j - i) % 2 == 1 then Rest(cmd[j + 1..], inQuotes, arg + Slashes((j - i) / 2) + "\"")
                    else Rest(cmd[j..], inQuotes, arg + Slashes((j - i) / 2))
                  else Rest(cmd[j..], inQuotes, arg + Slashes(j - i)))
    ensures cmd[i] == '"' ==>
              Rest(cmd[i..], inQuotes, arg) ==
              if inQuotes && i + 1 < |cmd| && cmd[i + 1] == '"' then Rest(cmd[i + 2..], inQuotes, arg + "\"")
              else Rest(cmd[i + 1..], !inQuotes, arg)
    ensures cmd[i] != '\\' && cmd[i] != '"' ==>
              Rest(cmd[i..], inQuotes, arg) ==
                if !inQuotes && Blank(cmd[i]) then Parsed(arg, cmd[i..])
                else Rest(cmd[i + 1..], inQuotes, arg + [cmd[i]])
  {
    Suffixes(cmd, i);
    if cmd[i] == '\\' {
      var j := i + Run(cmd[i..]);
      assert cmd[i..][j - i..] == cmd[j..];
      Suffixes(cmd, j);
    }
  }

  lemma RestEnd(inQuotes: bool, arg: string)
    ensures Rest("", inQuotes, arg) == Parsed(arg, "")
  {
  }

  /** One argument after the program name, from its first character. */
  method TakeArgument(cmd: string, from: nat) returns (arg: string, i: nat)
    requires from < |cmd| && !Blank(cmd[from])
    ensures from < i <= |cmd| && Rest(cmd[from..], false, "") == Parsed(arg, cmd[i..])
  {
    hide Rest, Slashes, Run;
    arg := "";
    i := from;
    var inQuotes := false;
    while i < |cmd|
      invariant from <= i <= |cmd| && (i == from ==> !inQuotes)
      invariant Rest(cmd[i..], inQuotes, arg) == Rest(cmd[from..], false, "")
      decreases |cmd| - i
    {
      var c := cmd[i];
      RestStep(cmd, i, inQuotes, arg);
      if c == '\\' {
        var n := CountSlashes(cmd, i);
        i := i + n;
        if i < |cmd| && cmd[i] == '"' {
          arg := arg + Slashes(n / 2);
          if n % 2 == 1 {
            arg := arg + "\"";
            i := i + 1;
          }
        } else {
          arg := arg + Slashes(n);
        }
        continue;
      }
      if c == '"' {
        if inQuotes && i + 1 < |cmd| && cmd[i + 1] == '"' {
          arg := arg + "\"";
          i := i + 2;
          continue;
        }
        inQuotes := !inQuotes;
        i := i + 1;
        continue;
      }
      if !inQuotes && (c == ' ' || c == '\t') {
        return;
      }
      arg := arg + [c];
      i := i + 1;
    }
    RestEnd(inQuotes, arg);
    assert cmd[i..] == "";
  }

  lemma Suffixes(cmd: string, i: nat)
    requires i <= |cmd|
    ensures i < |cmd| ==> cmd[i..][1..] == cmd[i + 1..] && cmd[i..][0] == cmd[i]
    ensures i + 1 < |cmd| ==> cmd[i..][2..] == cmd[i + 2..] && cmd[i..][1] == cmd[i + 1]
  {
  }

  method SplitLine(cmd: string) returns (argv: seq<string>)
    ensures argv == Split(cmd)
  {
    hide Program, Rest;
    argv := [];
    var i := SkipFrom(cmd, 0);
    assert cmd[0..] == cmd;
    if i >= |cmd| {
      return;
    }
    var arg0;
    if cmd[i] == '"' {
      arg0, i := TakeQuoted(cmd, i);
    } else {
      arg0, i := TakeBare(cmd, i);
    }
    argv := [arg0];
    while true
      invariant i <= |cmd| && argv + Others(cmd[i..]) == Split(cmd)
      decreases |cmd| - i
    {
      ghost var at := i;
      i := SkipFrom(cmd, i);
      if i >= |cmd| {
        assert argv + [] == argv;
        break;
      }
      var arg;
      arg, i := TakeArgument(cmd, i);
      assert argv + ([arg] + Others(cmd[i..])) == argv + [arg] + Others(cmd[i..]);
      argv := argv + [arg];
    }
  }

  // ---- quoting --------------------------------------------------------------------------------------

  /** An argument as it goes between quotes: backslashes are doubled before a quote and at the end. */
  function Escaped(a: string): string
    decreases |a|
  {
    if a == "" then ""
    else if a[0] == '\\' then
      var n := Run(a);
      var t := a[n..];
      if t == "" then Slashes(2 * n)
      else if t[0] == '"' then Slashes(2 * n + 1) + ("\"" + Escaped(t[1..]))
      else Slashes(n) + Escaped(t)
    else if a[0] == '"' then "\\" + ("\"" + Escaped(a[1..]))
    else [a[0]] + Escaped(a[1..])
  }

  predicate Plain(a: string) { forall i | 0 <= i < |a| :: !Blank(a[i]) && a[i] != '"' }

  /** An argument may go bare when it is not empty and has no blank or quote in it. */
  function Quoted(a: string, bare: bool): string { if bare then a else "\"" + (Escaped(a) + "\"") }

  /** What may follow an argument: nothing, or a blank. */
  predicate Ended(t: string) { t == "" || Blank(t[0]) }

  lemma {:induction false} RunOf(n: nat, t: string)
    requires t == "" || t[0] != '\\'
    ensures Run(Slashes(n) + t) == n && (Slashes(n) + t)[n..] == t
  {
    if n > 0 {
      RunOf(n - 1, t);
      assert (Slashes(n) + t)[1..] == Slashes(n - 1) + t;
    } else {
      assert Slashes(0) + t == t;
    }
  }

  /** A run of backslashes is read off whole. */
  lemma SlashesRead(n: nat, t: string, inQuotes: bool, arg: string)
    requires n > 0 && (t == "" || t[0] != '\\')
    ensures Rest(Slashes(n) + t, inQuotes, arg) ==
            if t != "" && t[0] == '"' then
              if n % 2 == 1 then Rest(t[1..], inQuotes, arg + Slashes(n / 2) + "\"")
              else Rest(t, inQuotes, arg + Slashes(n / 2))
            else Rest(t, inQuotes, arg + Slashes(n))
  {
    RunOf(n, t);
    assert (Slashes(n) + t)[0] == '\\';
  }

  lemma EscapedStart(a: string)
    ensures a != "" && a[0] != '\\' && a[0] != '"' ==> Escaped(a) != "" && Escaped(a)[0] == a[0]
    ensures Escaped(a) == "" <==> a == ""
  {
  }

  // ---- what quoting is for ----------------------------------------------------------------------------

  lemma Joined(arg: string, a: string, n: nat)
    requires n <= |a|
    ensures arg + a[..n] + a[n..] == arg + a
    ensures n == 1 ==> a[..n] == [a[0]]
  {
  }

  // How an escaped argument, with more after it, begins.

  lemma EscapedChar(a: string, t: string)
    requires a != "" && a[0] != '\\' && a[0] != '"'
    ensures Escaped(a) + t == [a[0]] + (Escaped(a[1..]) + t)
  {
  }

  lemma EscapedQuote(a: string, t: string)
    requires a != "" && a[0] == '"'
    ensures Escaped(a) + t == Slashes(1) + ("\"" + (Escaped(a[1..]) + t))
  {
    var u := Escaped(a[1..]);
    assert Slashes(1) == "\\";
    assert "\\" + ("\"" + u) + t == "\\" + ("\"" + (u + t));
  }

  lemma Assoc(x: string, y: string, z: string)
    ensures x + y + z == x + (y + z)
  {
  }

  lemma RunSlashes(a: string)
    ensures a[..Run(a)] == Slashes(Run(a))
  {
  }

  lemma EscapedSlashes(a: string, t: string)
    requires a != "" && a[0] == '\\'
    ensures var n := Run(a); var r := a[n..];
            && a[..n] == Slashes(n)
            && Escaped(a) + t ==
               if r == "" then Slashes(2 * n) + t
               else if r[0] == '"' then Slashes(2 * n + 1) + ("\"" + (Escaped(r[1..]) + t))
               else Slashes(n) + (Escaped(r) + t)
  {
    hide Slashes, Run;
    var n := Run(a);
    var r := a[n..];
    RunSlashes(a);
    if r != "" && r[0] == '"' {
      var u := Escaped(r[1..]);
      Assoc(Slashes(2 * n + 1), "\"" + u, t);
      Assoc("\"", u, t);
    } else if r != "" {
      Assoc(Slashes(n), Escaped(r), t);
    }
  }

  lemma QuoteNext(u: string)
    ensures ("\"" + u)[1..] == u && ("\"" + u)[0] == '"'
  {
  }

  /** Between quotes, an escaped argument is read back, and its closing quote ends it. */
  lemma {:induction false} EscapedRead(a: string, t: string, arg: string)
    requires Ended(t)
    ensures Rest(Escaped(a) + ("\"" + t), true, arg) == Rest(t, false, arg + a)
    decreases |a|
  {
    hide Rest, Run, Slashes, Escaped;
    var q := "\"" + t;
    if a == "" {
      NothingEscaped(q, arg);
      ClosingRead(t, arg);
    } else if a[0] == '\\' {
      EscapedSlashes(a, q);
      SlashCase(a, t, arg);
    } else if a[0] == '"' {
      EscapedQuote(a, q);
      var u := Escaped(a[1..]) + q;
      QuoteNext(u);
      SlashesRead(1, "\"" + u, true, arg);
      OneSlash(arg);
      EscapedRead(a[1..], t, arg + "\"");
      Joined(arg, a, 1);
    } else {
      EscapedChar(a, q);
      PlainRead(a[0], Escaped(a[1..]) + q, true, arg);
      EscapedRead(a[1..], t, arg + [a[0]]);
      Joined(arg, a, 1);
    }
  }

  lemma NothingEscaped(t: string, arg: string)
    ensures Escaped("") + t == t && arg + "" == arg
  {
  }

  lemma OneSlash(arg: string)
    ensures arg + Slashes(1 / 2) + "\"" == arg + "\""
  {
    assert arg + Slashes(0) == arg;
  }

  lemma ClosingRead(t: string, arg: string)
    requires Ended(t)
    ensures Rest("\"" + t, true, arg) == Rest(t, false, arg)
  {
    assert ("\"" + t)[1..] == t;
  }

  lemma PlainRead(c: char, t: string, inQuotes: bool, arg: string)
    requires c != '\\' && c != '"' && (inQuotes || !Blank(c))
    ensures Rest([c] + t, inQuotes, arg) == Rest(t, inQuotes, arg + [c])
  {
    assert ([c] + t)[1..] == t;
  }

  /** An argument that goes on with a run of backslashes. */
  lemma {:induction false} SlashCase(a: string, t: string, arg: string)
    requires Ended(t) && a != "" && a[0] == '\\'
    ensures Rest(Escaped(a) + ("\"" + t), true, arg) == Rest(t, false, arg + a)
    decreases |a|, 0
  {
    hide Rest, Run, Slashes, Escaped;
    var q := "\"" + t;
    var n := Run(a);
    var r := a[n..];
    EscapedSlashes(a, q);
    Joined(arg, a, n);
    if r == "" {
      QuoteNext(t);
      SlashesRead(2 * n, q, true, arg);
      ClosingRead(t, arg + Slashes(n));
      assert arg + Slashes(n) + "" == arg + Slashes(n);
    } else if r[0] == '"' {
      var u := Escaped(r[1..]) + q;
      QuoteNext(u);
      SlashesRead(2 * n + 1, "\"" + u, true, arg);
      EscapedRead(r[1..], t, arg + Slashes(n) + "\"");
      Joined(arg + Slashes(n), r, 1);
    } else {
      EscapedStart(r);
      SlashesRead(n, Escaped(r) + q, true, arg);
      EscapedRead(r, t, arg + Slashes(n));
    }
  }

  lemma EndRead(t: string, arg: string)
    requires Ended(t)
    ensures Rest(t, false, arg) == Parsed(arg, t)
  {
  }

  lemma PlainParts(a: string, n: nat)
    requires Plain(a) && n <= |a|
    ensures Plain(a[n..])
  {
  }

  /** A bare argument is read back as it stands. */
  lemma {:induction false} BareRead(a: string, t: string, arg: string)
    requires Ended(t) && Plain(a)
    ensures Rest(a + t, false, arg) == Parsed(arg + a, t)
    decreases |a|
  {
    hide Rest, Run, Slashes, Plain;
    if a == "" {
      NothingBefore(t, arg);
      EndRead(t, arg);
    } else {
      var n := if a[0] == '\\' then Run(a) else 1;
      PlainParts(a, n);
      BareStep(a, t, arg, n);
      BareRead(a[n..], t, arg + a[..n]);
      Joined(arg, a, n);
    }
  }

  lemma NothingBefore(t: string, arg: string)
    ensures "" + t == t && arg + "" == arg
  {
  }

  /** A run of backslashes, or one other character, goes over as it stands. */
  lemma BareStep(a: string, t: string, arg: string, n: nat)
    requires Ended(t) && Plain(a) && a != "" && n == if a[0] == '\\' then Run(a) else 1
    ensures 0 < n <= |a| && Rest(a + t, false, arg) == Rest(a[n..] + t, false, arg + a[..n])
  {
    hide Rest, Run, Slashes;
    Divided(a, t, n);
    if a[0] == '\\' {
      RunSlashes(a);
      SlashesRead(n, a[n..] + t, false, arg);
    } else {
      assert a[..1] == [a[0]];
      PlainRead(a[0], a[1..] + t, false, arg);
    }
  }

  lemma Divided(a: string, t: string, n: nat)
    requires n <= |a|
    ensures a + t == a[..n] + (a[n..] + t)
  {
  }

  lemma ArgumentRead(a: string, bare: bool, t: string)
    requires Ended(t) && (bare ==> a != "" && Plain(a))
    ensures Rest(Quoted(a, bare) + t, false, "") == Parsed(a, t)
  {
    hide Escaped;
    assert "" + a == a;
    if bare {
      BareRead(a, t, "");
    } else {
      var u := Escaped(a) + ("\"" + t);
      assert Quoted(a, false) + t == "\"" + u;
      assert ("\"" + u)[1..] == u;
      EscapedRead(a, t, "");
      assert Rest(t, false, a) == Parsed(a, t);
    }
  }

  // ---- whole command lines ------------------------------------------------------------------------------

  /** An argument, the blanks before it, and whether it goes without quotes. */
  datatype Piece = Piece(gap: string, arg: string, bare: bool)

  predicate PieceOk(p: Piece)
  {
    p.gap != "" && Blanks(p.gap) && (p.bare ==> p.arg != "" && Plain(p.arg))
  }

  /** The arguments after the program name, and any blanks at the end. */
  function Line(ps: seq<Piece>, tail: string): string
  {
    if ps == [] then tail else ps[0].gap + (Quoted(ps[0].arg, ps[0].bare) + Line(ps[1..], tail))
  }

  function Args(ps: seq<Piece>): seq<string> { seq(|ps|, i requires 0 <= i < |ps| => ps[i].arg) }

  lemma {:induction false} GapSkipped(gap: string, t: string)
    requires Blanks(gap) && (t == "" || !Blank(t[0]))
    ensures SkipBlanks(gap + t) == t
  {
    if gap == "" {
      assert gap + t == t;
    } else {
      assert (gap + t)[1..] == gap[1..] + t;
      GapSkipped(gap[1..], t);
    }
  }

  lemma LineEnded(ps: seq<Piece>, tail: string)
    requires Blanks(tail) && forall p | p in ps :: PieceOk(p)
    ensures Ended(Line(ps, tail))
  {
    if ps != [] {
      assert ps[0] in ps;
    }
  }

  lemma QuotedStart(a: string, bare: bool)
    requires bare ==> a != "" && Plain(a)
    ensures Quoted(a, bare) != "" && !Blank(Quoted(a, bare)[0])
  {
  }

  lemma {:induction false} OthersRead(ps: seq<Piece>, tail: string)
    requires Blanks(tail) && forall p | p in ps :: PieceOk(p)
    ensures Others(Line(ps, tail)) == Args(ps)
    decreases |ps|
  {
    hide Rest, Quoted, SkipBlanks;
    if ps == [] {
      assert tail + "" == tail;
      GapSkipped(tail, "");
    } else {
      assert ps[0] in ps;
      var p, t := ps[0], Line(ps[1..], tail);
      LineEnded(ps[1..], tail);
      QuotedStart(p.arg, p.bare);
      GapSkipped(p.gap, Quoted(p.arg, p.bare) + t);
      ArgumentRead(p.arg, p.bare, t);
      OthersRead(ps[1..], tail);
      assert Args(ps) == [p.arg] + Args(ps[1..]);
    }
  }

  /** A program name between quotes, or bare when it has no blank and starts with no quote. */
  function Named(a: string, bare: bool): string { if bare then a else "\"" + (a + "\"") }

  predicate NameOk(a: string, bare: bool)
  {
    if bare then a != "" && a[0] != '"' && forall i | 0 <= i < |a| :: !Blank(a[i]) else '"' !in a
  }

  lemma ProgramRead(a: string, bare: bool, t: string)
    requires NameOk(a, bare) && Ended(t)
    ensures Named(a, bare) + t != "" && !Blank((Named(a, bare) + t)[0]) && Program(Named(a, bare) + t) == Parsed(a, t)
  {
    var s := Named(a, bare) + t;
    if bare {
      BlankAfter(a, t);
      assert s[..|a|] == a && s[|a|..] == t;
    } else {
      Assoc("\"", a + "\"", t);
      Assoc(a, "\"", t);
      assert s[1..] == a + ("\"" + t);
      QuoteAfter(a, t);
      assert s[1..][..|a|] == a && s[|a| + 2..] == t;
    }
  }

  lemma {:induction false} BlankAfter(a: string, t: string)
    requires (forall i | 0 <= i < |a| :: !Blank(a[i])) && Ended(t)
    ensures ToBlank(a + t) == |a|
  {
    if a == "" {
      assert a + t == t;
    } else {
      assert (a + t)[1..] == a[1..] + t;
      BlankAfter(a[1..], t);
    }
  }

  lemma {:induction false} QuoteAfter(a: string, t: string)
    requires '"' !in a
    ensures ToQuote(a + ("\"" + t)) == |a|
  {
    if a == "" {
      assert a + ("\"" + t) == "\"" + t;
    } else {
      assert (a + ("\"" + t))[1..] == a[1..] + ("\"" + t);
      QuoteAfter(a[1..], t);
    }
  }

  /** Splitting a line built from any arguments gives back exactly those arguments. */
  lemma SplitBuilt(lead: string, name: string, bare: bool, ps: seq<Piece>, tail: string)
    requires Blanks(lead) && Blanks(tail) && NameOk(name, bare) && forall p | p in ps :: PieceOk(p)
    ensures Split(lead + (Named(name, bare) + Line(ps, tail))) == [name] + Args(ps)
  {
    hide Program, Others, Named, Line, SkipBlanks;
    LineEnded(ps, tail);
    ProgramRead(name, bare, Line(ps, tail));
    GapSkipped(lead, Named(name, bare) + Line(ps, tail));
    OthersRead(ps, tail);
  }

  // ---- every way to spell an argument -----------------------------------------------------------------

  /**
    The pieces an argument is spelled with: a character that stands for itself, a quote that turns
    quoting on or off, a doubled quote between quotes, backslashes before no quote, and backslashes
    before one, an odd number of them making it a character.
    */
  datatype Token = Itself(c: char) | Toggle | Doubled | Slash(n: nat) | Literal(n: nat) | Even(n: nat)

  function Spelt(k: Token): string
  {
    match k
    case Itself(c) => [c]
    case Toggle => "\""
    case Doubled => "\"\""
    case Slash(n) => Slashes(n)
    case Literal(n) => Slashes(2 * n + 1) + "\""
    case Even(n) => Slashes(2 * n)
  }

  function Meant(k: Token): string
  {
    match k
    case Itself(c) => [c]
    case Toggle => ""
    case Doubled => "\""
    case Slash(n) => Slashes(n)
    case Literal(n) => Slashes(n) + "\""
    case Even(n) => Slashes(n)
  }

  function SpeltAll(ks: seq<Token>): string { if ks == [] then "" else Spelt(ks[0]) + SpeltAll(ks[1..]) }

  function MeantAll(ks: seq<Token>): string { if ks == [] then "" else Meant(ks[0]) + MeantAll(ks[1..]) }

  predicate Starts(s: string, c: char) { s != "" && s[0] == c }

  /** The token can be read as such inside or outside quotes, before what follows it. */
  predicate Readable(k: Token, inQuotes: bool, next: string)
  {
    match k
    case Itself(c) => c != '\\' && c != '"' && (inQuotes || (c != ' ' && c != '\t'))
    case Toggle => inQuotes ==> !Starts(next, '"')
    case Doubled => inQuotes
    case Slash(n) => n > 0 && !Starts(next, '\\') && !Starts(next, '"')
    case Literal(_) => true
    case Even(n) => n > 0 && Starts(next, '"')
  }

  predicate AllReadable(ks: seq<Token>, inQuotes: bool, t: string)
  {
    if ks == [] then t == "" || (!inQuotes && (t[0] == ' ' || t[0] == '\t'))
    else Readable(ks[0], inQuotes, SpeltAll(ks[1..]) + t) && AllReadable(ks[1..], inQuotes != ks[0].Toggle?, t)
  }

  /** However an argument is spelled, it is read as what its tokens mean, up to the blank that ends it. */
  lemma {:induction false} SpeltRead(ks: seq<Token>, inQuotes: bool, t: string, arg: string)
    requires AllReadable(ks, inQuotes, t)
    ensures Rest(SpeltAll(ks) + t, inQuotes, arg) == Parsed(arg + MeantAll(ks), t)
  {
    if ks == [] {
      assert SpeltAll(ks) + t == t && arg + "" == arg;
    } else {
      var next := SpeltAll(ks[1..]) + t;
      assert SpeltAll(ks) + t == Spelt(ks[0]) + next;
      TokenRead(ks[0], inQuotes, next, arg);
      SpeltRead(ks[1..], inQuotes != ks[0].Toggle?, t, arg + Meant(ks[0]));
      assert arg + Meant(ks[0]) + MeantAll(ks[1..]) == arg + MeantAll(ks);
    }
  }

  lemma TokenRead(k: Token, inQuotes: bool, next: string, arg: string)
    requires Readable(k, inQuotes, next)
    ensures Rest(Spelt(k) + next, inQuotes, arg) == Rest(next, inQuotes != k.Toggle?, arg + Meant(k))
  {
    hide Rest, Slashes;
    match k
    case Itself(c) => PlainRead(c, next, inQuotes, arg);
    case Toggle => ToggleRead(next, inQuotes, arg);
    case Doubled => DoubledRead(next, arg);
    case Slash(n) => SlashesRead(n, next, inQuotes, arg);
    case Literal(n) => LiteralRead(n, next, inQuotes, arg);
    case Even(n) => EvenRead(n, next, inQuotes, arg);
  }

  lemma ToggleRead(next: string, inQuotes: bool, arg: string)
    requires inQuotes ==> !Starts(next, '"')
    ensures Rest("\"" + next, inQuotes, arg) == Rest(next, !inQuotes, arg) && arg + "" == arg
  {
    assert ("\"" + next)[1..] == next;
  }

  lemma DoubledRead(next: string, arg: string)
    ensures Rest("\"\"" + next, true, arg) == Rest(next, true, arg + "\"")
  {
    assert ("\"\"" + next)[2..] == next;
  }

  lemma LiteralRead(n: nat, next: string, inQuotes: bool, arg: string)
    ensures Rest(Slashes(2 * n + 1) + "\"" + next, inQuotes, arg) == Rest(next, inQuotes, arg + (Slashes(n) + "\""))
  {
    hide Rest, Slashes;
    SlashesRead(2 * n + 1, "\"" + next, inQuotes, arg);
    assert Slashes(2 * n + 1) + "\"" + next == Slashes(2 * n + 1) + ("\"" + next);
    assert ("\"" + next)[1..] == next;
    assert arg + Slashes(n) + "\"" == arg + (Slashes(n) + "\"");
  }

  lemma EvenRead(n: nat, next: string, inQuotes: bool, arg: string)
    requires n > 0 && Starts(next, '"')
    ensures Rest(Slashes(2 * n) + next, inQuotes, arg) == Rest(next, inQuotes, arg + Slashes(n))
  {
    SlashesRead(2 * n, next, inQuotes, arg);
  }
}
