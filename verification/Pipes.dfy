/** Descriptor tables that share pipe ends, and the counts that say when a pipe has no more writers. */
module Pipes {
  import opened Bytes
  import opened Wrappers

  datatype End = ReadEnd(pipe: nat) | WriteEnd(pipe: nat)

  /** A descriptor; one without a pipe end names a host stream, which is not part of this model. */
  datatype Entry = Entry(end: Option<End>, readable: bool, writable: bool, cloexec: bool)

  type Files = map<int, Entry>

  /** The host's standard streams, which every table starts with. */
  function Standard(): Files
  {
    map[0 := Entry(None, true, false, false), 1 := Entry(None, false, true, false),
        2 := Entry(None, false, true, false)]
  }

  const BADF: int := -9
  const AGAIN: int := -11
  const MFILE: int := -24
  const PIPE: int := -32

  // ---- the reference: tables and queues, with no counts -------------------------------------------

  /** Every process's table, every pipe's bytes in flight, and everything ever sent and received. */
  datatype System = System(tables: map<nat, Files>, queues: map<nat, seq<byte>>, next: nat,
                           sent: map<nat, seq<byte>>, got: map<nat, seq<byte>>)

  predicate Holds(tables: map<nat, Files>, t: nat, fd: int, e: End)
  {
    t in tables && fd in tables[t] && tables[t][fd].end == Some(e)
  }

  function Holders(tables: map<nat, Files>, e: End): set<(nat, int)>
  {
    set t, fd | t in tables && fd in tables[t] && tables[t][fd].end == Some(e) :: (t, fd)
  }

  /** Some table still refers to the end. */
  predicate Held(tables: map<nat, Files>, e: End) { Holders(tables, e) != {} }

  /** The lowest free descriptor from fd up, or -1. */
  function Lowest(files: Files, fd: nat): (r: int)
    ensures r == -1 || (fd <= r < 4096 && r !in files && forall k | fd <= k < r :: k in files)
    ensures r == -1 ==> forall k | fd <= k < 4096 :: k in files
    decreases 4096 - fd
  {
    if fd >= 4096 then -1 else if fd !in files then fd else Lowest(files, fd + 1)
  }

  function With(s: System, t: nat, fd: int, e: Entry): System
    requires t in s.tables
  {
    s.(tables := s.tables[t := s.tables[t][fd := e]])
  }

  /** A system and what the call returns. */
  datatype Reply = Reply(s: System, r: int, data: seq<byte>)

  /** A new pipe with nothing in it. */
  function Opened(s: System): System
  {
    s.(queues := s.queues[s.next := []], next := s.next + 1, sent := s.sent[s.next := []], got := s.got[s.next := []])
  }

  /** Both descriptors, or neither. */
  function AfterMakePipe(s: System, t: nat): (o: (Reply, int, int))
    requires t in s.tables
  {
    var rd := Lowest(s.tables[t], 3);
    if rd < 0 then (Reply(s, MFILE, []), -1, -1) else
    var s1 := With(Opened(s), t, rd, Entry(Some(ReadEnd(s.next)), true, false, false));
    var wr := Lowest(s1.tables[t], 3);
    if wr < 0 then (Reply(s, MFILE, []), -1, -1) else
    (Reply(With(s1, t, wr, Entry(Some(WriteEnd(s.next)), false, true, false)), 0, []), rd, wr)
  }

  function AfterClose(s: System, t: nat, fd: int): Reply
    requires t in s.tables
  {
    if fd !in s.tables[t] then Reply(s, BADF, []) else Reply(s.(tables := s.tables[t := s.tables[t] - {fd}]), 0, [])
  }

  function AfterDup(s: System, t: nat, fd: int, to: int): Reply
    requires t in s.tables
  {
    if fd !in s.tables[t] then Reply(s, BADF, [])
    else
      var target := if to < 0 then Lowest(s.tables[t], 3) else to;
      if target < 0 then Reply(s, MFILE, [])
      else if target == fd then Reply(s, target, [])
      else Reply(With(s, t, target, s.tables[t][fd].(cloexec := false)), target, [])
  }

  /** A copy of another table's descriptor. */
  function AfterInstall(s: System, t: nat, fd: int, from: nat, sfd: int): System
    requires t in s.tables && from in s.tables && sfd in s.tables[from]
  {
    With(s, t, fd, s.tables[from][sfd].(cloexec := false))
  }

  function AfterClone(s: System, t: nat, child: nat): System
    requires t in s.tables
  {
    s.(tables := s.tables[child := s.tables[t]])
  }

  function AfterCloexec(s: System, t: nat): System
    requires t in s.tables
  {
    s.(tables := s.tables[t := map fd | fd in s.tables[t] && !s.tables[t][fd].cloexec :: s.tables[t][fd]])
  }

  /** A descriptor is marked to go on exec. */
  function AfterMark(s: System, t: nat, fd: int): System
    requires t in s.tables && fd in s.tables[t]
  {
    With(s, t, fd, s.tables[t][fd].(cloexec := true))
  }

  /** A process starts with a table of its own. */
  function AfterStart(s: System, t: nat): System { s.(tables := s.tables[t := Standard()]) }

  /** A process ends, and its table with it. */
  function AfterExit(s: System, t: nat): System { s.(tables := s.tables - {t}) }

  /** The entry is one end of a pipe that exists. */
  predicate OnPipe(s: System, e: Entry) {
    e.end.Some? && e.end.value.pipe in s.queues && e.end.value.pipe in s.sent && e.end.value.pipe in s.got
  }

  /** Reading: the first bytes in the queue; on an empty queue, end of file or retry by who holds the write end. */
  function AfterRead(s: System, t: nat, fd: int, len: nat): Reply
    requires t in s.tables && (fd in s.tables[t] && s.tables[t][fd].readable ==> OnPipe(s, s.tables[t][fd]))
  {
    if fd !in s.tables[t] || !s.tables[t][fd].readable then Reply(s, BADF, [])
    else if len == 0 then Reply(s, 0, [])
    else
      var p := s.tables[t][fd].end.value.pipe;
      var q := s.queues[p];
      if q == [] then Reply(s, if Held(s.tables, WriteEnd(p)) then AGAIN else 0, [])
      else
        var n := if len < |q| then len else |q|;
        Reply(s.(queues := s.queues[p := q[n..]], got := s.got[p := s.got[p] + q[..n]]), n, q[..n])
  }

  /** Writing: the bytes join the queue, unless nobody can ever read them. */
  function AfterWrite(s: System, t: nat, fd: int, src: seq<byte>): Reply
    requires t in s.tables && (fd in s.tables[t] && s.tables[t][fd].writable ==> OnPipe(s, s.tables[t][fd]))
  {
    if fd !in s.tables[t] || !s.tables[t][fd].writable then Reply(s, BADF, [])
    else if src == [] then Reply(s, 0, [])
    else
      var p := s.tables[t][fd].end.value.pipe;
      if !Held(s.tables, ReadEnd(p)) then Reply(s, PIPE, [])
      else Reply(s.(queues := s.queues[p := s.queues[p] + src], sent := s.sent[p := s.sent[p] + src]), |src|, [])
  }

  // ---- counting holders -----------------------------------------------------------------------------

  /** One more descriptor for an end, where there was none. */
  lemma HoldersAdd(tables: map<nat, Files>, t: nat, fd: int, e: Entry)
    requires t in tables && fd !in tables[t]
    ensures var n := tables[t := tables[t][fd := e]];
            forall x ::
              Holders(n, x) == (if e.end == Some(x) then Holders(tables, x) + {(t, fd)} else Holders(tables, x))
                        && (t, fd) !in Holders(tables, x)
  {
  }

  /** One fewer. */
  lemma HoldersRemove(tables: map<nat, Files>, t: nat, fd: int)
    requires t in tables && fd in tables[t]
    ensures var n := tables[t := tables[t] - {fd}];
            forall x ::
              Holders(n, x) == Holders(tables, x) - {(t, fd)}
                && ((t, fd) in Holders(tables, x) <==> tables[t][fd].end == Some(x))
  {
  }

  lemma HoldersFresh(tables: map<nat, Files>, t: nat)
    requires t !in tables
    ensures forall x :: Holders(tables[t := map[]], x) == Holders(tables, x)
  {
  }

  lemma HoldersGone(tables: map<nat, Files>, t: nat)
    requires t in tables && tables[t] == map[]
    ensures forall x :: Holders(tables - {t}, x) == Holders(tables, x)
  {
  }

  // ---- the tables and pipes themselves ----------------------------------------------------------------

  /** The counts are of end objects: one per end, however many descriptors share it. */
  datatype Pipe = Pipe(buffer: seq<byte>, readers: int, writers: int)

  function Live(b: bool): int { if b then 1 else 0 }

  /** The tables, the use count of each shared end, and the pipes. */
  datatype Core = Core(tables: map<nat, Files>, refs: map<End, nat>, pipes: map<nat, Pipe>, next: nat,
                       sent: map<nat, seq<byte>>, got: map<nat, seq<byte>>)

  function Meaning(c: Core): System {
    System(c.tables, map p | p in c.pipes :: c.pipes[p].buffer, c.next, c.sent, c.got)
  }

  /** A shared end exists exactly while a descriptor refers to it, and its use count is how many do. */
  predicate EndOk(c: Core, e: End)
  {
    (e in c.refs <==> Held(c.tables, e)) && (e in c.refs ==> c.refs[e] == |Holders(c.tables, e)| && e.pipe in c.pipes)
  }

  predicate PipeOk(c: Core, p: nat)
  {
    && (p in c.pipes <==> p in c.sent) && (p in c.pipes <==> p in c.got)
    && (p in c.pipes ==>
           p < c.next && c.pipes[p].readers == Live(ReadEnd(p) in c.refs)
             && c.pipes[p].writers == Live(WriteEnd(p) in c.refs)
                         && c.sent[p] == c.got[p] + c.pipes[p].buffer)
  }

  /** A descriptor for a pipe end can do what that end can, and nothing else. */
  predicate EntryOk(e: Entry) {
    e.end.Some? ==> e.readable == e.end.value.ReadEnd? && e.writable == e.end.value.WriteEnd?
  }

  predicate EntriesOk(tables: map<nat, Files>) {
    forall t, fd | t in tables && fd in tables[t] :: EntryOk(tables[t][fd])
  }

  ghost predicate Ok(c: Core)
  {
    (forall e :: EndOk(c, e)) && (forall p :: PipeOk(c, p)) && EntriesOk(c.tables)
  }

  function Counted(p: Pipe, e: End, d: int): Pipe
  {
    if e.WriteEnd? then p.(writers := p.writers + d) else p.(readers := p.readers + d)
  }

  /** Another descriptor for an end that is in use, or for a host stream. */
  function PutCore(c: Core, t: nat, fd: int, e: Entry): Core
    requires t in c.tables && (e.end.Some? ==> e.end.value in c.refs)
  {
    c.(tables := c.tables[t := c.tables[t][fd := e]],
       refs := if e.end.Some? then c.refs[e.end.value := c.refs[e.end.value] + 1] else c.refs)
  }

  /** The first descriptor for an end, which counts itself into its pipe. */
  function FirstCore(c: Core, t: nat, fd: int, e: Entry): Core
    requires t in c.tables && e.end.Some? && e.end.value.pipe in c.pipes
  {
    c.(tables := c.tables[t := c.tables[t][fd := e]], refs := c.refs[e.end.value := 1],
       pipes := c.pipes[e.end.value.pipe := Counted(c.pipes[e.end.value.pipe], e.end.value, 1)])
  }

  /** A descriptor goes; an end nobody else refers to counts itself out of its pipe. */
  function EraseCore(c: Core, t: nat, fd: int): Core
    requires t in c.tables && fd in c.tables[t]
    requires c.tables[t][fd].end.Some? ==>
               c.tables[t][fd].end.value in c.refs && c.refs[c.tables[t][fd].end.value] > 0
                 && c.tables[t][fd].end.value.pipe in c.pipes
  {
    var d := c.(tables := c.tables[t := c.tables[t] - {fd}]);
    match c.tables[t][fd].end
    case None => d
    case Some(e) =>
      if c.refs[e] == 1 then d.(refs := c.refs - {e}, pipes := c.pipes[e.pipe := Counted(c.pipes[e.pipe], e, -1)])
      else d.(refs := c.refs[e := c.refs[e] - 1])
  }

  lemma PutOk(c: Core, t: nat, fd: int, e: Entry)
    requires Ok(c) && t in c.tables && fd !in c.tables[t] && EntryOk(e) && (e.end.Some? ==> e.end.value in c.refs)
    ensures Ok(PutCore(c, t, fd, e))
  {
    hide EndOk, PipeOk;
    var d := PutCore(c, t, fd, e);
    forall x ensures EndOk(d, x) {
      PutEnd(c, t, fd, e, x);
    }
    forall p ensures PipeOk(d, p) {
      SamePipe(c, d, p);
    }
  }

  lemma PutEnd(c: Core, t: nat, fd: int, e: Entry, x: End)
    requires t in c.tables && fd !in c.tables[t] && (e.end.Some? ==> e.end.value in c.refs) && EndOk(c, x)
    ensures EndOk(PutCore(c, t, fd, e), x)
  {
    hide Holders;
    HoldersAdd(c.tables, t, fd, e);
  }

  /** Which ends exist is all that a pipe's counts depend on. */
  lemma SamePipe(c: Core, d: Core, p: nat)
    requires PipeOk(c, p) && d == c.(tables := d.tables, refs := d.refs) && d.refs.Keys == c.refs.Keys
    ensures PipeOk(d, p)
  {
    assert forall e :: e in d.refs <==> e in d.refs.Keys;
    assert forall e :: e in c.refs <==> e in c.refs.Keys;
  }

  lemma FirstOk(c: Core, t: nat, fd: int, e: Entry)
    requires Ok(c) && t in c.tables && fd !in c.tables[t] && EntryOk(e) && e.end.Some? && e.end.value !in c.refs
             && e.end.value.pipe in c.pipes
    ensures Ok(FirstCore(c, t, fd, e))
  {
    hide EndOk, PipeOk;
    var d := FirstCore(c, t, fd, e);
    forall x ensures EndOk(d, x) {
      FirstEnd(c, t, fd, e, x);
    }
    forall p ensures PipeOk(d, p) {
      FirstPipe(c, t, fd, e, p);
    }
  }

  lemma FirstEnd(c: Core, t: nat, fd: int, e: Entry, x: End)
    requires t in c.tables && fd !in c.tables[t] && e.end.Some? && e.end.value !in c.refs && e.end.value.pipe in c.pipes
             && EndOk(c, x)
    ensures EndOk(FirstCore(c, t, fd, e), x)
  {
    hide Holders;
    HoldersAdd(c.tables, t, fd, e);
  }

  lemma FirstPipe(c: Core, t: nat, fd: int, e: Entry, p: nat)
    requires t in c.tables && e.end.Some? && e.end.value !in c.refs && e.end.value.pipe in c.pipes && PipeOk(c, p)
    ensures PipeOk(FirstCore(c, t, fd, e), p)
  {
  }

  /** What a descriptor's end promises. */
  lemma EndInUse(c: Core, t: nat, fd: int)
    requires Ok(c) && t in c.tables && fd in c.tables[t] && c.tables[t][fd].end.Some?
    ensures var e := c.tables[t][fd].end.value;
            e in c.refs && c.refs[e] > 0 && e.pipe in c.pipes && EntryOk(c.tables[t][fd])
  {
    var e := c.tables[t][fd].end.value;
    assert (t, fd) in Holders(c.tables, e);
    assert EndOk(c, e);
  }

  lemma EraseOk(c: Core, t: nat, fd: int)
    requires Ok(c) && t in c.tables && fd in c.tables[t]
    ensures c.tables[t][fd].end.Some? ==>
              c.tables[t][fd].end.value in c.refs && c.refs[c.tables[t][fd].end.value] > 0
                && c.tables[t][fd].end.value.pipe in c.pipes
    ensures Ok(EraseCore(c, t, fd))
            && Meaning(EraseCore(c, t, fd)) == Meaning(c).(tables := c.tables[t := c.tables[t] - {fd}])
  {
    hide EndOk, PipeOk;
    if c.tables[t][fd].end.Some? {
      EndInUse(c, t, fd);
    }
    var d := EraseCore(c, t, fd);
    forall x ensures EndOk(d, x) {
      EraseEnd(c, t, fd, x);
    }
    forall p ensures PipeOk(d, p) {
      ErasePipe(c, t, fd, p);
    }
  }

  lemma EraseEnd(c: Core, t: nat, fd: int, x: End)
    requires t in c.tables && fd in c.tables[t] && EndOk(c, x)
    requires c.tables[t][fd].end.Some? ==>
               c.tables[t][fd].end.value in c.refs && c.refs[c.tables[t][fd].end.value] > 0
                 && c.tables[t][fd].end.value.pipe in c.pipes
    ensures EndOk(EraseCore(c, t, fd), x)
  {
    hide Holders;
    HoldersRemove(c.tables, t, fd);
    if c.tables[t][fd].end == Some(x) {
      assert |Holders(c.tables, x) - {(t, fd)}| == |Holders(c.tables, x)| - 1;
    } else {
      assert Holders(c.tables, x) - {(t, fd)} == Holders(c.tables, x);
    }
  }

  lemma ErasePipe(c: Core, t: nat, fd: int, p: nat)
    requires t in c.tables && fd in c.tables[t] && PipeOk(c, p)
    requires c.tables[t][fd].end.Some? ==>
               c.tables[t][fd].end.value in c.refs && c.refs[c.tables[t][fd].end.value] > 0
                 && c.tables[t][fd].end.value.pipe in c.pipes
    ensures PipeOk(EraseCore(c, t, fd), p)
  {
  }

  // ---- reading and writing -------------------------------------------------------------------------------

  lemma SentOk(c: Core, p: nat, src: seq<byte>)
    requires Ok(c) && p in c.pipes
    ensures p in c.sent
            && Ok(c.(pipes := c.pipes[p := c.pipes[p].(buffer := c.pipes[p].buffer + src)],
                     sent := c.sent[p := c.sent[p] + src]))
  {
    hide Holders;
    assert PipeOk(c, p);
    var d :=
      c.(pipes := c.pipes[p := c.pipes[p].(buffer := c.pipes[p].buffer + src)], sent := c.sent[p := c.sent[p] + src]);
    forall x ensures EndOk(d, x) {
      assert EndOk(c, x);
    }
    forall q ensures PipeOk(d, q) {
      assert PipeOk(c, q);
    }
  }

  lemma TakenOk(c: Core, p: nat, n: nat)
    requires Ok(c) && p in c.pipes && n <= |c.pipes[p].buffer|
    ensures p in c.got
            && Ok(c.(pipes := c.pipes[p := c.pipes[p].(buffer := c.pipes[p].buffer[n..])],
                     got := c.got[p := c.got[p] + c.pipes[p].buffer[..n]]))
  {
    hide Holders;
    assert PipeOk(c, p);
    var d :=
      c.(pipes := c.pipes[p := c.pipes[p].(buffer := c.pipes[p].buffer[n..])],
         got := c.got[p := c.got[p] + c.pipes[p].buffer[..n]]);
    forall x ensures EndOk(d, x) {
      assert EndOk(c, x);
    }
    forall q ensures PipeOk(d, q) {
      assert PipeOk(c, q);
      assert c.got[p] + c.pipes[p].buffer[..n] + c.pipes[p].buffer[n..] == c.got[p] + c.pipes[p].buffer;
    }
  }

  /** An end's count is positive exactly when some table still refers to it. */
  lemma CountsHolders(c: Core, p: nat)
    requires Ok(c) && p in c.pipes
    ensures c.pipes[p].writers > 0 <==> exists t, fd :: Holds(c.tables, t, fd, WriteEnd(p))
    ensures c.pipes[p].readers > 0 <==> exists t, fd :: Holds(c.tables, t, fd, ReadEnd(p))
    ensures c.pipes[p].writers > 0 <==> Held(c.tables, WriteEnd(p))
    ensures c.pipes[p].readers > 0 <==> Held(c.tables, ReadEnd(p))
  {
    assert PipeOk(c, p) && EndOk(c, WriteEnd(p)) && EndOk(c, ReadEnd(p));
    HeldIs(c.tables, WriteEnd(p));
    HeldIs(c.tables, ReadEnd(p));
  }

  lemma HeldIs(tables: map<nat, Files>, e: End)
    ensures Held(tables, e) <==> exists t, fd :: Holds(tables, t, fd, e)
  {
    forall t: nat, fd: int ensures Holds(tables, t, fd, e) <==> (t, fd) in Holders(tables, e) {
    }
    if Held(tables, e) {
      var h :| h in Holders(tables, e);
      assert Holds(tables, h.0, h.1, e);
    }
  }

  lemma NewPipeOk(c: Core)
    requires Ok(c)
    ensures ReadEnd(c.next) !in c.refs && WriteEnd(c.next) !in c.refs && c.next !in c.pipes && c.next !in c.sent
            && c.next !in c.got
    ensures !Held(c.tables, ReadEnd(c.next)) && !Held(c.tables, WriteEnd(c.next))
    ensures Ok(c.(pipes := c.pipes[c.next := Pipe([], 0, 0)], next := c.next + 1, sent := c.sent[c.next := []],
                  got := c.got[c.next := []]))
  {
    hide Holders;
    assert PipeOk(c, c.next) && EndOk(c, ReadEnd(c.next)) && EndOk(c, WriteEnd(c.next));
    var d :=
      c.(pipes := c.pipes[c.next := Pipe([], 0, 0)], next := c.next + 1, sent := c.sent[c.next := []],
         got := c.got[c.next := []]);
    forall x ensures EndOk(d, x) {
      assert EndOk(c, x);
    }
    forall q ensures PipeOk(d, q) {
      assert PipeOk(c, q);
    }
  }

  /** A pipe that nothing refers to can be forgotten. */
  lemma DeadPipeOk(c: Core, p: nat)
    requires Ok(c) && p in c.pipes && !Held(c.tables, ReadEnd(p)) && !Held(c.tables, WriteEnd(p)) && c.next == p + 1
    ensures Ok(c.(pipes := c.pipes - {p}, next := p, sent := c.sent - {p}, got := c.got - {p}))
  {
    hide Holders;
    var d := c.(pipes := c.pipes - {p}, next := p, sent := c.sent - {p}, got := c.got - {p});
    assert EndOk(c, ReadEnd(p)) && EndOk(c, WriteEnd(p));
    forall x ensures EndOk(d, x) {
      assert EndOk(c, x);
      assert x == ReadEnd(x.pipe) || x == WriteEnd(x.pipe);
    }
    forall q ensures PipeOk(d, q) {
      assert PipeOk(c, q);
    }
  }

  class Processes {
    var tables: map<nat, Files>
    var refs: map<End, nat>
    var pipes: map<nat, Pipe>
    var next: nat
    ghost var sent: map<nat, seq<byte>>
    ghost var got: map<nat, seq<byte>>

    ghost function C(): Core
      reads this
    {
      Core(tables, refs, pipes, next, sent, got)
    }

    ghost predicate Valid()
      reads this
    {
      Ok(C())
    }

    ghost function Now(): System
      reads this
    {
      Meaning(C())
    }

    constructor (t: nat)
      ensures Valid() && Now() == System(map[t := Standard()], map[], 0, map[], map[])
    {
      tables, refs, pipes, next, sent, got := map[t := Standard()], map[], map[], 0, map[], map[];
    }

    /** alloc_slot() */
    method AllocSlot(t: nat) returns (fd: int)
      requires t in tables
      ensures fd == Lowest(tables[t], 3)
    {
      fd := 3;
      while fd < 4096
        invariant 3 <= fd <= 4096 && Lowest(tables[t], 3) == Lowest(tables[t], fd)
      {
        if fd !in tables[t] {
          return;
        }
        fd := fd + 1;
      }
      fd := -1;
    }

    method Put(t: nat, fd: int, e: Entry)
      requires Valid() && t in tables && fd !in tables[t] && EntryOk(e) && (e.end.Some? ==> e.end.value in refs)
      modifies `tables, `refs
      ensures Valid() && C() == PutCore(old(C()), t, fd, e)
    {
      hide Ok;
      PutOk(C(), t, fd, e);
      if e.end.Some? {
        refs := refs[e.end.value := refs[e.end.value] + 1];
      }
      tables := tables[t := tables[t][fd := e]];
    }

    /** A new end object, and the first descriptor for it. */
    method PutFirst(t: nat, fd: int, e: Entry)
      requires Valid() && t in tables && fd !in tables[t] && EntryOk(e) && e.end.Some? && e.end.value !in refs
               && e.end.value.pipe in pipes
      modifies `tables, `refs, `pipes
      ensures Valid() && refs == old(refs)[e.end.value := 1] && pipes.Keys == old(pipes).Keys && next == old(next)
      ensures Now() == With(old(Now()), t, fd, e)
    {
      hide Ok;
      FirstOk(C(), t, fd, e);
      var end := e.end.value;
      pipes := pipes[end.pipe := Counted(pipes[end.pipe], end, 1)];
      refs := refs[end := 1];
      tables := tables[t := tables[t][fd := e]];
    }

    /** A descriptor goes, and with the last one for an end the end object. */
    method Erase(t: nat, fd: int)
      requires Valid() && t in tables && fd in tables[t]
      modifies `tables, `refs, `pipes
      ensures Valid() && Now() == old(Now()).(tables := old(tables)[t := old(tables)[t] - {fd}])
    {
      hide Ok;
      EraseOk(C(), t, fd);
      var e := tables[t][fd].end;
      tables := tables[t := tables[t] - {fd}];
      if e.Some? {
        if refs[e.value] == 1 {
          refs := refs - {e.value};
          pipes := pipes[e.value.pipe := Counted(pipes[e.value.pipe], e.value, -1)];
        } else {
          refs := refs[e.value := refs[e.value] - 1];
        }
      }
    }

    method NewPipe() returns (p: nat)
      requires Valid()
      modifies `pipes, `next, `sent, `got
      ensures Valid() && p == old(next) && Now() == Opened(old(Now())) && next == p + 1
      ensures p in pipes && ReadEnd(p) !in refs && WriteEnd(p) !in refs && !Held(tables, ReadEnd(p))
              && !Held(tables, WriteEnd(p))
      ensures p !in old(Now()).queues && p !in old(Now()).sent && p !in old(Now()).got
    {
      hide Ok, Held;
      NewPipeOk(C());
      p := next;
      pipes, next, sent, got := pipes[p := Pipe([], 0, 0)], p + 1, sent[p := []], got[p := []];
    }

    /** The last reference to a pipe goes. */
    method DropPipe(p: nat)
      requires Valid() && p in pipes && next == p + 1 && !Held(tables, ReadEnd(p)) && !Held(tables, WriteEnd(p))
      modifies `pipes, `next, `sent, `got
      ensures Valid() && Now() == System(tables, old(Now()).queues - {p}, p, old(sent) - {p}, old(got) - {p})
    {
      hide Ok, Held;
      DeadPipeOk(C(), p);
      pipes, next, sent, got := pipes - {p}, p, sent - {p}, got - {p};
    }

    /** The read end goes again when there is no room for the write end. */
    method Withdraw(ghost s: System, t: nat, rd: int, p: nat)
      requires Valid() && t in s.tables && rd !in s.tables[t] && p == s.next
      requires p !in s.queues && p !in s.sent && p !in s.got && !Held(s.tables, ReadEnd(p))
               && !Held(s.tables, WriteEnd(p))
      requires Now() == With(Opened(s), t, rd, Entry(Some(ReadEnd(p)), true, false, false))
      modifies this
      ensures Valid() && Now() == s
    {
      hide Ok, Held, Meaning, With, Opened;
      Undone(s, t, rd, Entry(Some(ReadEnd(p)), true, false, false));
      SameTables(C());
      Erase(t, rd);
      SameTables(C());
      DropPipe(p);
    }

    /** make_pipe(): zero and the two descriptors, or an error and no change. */
    method MakePipe(t: nat) returns (r: int, rd: int, wr: int)
      requires Valid() && t in tables
      modifies this
      ensures Valid() && old(AfterMakePipe(Now(), t)) == (Reply(Now(), r, []), rd, wr)
    {
      hide Ok, Held, Meaning, Lowest;
      ghost var s := Now();
      SameTables(C());
      rd := AllocSlot(t);
      if rd < 0 {
        return MFILE, -1, -1;
      }
      LowestFree(tables[t]);
      var p := NewPipe();
      SameTables(C());
      PutFirst(t, rd, Entry(Some(ReadEnd(p)), true, false, false));
      SameTables(C());
      wr := AllocSlot(t);
      if wr < 0 {
        Withdraw(s, t, rd, p);
        return MFILE, -1, -1;
      }
      LowestFree(tables[t]);
      PutFirst(t, wr, Entry(Some(WriteEnd(p)), false, true, false));
      r := 0;
    }

    method Close(t: nat, fd: int) returns (r: int)
      requires Valid() && t in tables
      modifies `tables, `refs, `pipes
      ensures Valid() && old(AfterClose(Now(), t, fd)) == Reply(Now(), r, [])
    {
      if fd !in tables[t] {
        return BADF;
      }
      Erase(t, fd);
      r := 0;
    }

    method Dup(t: nat, fd: int, to: int) returns (r: int)
      requires Valid() && t in tables
      modifies `tables, `refs, `pipes
      ensures Valid() && old(AfterDup(Now(), t, fd, to)) == Reply(Now(), r, [])
    {
      hide Ok;
      if fd !in tables[t] {
        return BADF;
      }
      var target := to;
      if target < 0 {
        target := AllocSlot(t);
        if target < 0 {
          return MFILE;
        }
      } else if target == fd {
        return target;
      }
      var copy := tables[t][fd].(cloexec := false);
      ghost var files := tables[t];
      if target in tables[t] {
        Erase(t, target);
      }
      EntryShared(C(), t, fd);
      Put(t, target, copy);
      assert (files - {target})[target := copy] == files[target := copy];
      r := target;
    }

    /** install(): a copy of another descriptor, as a child inherits its standard handles. */
    method Install(t: nat, fd: int, from: nat, sfd: int)
      requires Valid() && t in tables && from in tables && sfd in tables[from] && (from != t || sfd != fd)
      modifies `tables, `refs, `pipes
      ensures Valid() && Now() == AfterInstall(old(Now()), t, fd, from, sfd)
    {
      hide Ok;
      ghost var files := tables[t];
      var copy := tables[from][sfd].(cloexec := false);
      if fd in tables[t] {
        Erase(t, fd);
      }
      EntryShared(C(), from, sfd);
      Put(t, fd, copy);
      assert (files - {fd})[fd := copy] == files[fd := copy];
    }

    /** clone(): a second table with every descriptor of the first, for fork(). */
    method Clone(t: nat, child: nat)
      requires Valid() && t in tables && child !in tables
      modifies `tables, `refs
      ensures Valid() && Now() == AfterClone(old(Now()), t, child)
    {
      hide Ok;
      ghost var before := tables;
      NewTableOk(C(), child);
      var files := tables[t];
      tables := tables[child := map[]];
      var todo := files.Keys;
      assert files - todo == map[];
      while todo != {}
        invariant todo <= files.Keys && Valid()
        invariant tables == before[child := files - todo]
      {
        HasOne(todo);
        var fd :| fd in todo;
        EntryShared(C(), t, fd);
        Put(child, fd, files[fd]);
        assert (files - todo)[fd := files[fd]] == files - (todo - {fd});
        todo := todo - {fd};
      }
      assert files - {} == files;
    }

    /** close_cloexec() */
    method CloseCloexec(t: nat)
      requires Valid() && t in tables
      modifies `tables, `refs, `pipes
      ensures Valid() && Now() == AfterCloexec(old(Now()), t)
    {
      hide Ok;
      ghost var s := Now();
      var files := tables[t];
      var doomed := set fd | fd in files && files[fd].cloexec;
      ghost var all := doomed;
      assert files - {} == files;
      while doomed != {}
        invariant doomed <= all && Valid() && t in tables && tables[t] == files - (all - doomed)
        invariant Now() == s.(tables := s.tables[t := tables[t]])
      {
        HasOne(doomed);
        var fd :| fd in doomed;
        Erase(t, fd);
        assert files - (all - doomed) - {fd} == files - (all - (doomed - {fd}));
        doomed := doomed - {fd};
      }
      assert files - (all - {}) == map fd | fd in files && !files[fd].cloexec :: files[fd];
    }

    /** Marks a descriptor close-on-exec, as pipe2() does to both of its own. */
    method MarkCloexec(t: nat, fd: int)
      requires Valid() && t in tables && fd in tables[t]
      modifies `tables
      ensures Valid() && Now() == AfterMark(old(Now()), t, fd)
    {
      hide Ok;
      MarkOk(C(), t, fd);
      tables := tables[t := tables[t][fd := tables[t][fd].(cloexec := true)]];
    }

    /** A table as FileTable() makes it. */
    method Start(t: nat)
      requires Valid() && t !in tables
      modifies `tables
      ensures Valid() && Now() == AfterStart(old(Now()), t)
    {
      hide Ok;
      StartOk(C(), t);
      tables := tables[t := Standard()];
    }

    /** A table is destroyed with its process. */
    method Exit(t: nat)
      requires Valid() && t in tables
      modifies `tables, `refs, `pipes
      ensures Valid() && Now() == AfterExit(old(Now()), t)
    {
      hide Ok, Meaning;
      SameTables(C());
      ghost var s := Now();
      EraseAll(t);
      SameTables(C());
      GoneTableOk(C(), t);
      GoneMeaning(C(), t);
      tables := tables - {t};
      assert s.tables[t := map[]] - {t} == s.tables - {t};
    }

    method EraseAll(t: nat)
      requires Valid() && t in tables
      modifies `tables, `refs, `pipes
      ensures Valid() && t in tables && Now() == old(Now()).(tables := old(tables)[t := map[]])
    {
      hide Ok;
      ghost var s := Now();
      var files := tables[t];
      var todo := files.Keys;
      ghost var gone: set<int> := {};
      assert files - {} == files;
      while todo != {}
        invariant todo <= files.Keys && gone == files.Keys - todo && Valid() && t in tables && tables[t] == files - gone
        invariant Now() == s.(tables := s.tables[t := tables[t]])
      {
        HasOne(todo);
        var fd :| fd in todo;
        Erase(t, fd);
        assert files - gone - {fd} == files - (gone + {fd});
        gone := gone + {fd};
        todo := todo - {fd};
      }
      assert files - gone == map[];
    }

    /** read() from a pipe. */
    method Read(t: nat, fd: int, len: nat) returns (r: int, data: seq<byte>)
      requires Valid() && t in tables && (fd in tables[t] && tables[t][fd].readable ==> tables[t][fd].end.Some?)
      modifies `pipes, `got
      ensures Valid() && (fd in tables[t] && tables[t][fd].readable ==> OnPipe(old(Now()), tables[t][fd]))
      ensures old(Now()).tables == tables && Reply(Now(), r, data) == AfterRead(old(Now()), t, fd, len)
    {
      hide Ok, Held;
      if fd in tables[t] && tables[t][fd].readable {
        EndInUse(C(), t, fd);
        PipeKeys(C(), tables[t][fd].end.value.pipe);
      }
      if fd !in tables[t] || !tables[t][fd].readable {
        return BADF, [];
      }
      if len == 0 {
        return 0, [];
      }
      var p := tables[t][fd].end.value.pipe;
      CountsHolders(C(), p);
      if pipes[p].buffer == [] {
        return if pipes[p].writers > 0 then AGAIN else 0, [];
      }
      ghost var c, q := C(), pipes[p].buffer;
      var n := if len < |pipes[p].buffer| then len else |pipes[p].buffer|;
      data := [];
      while |data| < n
        invariant got == c.got && |data| <= n && data == q[..|data|]
                  && pipes == c.pipes[p := c.pipes[p].(buffer := q[|data|..])]
      {
        data := data + [pipes[p].buffer[0]];
        pipes := pipes[p := pipes[p].(buffer := pipes[p].buffer[1..])];
      }
      TakenOk(c, p, n);
      got := got[p := got[p] + data];
      r := n;
    }

    /** write() to a pipe. */
    method Write(t: nat, fd: int, src: seq<byte>) returns (r: int)
      requires Valid() && t in tables && (fd in tables[t] && tables[t][fd].writable ==> tables[t][fd].end.Some?)
      modifies `pipes, `sent
      ensures Valid() && (fd in tables[t] && tables[t][fd].writable ==> OnPipe(old(Now()), tables[t][fd]))
      ensures old(Now()).tables == tables && Reply(Now(), r, []) == AfterWrite(old(Now()), t, fd, src)
    {
      hide Ok, Held;
      if fd in tables[t] && tables[t][fd].writable {
        EndInUse(C(), t, fd);
        PipeKeys(C(), tables[t][fd].end.value.pipe);
      }
      if fd !in tables[t] || !tables[t][fd].writable {
        return BADF;
      }
      if src == [] {
        return 0;
      }
      var p := tables[t][fd].end.value.pipe;
      CountsHolders(C(), p);
      if pipes[p].readers <= 0 {
        return PIPE;
      }
      SentOk(C(), p, src);
      pipes := pipes[p := pipes[p].(buffer := pipes[p].buffer + src)];
      sent := sent[p := sent[p] + src];
      r := |src|;
    }
  }

  lemma GoneMeaning(c: Core, t: nat)
    ensures Meaning(c.(tables := c.tables - {t})) == Meaning(c).(tables := c.tables - {t})
  {
  }

  lemma HasOne(s: set<int>)
    requires s != {}
    ensures exists x :: x in s
  {
    assert (forall x :: x !in s) ==> s == {};
  }

  lemma PipeKeys(c: Core, p: nat)
    requires Ok(c) && p in c.pipes
    ensures p in c.sent && p in c.got
  {
    assert PipeOk(c, p);
  }

  lemma NewTableOk(c: Core, t: nat)
    requires Ok(c) && t !in c.tables
    ensures Ok(c.(tables := c.tables[t := map[]]))
  {
    HoldersFresh(c.tables, t);
    hide Holders;
    var d := c.(tables := c.tables[t := map[]]);
    forall x ensures EndOk(d, x) {
      assert EndOk(c, x);
    }
    forall q ensures PipeOk(d, q) {
      assert PipeOk(c, q);
    }
  }

  lemma MarkOk(c: Core, t: nat, fd: int)
    requires Ok(c) && t in c.tables && fd in c.tables[t]
    ensures Ok(c.(tables := c.tables[t := c.tables[t][fd := c.tables[t][fd].(cloexec := true)]]))
  {
    var d := c.(tables := c.tables[t := c.tables[t][fd := c.tables[t][fd].(cloexec := true)]]);
    forall x ensures EndOk(d, x) {
      assert EndOk(c, x);
      assert Holders(d.tables, x) == Holders(c.tables, x);
    }
    forall q ensures PipeOk(d, q) {
      assert PipeOk(c, q);
    }
  }

  lemma StartOk(c: Core, t: nat)
    requires Ok(c) && t !in c.tables
    ensures Ok(c.(tables := c.tables[t := Standard()]))
  {
    var d := c.(tables := c.tables[t := Standard()]);
    forall x ensures EndOk(d, x) {
      assert EndOk(c, x);
      assert Holders(d.tables, x) == Holders(c.tables, x);
    }
    forall q ensures PipeOk(d, q) {
      assert PipeOk(c, q);
    }
  }

  lemma GoneTableOk(c: Core, t: nat)
    requires Ok(c) && t in c.tables && c.tables[t] == map[]
    ensures Ok(c.(tables := c.tables - {t}))
  {
    HoldersGone(c.tables, t);
    hide Holders;
    var d := c.(tables := c.tables - {t});
    forall x ensures EndOk(d, x) {
      assert EndOk(c, x);
    }
    forall q ensures PipeOk(d, q) {
      assert PipeOk(c, q);
    }
  }

  lemma EntryShared(c: Core, t: nat, fd: int)
    requires Ok(c) && t in c.tables && fd in c.tables[t]
    ensures EntryOk(c.tables[t][fd]) && (c.tables[t][fd].end.Some? ==> c.tables[t][fd].end.value in c.refs)
  {
    if c.tables[t][fd].end.Some? {
      EndInUse(c, t, fd);
    }
  }

  /** Taking back what was just added leaves what there was. */
  lemma Undone(s: System, t: nat, fd: int, e: Entry)
    requires t in s.tables && fd !in s.tables[t] && s.next !in s.queues && s.next !in s.sent && s.next !in s.got
    ensures var w := With(Opened(s), t, fd, e);
            t in w.tables && fd in w.tables[t] && w.(tables := w.tables[t := w.tables[t] - {fd}]) == Opened(s)
    ensures var o := Opened(s);
            && o.tables == s.tables && o.next == s.next + 1 && s.next in o.queues.Keys
            && System(s.tables, o.queues - {s.next}, s.next, o.sent - {s.next}, o.got - {s.next}) == s
  {
    assert s.tables[t][fd := e] - {fd} == s.tables[t];
    assert s.queues[s.next := []] - {s.next} == s.queues;
    assert s.sent[s.next := []] - {s.next} == s.sent;
    assert s.got[s.next := []] - {s.next} == s.got;
  }

  lemma SameTables(c: Core)
    ensures Meaning(c).tables == c.tables && Meaning(c).next == c.next && Meaning(c).queues.Keys == c.pipes.Keys
    ensures Meaning(c).sent == c.sent && Meaning(c).got == c.got
  {
  }

  lemma LowestFree(files: Files)
    ensures Lowest(files, 3) >= 0 ==> Lowest(files, 3) !in files
  {
  }

  // ---- whole runs -------------------------------------------------------------------------------------------

  datatype Op =
    | DoMakePipe(t: nat)
    | DoClose(t: nat, fd: int)
    | DoDup(t: nat, fd: int, to: int)
    | DoInstall(t: nat, fd: int, from: nat, sfd: int)
    | DoClone(t: nat, child: nat)
    | DoCloexec(t: nat)
    | DoMark(t: nat, fd: int)
    | DoStart(t: nat)
    | DoExit(t: nat)
    | DoRead(t: nat, fd: int, len: nat)
    | DoWrite(t: nat, fd: int, src: seq<byte>)

  /** The tables an operation names exist, and it does not reach a host stream. */
  predicate Possible(s: System, op: Op)
  {
    && (if op.DoStart? then op.t !in s.tables else op.t in s.tables)
    && (op.DoMark? ==> op.fd in s.tables[op.t])
    && (op.DoInstall? ==> op.from in s.tables && op.sfd in s.tables[op.from] && (op.from != op.t || op.sfd != op.fd))
    && (op.DoClone? ==> op.child !in s.tables)
    && (op.DoRead? && op.fd in s.tables[op.t] && s.tables[op.t][op.fd].readable ==> OnPipe(s, s.tables[op.t][op.fd]))
    && (op.DoWrite? && op.fd in s.tables[op.t] && s.tables[op.t][op.fd].writable ==> OnPipe(s, s.tables[op.t][op.fd]))
  }

  function Step(s: System, op: Op): System
    requires Possible(s, op)
  {
    match op
    case DoMakePipe(t) => AfterMakePipe(s, t).0.s
    case DoClose(t, fd) => AfterClose(s, t, fd).s
    case DoDup(t, fd, to) => AfterDup(s, t, fd, to).s
    case DoInstall(t, fd, from, sfd) => AfterInstall(s, t, fd, from, sfd)
    case DoClone(t, child) => AfterClone(s, t, child)
    case DoCloexec(t) => AfterCloexec(s, t)
    case DoMark(t, fd) => AfterMark(s, t, fd)
    case DoStart(t) => AfterStart(s, t)
    case DoExit(t) => AfterExit(s, t)
    case DoRead(t, fd, len) => AfterRead(s, t, fd, len).s
    case DoWrite(t, fd, src) => AfterWrite(s, t, fd, src).s
  }

  /** A run, as the systems it passes through. */
  ghost predicate Trace(ss: seq<System>, ops: seq<Op>)
  {
    |ss| == |ops| + 1 && forall i | 0 <= i < |ops| :: Possible(ss[i], ops[i]) && ss[i + 1] == Step(ss[i], ops[i])
  }

  /** A pipe's queue is what was sent and not yet received. */
  predicate QueueOk(s: System, p: nat)
  {
    (p in s.queues <==> p in s.sent) && (p in s.queues <==> p in s.got)
    && (p in s.queues ==> p < s.next && s.sent[p] == s.got[p] + s.queues[p])
  }

  /** Nothing that was sent or received is forgotten. */
  predicate Grew(s: System, n: System, p: nat)
  {
    p in s.queues && p in s.sent && p in s.got ==>
      p in n.queues && p in n.sent && p in n.got && s.sent[p] <= n.sent[p] && s.got[p] <= n.got[p]
  }

  /** Descriptors do what their ends can, the pipes they are for exist, and so do their queues. */
  ghost predicate Sane(s: System)
  {
    EntriesOk(s.tables) && (forall t, fd, e :: Holds(s.tables, t, fd, e) ==> e.pipe in s.queues)
      && forall p :: QueueOk(s, p)
  }

  lemma StepSane(s: System, op: Op)
    requires Sane(s) && Possible(s, op)
    ensures Sane(Step(s, op)) && s.next <= Step(s, op).next && forall p :: Grew(s, Step(s, op), p)
  {
    hide Step, EntriesOk, Holds, QueueOk, Grew;
    StepEntries(s, op);
    forall p: nat ensures QueueOk(Step(s, op), p) && Grew(s, Step(s, op), p) {
      StepQueue(s, op, p);
    }
    StepQueue(s, op, 0);
    forall t, fd, e | Holds(Step(s, op).tables, t, fd, e) ensures e.pipe in Step(s, op).queues {
      StepHolds(s, op, t, fd, e);
    }
  }

  lemma StepQueue(s: System, op: Op, p: nat)
    requires Possible(s, op) && QueueOk(s, p) && QueueOk(s, s.next)
    ensures QueueOk(Step(s, op), p) && Grew(s, Step(s, op), p) && s.next <= Step(s, op).next
            && s.queues.Keys <= Step(s, op).queues.Keys
  {
    hide Lowest, Held, EntriesOk, Holds;
    match op
    case DoWrite(t, fd, src) => SendQueue(s, t, fd, src, p);
    case DoRead(t, fd, len) => TakeQueue(s, t, fd, len, p);
    case _ =>
  }

  lemma SendQueue(s: System, t: nat, fd: int, src: seq<byte>, p: nat)
    requires Possible(s, DoWrite(t, fd, src)) && QueueOk(s, p)
    ensures QueueOk(AfterWrite(s, t, fd, src).s, p) && Grew(s, AfterWrite(s, t, fd, src).s, p)
  {
    hide Held;
  }

  lemma TakeQueue(s: System, t: nat, fd: int, len: nat, p: nat)
    requires Possible(s, DoRead(t, fd, len)) && QueueOk(s, p)
    ensures QueueOk(AfterRead(s, t, fd, len).s, p) && Grew(s, AfterRead(s, t, fd, len).s, p)
  {
    hide Held;
    if p in s.queues {
      var q := s.queues[p];
      var n := if len < |q| then len else |q|;
      assert s.got[p] + q[..n] + q[n..] == s.got[p] + q;
    }
  }

  lemma StepEntries(s: System, op: Op)
    requires EntriesOk(s.tables) && Possible(s, op)
    ensures EntriesOk(Step(s, op).tables)
  {
    hide Lowest, Held;
  }

  lemma StepHolds(s: System, op: Op, t: nat, fd: int, e: End)
    requires Sane(s) && Possible(s, op) && Holds(Step(s, op).tables, t, fd, e)
    ensures e.pipe in Step(s, op).queues
  {
    hide Step, EntriesOk, Holds;
    StepQueue(s, op, 0);
    if op.DoMakePipe? && e.pipe == s.next {
      NewQueue(s, op.t, t, fd, e);
    } else {
      Inherited(s, op, t, fd, e);
    }
  }

  lemma NewQueue(s: System, u: nat, t: nat, fd: int, e: End)
    requires Sane(s) && u in s.tables && e.pipe == s.next && Holds(Step(s, DoMakePipe(u)).tables, t, fd, e)
    ensures e.pipe in Step(s, DoMakePipe(u)).queues
  {
    hide Lowest, EntriesOk;
  }

  /** Except by making a pipe, a table can only come to hold an end that some table held. */
  lemma Inherited(s: System, op: Op, t: nat, fd: int, e: End)
    requires Possible(s, op) && Holds(Step(s, op).tables, t, fd, e) && (op.DoMakePipe? ==> e.pipe != s.next)
    ensures exists t', fd' :: Holds(s.tables, t', fd', e)
  {
    hide Lowest, Held;
    if Holds(s.tables, t, fd, e) {
    } else if op.DoDup? {
      assert Holds(s.tables, op.t, op.fd, e);
    } else if op.DoInstall? {
      assert Holds(s.tables, op.from, op.sfd, e);
    } else if op.DoClone? {
      assert Holds(s.tables, op.t, fd, e);
    }
  }

  /** Over any run, what has come out of a pipe followed by what is still in it is what went in. */
  lemma {:induction false} FirstInFirstOut(ss: seq<System>, ops: seq<Op>, i: nat, j: nat)
    requires Trace(ss, ops) && Sane(ss[0]) && i <= j <= |ops|
    ensures Sane(ss[i]) && Sane(ss[j]) && ss[i].next <= ss[j].next
    ensures forall p :: Grew(ss[i], ss[j], p)
    decreases j
  {
    hide Sane, Step, Possible, QueueOk, Grew;
    if j == 0 {
      forall p: nat ensures Grew(ss[0], ss[0], p) {
        GrewOn(ss[0], ss[0], ss[0], p);
      }
    } else {
      FirstInFirstOut(ss, ops, if i < j then i else j - 1, j - 1);
      StepSane(ss[j - 1], ops[j - 1]);
      forall p: nat ensures Grew(ss[i], ss[j], p) {
        GrewOn(ss[i], ss[if i < j then j - 1 else j], ss[j], p);
      }
    }
  }

  lemma GrewOn(a: System, b: System, c: System, p: nat)
    ensures Grew(a, a, p) && (Grew(a, b, p) && Grew(b, c, p) ==> Grew(a, c, p))
  {
  }

  lemma SaneKeys(s: System)
    requires Sane(s)
    ensures forall p | p in s.queues :: p in s.sent && p in s.got && p < s.next
  {
    forall p | p in s.queues ensures p in s.sent && p in s.got && p < s.next {
      assert QueueOk(s, p);
    }
  }

  /** An end that no table holds is never held again. */
  lemma {:induction false} NeverHeldAgain(ss: seq<System>, ops: seq<Op>, i: nat, j: nat, e: End)
    requires Trace(ss, ops) && Sane(ss[0]) && i <= j <= |ops| && e.pipe in ss[i].queues
    requires !Held(ss[i].tables, e)
    ensures !Held(ss[j].tables, e)
    decreases j
  {
    hide Sane, Step, Possible, Held, Holders;
    if i < j {
      NeverHeldAgain(ss, ops, i, j - 1, e);
      FirstInFirstOut(ss, ops, i, j - 1);
      SaneKeys(ss[i]);
      HeldIs(ss[j].tables, e);
      HeldIs(ss[j - 1].tables, e);
      if t, fd :| Holds(ss[j].tables, t, fd, e) {
        Inherited(ss[j - 1], ops[j - 1], t, fd, e);
      }
    }
  }

  /** End of file is final: once a read finds the queue empty and no writer, so does every later one. */
  lemma {:induction false} EndOfFileStays(ss: seq<System>, ops: seq<Op>, i: nat, j: nat, p: nat)
    requires Trace(ss, ops) && Sane(ss[0]) && i <= j <= |ops| && p in ss[i].queues
    requires ss[i].queues[p] == [] && !Held(ss[i].tables, WriteEnd(p))
    ensures p in ss[j].queues && ss[j].queues[p] == [] && !Held(ss[j].tables, WriteEnd(p))
    decreases j
  {
    hide Sane, Held, Holders, Step;
    NeverHeldAgain(ss, ops, i, j, WriteEnd(p));
    if i < j {
      EndOfFileStays(ss, ops, i, j - 1, p);
      FirstInFirstOut(ss, ops, i, j - 1);
      StillEmpty(ss[j - 1], ops[j - 1], p);
    }
  }

  lemma StillEmpty(s: System, op: Op, p: nat)
    requires Sane(s) && Possible(s, op) && p in s.queues && s.queues[p] == [] && !Held(s.tables, WriteEnd(p))
    ensures p in Step(s, op).queues && Step(s, op).queues[p] == []
  {
    hide Lowest, Held, Holders;
    HeldIs(s.tables, WriteEnd(p));
    if op.DoWrite? {
      assert !Holds(s.tables, op.t, op.fd, WriteEnd(p));
    }
  }
}
