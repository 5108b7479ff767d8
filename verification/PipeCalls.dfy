/** What each call on a descriptor table answers and changes, said of tables, descriptors and queues alone. */
module PipeCalls {
  import opened Bytes
  import opened Wrappers
  import opened Pipes

  /** Some descriptor of some table is the end. */
  ghost predicate InUse(tables: map<nat, Files>, e: End)
  {
    exists t, fd :: t in tables && fd in tables[t] && tables[t][fd].end == Some(e)
  }

  /** Nothing but table t is different. */
  predicate OnlyTable(s: System, n: System, t: nat)
  {
    n == s.(tables := n.tables) && t in n.tables && n.tables.Keys == s.tables.Keys + {t}
    && forall u | u in s.tables && u != t :: n.tables[u] == s.tables[u]
  }

  /** Nothing but descriptor fd of table t is different, and that is e. */
  predicate OnlyEntry(s: System, n: System, t: nat, fd: int, e: Entry)
    requires t in s.tables
  {
    OnlyTable(s, n, t) && fd in n.tables[t] && n.tables[t][fd] == e && n.tables[t].Keys == s.tables[t].Keys + {fd}
    && forall k | k in s.tables[t] && k != fd :: n.tables[t][k] == s.tables[t][k]
  }

  lemma HeldExact(tables: map<nat, Files>, e: End)
    ensures Held(tables, e) <==> InUse(tables, e)
  {
    if t, fd :| t in tables && fd in tables[t] && tables[t][fd].end == Some(e) {
      assert (t, fd) in Holders(tables, e);
    }
    if Held(tables, e) {
      var h :| h in Holders(tables, e);
    }
  }

  /** The descriptor can be read, or written, and is an end of pipe p. */
  predicate Reads(s: System, t: nat, fd: int, p: nat)
  {
    t in s.tables && fd in s.tables[t] && s.tables[t][fd].readable && OnPipe(s, s.tables[t][fd])
    && s.tables[t][fd].end.value.pipe == p
  }

  predicate Writes(s: System, t: nat, fd: int, p: nat)
  {
    t in s.tables && fd in s.tables[t] && s.tables[t][fd].writable && OnPipe(s, s.tables[t][fd])
    && s.tables[t][fd].end.value.pipe == p
  }

  /**
    A read of at least one byte: end of file exactly when the queue is empty and no descriptor
    anywhere can write to it, try again exactly when it is empty and one can, and otherwise the
    front of the queue, which is what is left of it.
    */
  lemma ReadAnswers(s: System, t: nat, fd: int, len: nat, p: nat)
    requires Reads(s, t, fd, p) && len > 0
    ensures var o, q := AfterRead(s, t, fd, len), s.queues[p];
            && Step(s, DoRead(t, fd, len)) == o.s
            && (o.r == 0 <==> q == [] && !InUse(s.tables, WriteEnd(p)))
            && (o.r == -11 <==> q == [] && InUse(s.tables, WriteEnd(p)))
            && (q == [] ==> o.data == [] && o.s == s)
            && (q != [] ==> 0 < o.r && o.r == |o.data| <= len && (o.r == len || o.r == |q|) && p in o.s.queues
                            && p in o.s.got && o.data + o.s.queues[p] == q && o.s.got[p] == s.got[p] + o.data
                            && o.s == s.(queues := s.queues[p := o.s.queues[p]], got := s.got[p := o.s.got[p]]))
  {
    hide Held, InUse;
    HeldExact(s.tables, WriteEnd(p));
  }

  /** A read of nothing, or of what cannot be read. */
  lemma ReadRefused(s: System, t: nat, fd: int, len: nat)
    requires t in s.tables && (fd in s.tables[t] && s.tables[t][fd].readable ==> OnPipe(s, s.tables[t][fd]))
    ensures var o := AfterRead(s, t, fd, len);
            && (o.r == -9 <==> fd !in s.tables[t] || !s.tables[t][fd].readable)
            && (o.r == -9 || len == 0 ==> o.data == [] && o.s == s)
            && (o.r != -9 && len == 0 ==> o.r == 0)
  {
    hide Held;
  }

  /**
    A write of at least one byte: a broken pipe exactly when no descriptor anywhere can read it,
    and otherwise all of it joins the end of the queue.
    */
  lemma WriteAnswers(s: System, t: nat, fd: int, src: seq<byte>, p: nat)
    requires Writes(s, t, fd, p) && src != []
    ensures var o := AfterWrite(s, t, fd, src);
            && Step(s, DoWrite(t, fd, src)) == o.s
            && (o.r == -32 <==> !InUse(s.tables, ReadEnd(p)))
            && (o.r == -32 ==> o.s == s)
            && (o.r != -32 ==> o.r == |src| && p in o.s.queues && p in o.s.sent
                               && o.s.queues[p] == s.queues[p] + src && o.s.sent[p] == s.sent[p] + src
                               && o.s == s.(queues := s.queues[p := o.s.queues[p]], sent := s.sent[p := o.s.sent[p]]))
  {
    hide Held, InUse;
    HeldExact(s.tables, ReadEnd(p));
  }

  lemma WriteRefused(s: System, t: nat, fd: int, src: seq<byte>)
    requires t in s.tables && (fd in s.tables[t] && s.tables[t][fd].writable ==> OnPipe(s, s.tables[t][fd]))
    ensures var o := AfterWrite(s, t, fd, src);
            && (o.r == -9 <==> fd !in s.tables[t] || !s.tables[t][fd].writable)
            && (o.r == -9 || src == [] ==> o.s == s)
            && (o.r != -9 && src == [] ==> o.r == 0)
  {
    hide Held;
  }

  /** Descriptor r is the lowest free one from 3 up. */
  ghost predicate IsLowest(files: Files, r: int)
  {
    3 <= r < 4096 && r !in files && forall k | 3 <= k < r :: k in files
  }

  /**
    pipe(): when two descriptors are free, the lowest is the read end and the next the write end of
    a pipe that was not there before, with nothing in it; otherwise too many files, and no change.
    */
  lemma MakePipeAnswers(s: System, t: nat)
    requires t in s.tables
    ensures var (o, rd, wr) := AfterMakePipe(s, t); var p := s.next;
            && Step(s, DoMakePipe(t)) == o.s && (o.r == 0 || o.r == -24) && o.data == []
            && (o.r == 0 <==> exists i, j | 3 <= i < j < 4096 :: i !in s.tables[t] && j !in s.tables[t])
            && (o.r == -24 ==> o.s == s && rd == wr == -1)
            && (o.r == 0 ==>
                  IsLowest(s.tables[t], rd)
                  && IsLowest(s.tables[t][rd := Entry(Some(ReadEnd(p)), true, false, false)], wr)
                  && rd < wr && t in o.s.tables && o.s.next == p + 1
                  && o.s.tables == s.tables[t := s.tables[t][rd := Entry(Some(ReadEnd(p)), true, false, false)]
                                                            [wr := Entry(Some(WriteEnd(p)), false, true, false)]]
                  && o.s.queues == s.queues[p := []] && o.s.sent == s.sent[p := []] && o.s.got == s.got[p := []])
  {
    hide Lowest, IsLowest;
    var files := s.tables[t];
    var rd := Lowest(files, 3);
    LowestIs(files);
    if rd >= 0 {
      var more := files[rd := Entry(Some(ReadEnd(s.next)), true, false, false)];
      LowestIs(more);
      TwoFree(files, rd, more);
      assert With(Opened(s), t, rd, Entry(Some(ReadEnd(s.next)), true, false, false)).tables[t] == more;
    }
  }

  lemma TwoFree(files: Files, rd: int, more: Files)
    requires IsLowest(files, rd) && more.Keys == files.Keys + {rd}
    ensures (exists i, j | 3 <= i < j < 4096 :: i !in files && j !in files) <==>
            !forall k | 3 <= k < 4096 :: k in more
    ensures forall wr | IsLowest(more, wr) :: rd < wr
  {
    if k: int :| 3 <= k < 4096 && k !in more {
      assert rd < k && rd !in files && k !in files;
    }
  }

  lemma LowestIs(files: Files)
    ensures var r := Lowest(files, 3); r == -1 || IsLowest(files, r)
    ensures Lowest(files, 3) == -1 <==> forall k | 3 <= k < 4096 :: k in files
  {
  }

  /** close(): exactly the open descriptors can be closed, and only that one goes. */
  lemma CloseAnswers(s: System, t: nat, fd: int)
    requires t in s.tables
    ensures var o := AfterClose(s, t, fd);
            && Step(s, DoClose(t, fd)) == o.s
            && (o.r == -9 <==> fd !in s.tables[t]) && (o.r == 0 <==> fd in s.tables[t])
            && (o.r == -9 ==> o.s == s)
            && (o.r == 0 ==> OnlyTable(s, o.s, t) && o.s.tables[t].Keys == s.tables[t].Keys - {fd}
                             && forall k | k in s.tables[t] && k != fd :: o.s.tables[t][k] == s.tables[t][k])
  {
  }

  /**
    dup() and dup2(): a copy that stays open on exec, at the lowest free descriptor when none is
    named, replacing what was there when one is; a descriptor copied onto itself keeps its mark.
    */
  lemma DupAnswers(s: System, t: nat, fd: int, to: int)
    requires t in s.tables
    ensures var o := AfterDup(s, t, fd, to);
            && Step(s, DoDup(t, fd, to)) == o.s
            && (o.r == -9 <==> fd !in s.tables[t])
            && (o.r == -24 <==> fd in s.tables[t] && to < 0 && forall k | 3 <= k < 4096 :: k in s.tables[t])
            && (o.r < 0 ==> (o.r == -9 || o.r == -24) && o.s == s)
            && (o.r >= 0 ==> (if to < 0 then IsLowest(s.tables[t], o.r) else o.r == to))
            && (o.r >= 0 && o.r == fd ==> o.s == s)
            && (o.r >= 0 && o.r != fd ==>
                  OnlyEntry(s, o.s, t, o.r,
                            Entry(s.tables[t][fd].end, s.tables[t][fd].readable, s.tables[t][fd].writable, false)))
  {
    hide Lowest;
    LowestIs(s.tables[t]);
  }

  /** install(): the same for a descriptor of any table. */
  lemma InstallDoes(s: System, t: nat, fd: int, from: nat, sfd: int)
    requires Possible(s, DoInstall(t, fd, from, sfd))
    ensures var e := s.tables[from][sfd];
            OnlyEntry(s, Step(s, DoInstall(t, fd, from, sfd)), t, fd, Entry(e.end, e.readable, e.writable, false))
  {
  }

  /** fork(): the child's table has the parent's descriptors, marks included. */
  lemma CloneDoes(s: System, t: nat, child: nat)
    requires Possible(s, DoClone(t, child))
    ensures var n := Step(s, DoClone(t, child));
            OnlyTable(s, n, child) && t in n.tables && n.tables[child] == n.tables[t] == s.tables[t]
  {
  }

  /** exec: exactly the marked descriptors are closed. */
  lemma CloexecDoes(s: System, t: nat)
    requires t in s.tables
    ensures var n := Step(s, DoCloexec(t));
            && OnlyTable(s, n, t)
            && (forall fd :: fd in n.tables[t] <==> fd in s.tables[t] && !s.tables[t][fd].cloexec)
            && (forall fd | fd in n.tables[t] :: n.tables[t][fd] == s.tables[t][fd])
  {
  }

  /** Marking a descriptor changes its mark and nothing else. */
  lemma MarkDoes(s: System, t: nat, fd: int)
    requires t in s.tables && fd in s.tables[t]
    ensures var e := s.tables[t][fd];
            OnlyEntry(s, Step(s, DoMark(t, fd)), t, fd, Entry(e.end, e.readable, e.writable, true))
  {
  }

  /** A new table: 0 can be read, 1 and 2 written, and none of them is a pipe or goes on exec. */
  lemma StartDoes(s: System, t: nat)
    requires t !in s.tables
    ensures var n := Step(s, DoStart(t));
            && OnlyTable(s, n, t) && n.tables[t].Keys == {0, 1, 2}
            && (forall fd | fd in n.tables[t] :: n.tables[t][fd].end == None && !n.tables[t][fd].cloexec
                                                 && (n.tables[t][fd].readable <==> fd == 0)
                                                 && (n.tables[t][fd].writable <==> fd != 0))
  {
  }

  /** A process that ends takes its table along, and nothing else. */
  lemma ExitDoes(s: System, t: nat)
    requires t in s.tables
    ensures var n := Step(s, DoExit(t)); t !in n.tables && s == n.(tables := n.tables[t := s.tables[t]])
  {
    assert s.tables == (s.tables - {t})[t := s.tables[t]];
  }
}
