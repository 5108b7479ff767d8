/** What each call on the heap answers, said of sizes, multiples and blocks alone. */
module HeapCalls {
  import opened Bytes
  import opened Heap

  /** The least multiple of 16 bytes that holds the request, and at least one byte. */
  predicate Rounded(need: nat, size: nat)
  {
    need % 16 == 0 && if size == 0 then need == 16 else size <= need < size + 16
  }

  lemma NeedRounded(size: u64, need: nat)
    requires Rounded(need, size) && size + 15 < 0x1_0000_0000_0000_0000
    ensures Need(size) == need
  {
  }

  /**
    malloc(): a free block that is large enough, the whole of it; or else the end of the heap, unless
    that would pass its limit.
    */
  lemma AllocAnswers(h: State, size: u64, need: u64, h': State, addr: u64)
    requires AllocStep(h, size, h', addr) && Rounded(need, size)
    requires size + 15 < 0x1_0000_0000_0000_0000 && h.next + need < 0x1_0000_0000_0000_0000
    ensures if exists a :: a in h.blocks && h.blocks[a].free && h.blocks[a].size >= need then
              addr in h.blocks && h.blocks[addr].free && h.blocks[addr].size >= need
              && h' == h.(blocks := h.blocks[addr := Block(h.blocks[addr].size, false)])
            else if h.next + need > h.limit then addr == 0 && h' == h
            else addr == h.next && h' == h.(next := h.next + need, blocks := h.blocks[addr := Block(need, false)])
  {
    hide Rounded, Need;
    NeedRounded(size, need);
    if exists a :: a in h.blocks && h.blocks[a].free && h.blocks[a].size >= need {
      var a :| a in h.blocks && h.blocks[a].free && h.blocks[a].size >= need;
      assert Reusable(h, a, need);
    }
  }

  /** free(): the block of that address, if there is one, is free, and nothing else changes. */
  lemma FreeAnswers(h: State, addr: u64)
    ensures var n := FreeStep(h, addr);
            && n == h.(blocks := n.blocks) && n.blocks.Keys == h.blocks.Keys
            && forall b | b in h.blocks :: n.blocks[b].size == h.blocks[b].size
                                           && (n.blocks[b].free <==> h.blocks[b].free || b == addr)
  {
  }

  /**
    realloc() of an address: it stays where it is exactly when its block is large enough; otherwise
    it is refused and nothing changes, or it moves to a large enough block that was not in use, and
    the old one is free.
    */
  lemma ReallocAnswers(h: State, addr: u64, size: u64, h': State, r: u64)
    requires Sound(h) && addr != 0 && OpFits(h, DoRealloc(addr, size, r)) && OpStep(h, DoRealloc(addr, size, r), h')
    ensures var held := if addr in h.blocks then h.blocks[addr].size else 0;
            && (held >= size ==> r == addr)
            && (held >= size || r == 0 ==> h' == h)
            && (held < size && r != 0 ==>
                  && r in h'.blocks && (h'.blocks[r].free <==> r == addr) && h'.blocks[r].size >= size
                  && (r in h.blocks ==> h.blocks[r].free && h.blocks[r].size == h'.blocks[r].size)
                  && (addr in h.blocks ==> addr in h'.blocks && h'.blocks[addr].free)
                  && forall b | b in h.blocks && b != r && b != addr :: b in h'.blocks && h'.blocks[b] == h.blocks[b])
  {
    hide Sound, AllocFits, AllocStep;
    var held := if addr in h.blocks then h.blocks[addr].size else 0;
    if held < size {
      var m :| AllocStep(h, size, m, r) && h' == if r == 0 then m else FreeStep(m, addr);
      AllocKeeps(h, size, m, r);
    }
  }
}
