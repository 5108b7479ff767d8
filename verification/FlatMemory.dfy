/** Laws about the bytes of a flat memory: what a store changes and what a read sees. */
module FlatMemory {
  import opened Bytes
  import opened AddressSpace

  /** Reach stops at the first absent byte. */
  lemma {:induction false} ReachIs(f: Flat, addr: nat, len: nat)
    ensures forall x: nat | addr <= x < addr + Reach(f, addr, len) :: x / 4096 in f
    ensures Reach(f, addr, len) < len ==> (addr + Reach(f, addr, len)) / 4096 !in f
    decreases len
  {
    if len != 0 && addr / 4096 in f {
      var n := if 4096 - addr % 4096 > len then len else 4096 - addr % 4096;
      ReachIs(f, addr + n, len - n);
      forall x: nat | addr <= x < addr + Reach(f, addr, len) ensures x / 4096 in f {
        if x < addr + n {
          assert x / 4096 == addr / 4096;
        }
      }
    }
  }

  lemma StoredAt(f: Flat, a: nat, src: seq<byte>, x: nat)
    ensures x / 4096 in Stored(f, a, src) <==> x / 4096 in f
    ensures x / 4096 in f ==> At(Stored(f, a, src), x) == if a <= x < a + |src| then src[x - a] else At(f, x)
  {
    var p, i := x / 4096, x % 4096;
    assert p * 4096 + i == x;
    if p in f {
      assert Patched(f[p], p, a, src)[i] == if a <= x < a + |src| then src[x - a] else f[p][i];
    }
  }

  /** Two memories with the same pages and the same byte everywhere are one. */
  lemma SameBytes(f: Flat, g: Flat)
    requires f.Keys == g.Keys && forall x: nat | x / 4096 in f :: At(f, x) == At(g, x)
    ensures f == g
  {
    forall p | p in f ensures f[p] == g[p] {
      forall i | 0 <= i < 4096 ensures f[p][i] == g[p][i] {
        assert (p * 4096 + i) / 4096 == p && (p * 4096 + i) % 4096 == i;
        assert At(f, p * 4096 + i) == At(g, p * 4096 + i);
      }
    }
  }

  lemma StoredNone(f: Flat, a: nat)
    ensures Stored(f, a, []) == f
  {
    forall x: nat | x / 4096 in f ensures At(Stored(f, a, []), x) == At(f, x) {
      StoredAt(f, a, [], x);
    }
    SameBytes(Stored(f, a, []), f);
  }

  lemma StoredBoth(f: Flat, a: nat, s: seq<byte>, t: seq<byte>)
    ensures Stored(Stored(f, a, s), a + |s|, t) == Stored(f, a, s + t)
    ensures Stored(Stored(f, a + |s|, t), a, s) == Stored(f, a, s + t)
  {
    var w := Stored(f, a, s + t);
    var u, v := Stored(Stored(f, a, s), a + |s|, t), Stored(Stored(f, a + |s|, t), a, s);
    forall x: nat | x / 4096 in f ensures At(u, x) == At(w, x) && At(v, x) == At(w, x) {
      StoredAt(f, a, s + t, x);
      StoredAt(f, a, s, x);
      StoredAt(f, a + |s|, t, x);
      StoredAt(Stored(f, a, s), a + |s|, t, x);
      StoredAt(Stored(f, a + |s|, t), a, s, x);
    }
    SameBytes(u, w);
    SameBytes(v, w);
  }

  /** What is mapped in full is mapped in part, and a store maps and unmaps nothing. */
  lemma MappedParts(f: Flat, a: nat, n: nat, m: nat, at: nat, src: seq<byte>)
    requires AllMapped(f, a, n + m)
    ensures AllMapped(f, a, n) && AllMapped(f, a + n, m)
    ensures AllMapped(Stored(f, at, src), a, n + m) && AllMapped(Stored(f, at, src), a, n)
            && AllMapped(Stored(f, at, src), a + n, m)
  {
    assert forall p | OnPage(p, a, n) || OnPage(p, a + n, m) :: OnPage(p, a, n + m);
    assert Stored(f, at, src).Keys == f.Keys;
  }

  lemma LoadedIs(f: Flat, a: nat, n: nat, i: nat)
    requires AllMapped(f, a, n) && i < n
    ensures (a + i) / 4096 in f && Loaded(f, a, n)[i] == At(f, a + i)
  {
    assert (a + i) / 4096 in PagesOf(a, n);
  }

  /** Reading a range is reading its parts; a store elsewhere is not seen. */
  lemma LoadedParts(f: Flat, a: nat, n: nat, m: nat)
    requires AllMapped(f, a, n + m) && AllMapped(f, a, n) && AllMapped(f, a + n, m)
    ensures Loaded(f, a, n + m) == Loaded(f, a, n) + Loaded(f, a + n, m)
  {
    var l, r := Loaded(f, a, n + m), Loaded(f, a, n) + Loaded(f, a + n, m);
    forall i | 0 <= i < n + m ensures l[i] == r[i] {
      LoadedIs(f, a, n + m, i);
      if i < n {
        LoadedIs(f, a, n, i);
      } else {
        LoadedIs(f, a + n, m, i - n);
      }
    }
  }

  lemma LoadedApart(f: Flat, a: nat, n: nat, at: nat, src: seq<byte>)
    requires AllMapped(f, a, n) && AllMapped(Stored(f, at, src), a, n) && (at + |src| <= a || a + n <= at)
    ensures Loaded(Stored(f, at, src), a, n) == Loaded(f, a, n)
  {
    forall i | 0 <= i < n ensures Loaded(Stored(f, at, src), a, n)[i] == Loaded(f, a, n)[i] {
      LoadedIs(f, a, n, i);
      LoadedIs(Stored(f, at, src), a, n, i);
      StoredAt(f, at, src, a + i);
    }
  }

  lemma ReachAll(f: Flat, a: nat, n: nat)
    requires AllMapped(f, a, n)
    ensures Reach(f, a, n) == n
  {
    ReachIs(f, a, n);
    if Reach(f, a, n) < n {
      LoadedIs(f, a, n, Reach(f, a, n));
    }
  }
}
