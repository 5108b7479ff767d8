/** The wildcard matcher that backtracks to its last star only, against what * and ? mean. */
module Wildcard {
  /** ASCII case folding. */
  function FoldCase(c: char): char { if 'A' <= c <= 'Z' then (c as int + 32) as char else c }

  /** One pattern character, other than a star, against one character of a name. */
  predicate Fits(p: char, c: char) { p == '?' || FoldCase(p) == FoldCase(c) }

  /** Two characters fold alike when they are the same, or the same letter of the alphabet in two cases. */
  lemma FoldsLetters(c: char, d: char)
    ensures FoldCase(c) == FoldCase(d) <==>
            c == d || ('A' <= c <= 'Z' && d as int == c as int + 32) || ('A' <= d <= 'Z' && c as int == d as int + 32)
  {
  }

  /** What a pattern means: a star stands for any run of characters, a question mark for any one. */
  predicate Glob(name: string, pat: string)
    decreases |pat|, |name|
  {
    if pat == [] then name == []
    else if pat[0] == '*' then Glob(name, pat[1..]) || (name != [] && Glob(name[1..], pat))
    else name != [] && Fits(pat[0], name[0]) && Glob(name[1..], pat[1..])
  }

  /** The matcher from a given point: star is one more than the last star's place, 0 for none. */
  predicate Search(name: string, pat: string, n: nat, p: nat, star: nat, starN: nat)
    requires starN <= n <= |name| && star <= p <= |pat|
    decreases |name| - starN, |pat| - star, |name| - n
  {
    if n >= |name| then forall i | p <= i < |pat| :: pat[i] == '*'
    else if p < |pat| && Fits(pat[p], name[n]) then Search(name, pat, n + 1, p + 1, star, starN)
    else if p < |pat| && pat[p] == '*' then Search(name, pat, n, p + 1, p + 1, n)
    else if star != 0 then Search(name, pat, starN + 1, star, star, starN + 1)
    else false
  }

  /** matches() */
  predicate Matches(name: string, pat: string)
  {
    pat == "*" || pat == "*.*" || Search(name, pat, 0, 0, 0, 0)
  }

  /** Two patterns match every name, with a dot or without. */
  lemma EverythingMatches(name: string)
    ensures Matches(name, "*") && Matches(name, "*.*")
  {
  }

  method Match(name: string, pat: string) returns (r: bool)
    ensures r == Matches(name, pat)
  {
    if pat == "*" || pat == "*.*" {
      return true;
    }
    var n, p, star, starN := 0, 0, -1, 0;
    while n < |name|
      invariant 0 <= starN <= n <= |name| && -1 <= star < |pat| && star + 1 <= p <= |pat|
      invariant Search(name, pat, n, p, star + 1, starN) == Search(name, pat, 0, 0, 0, 0)
      decreases |name| - starN, |pat| - star, |name| - n
    {
      if p < |pat| && (pat[p] == '?' || FoldCase(pat[p]) == FoldCase(name[n])) {
        n := n + 1;
        p := p + 1;
      } else if p < |pat| && pat[p] == '*' {
        star := p;
        p := p + 1;
        starN := n;
      } else if star != -1 {
        p := star + 1;
        starN := starN + 1;
        n := starN;
      } else {
        return false;
      }
    }
    ghost var q := p;
    while p < |pat| && pat[p] == '*'
      invariant q <= p <= |pat| && forall i | q <= i < p :: pat[i] == '*'
    {
      p := p + 1;
    }
    r := p == |pat|;
  }

  // ---- what a star can absorb -----------------------------------------------------------------------

  /** A star then pat: some suffix matches pat. */
  lemma {:induction false} StarSuffix(name: string, pat: string)
    requires pat != [] && pat[0] == '*'
    ensures Glob(name, pat) <==> exists k :: 0 <= k <= |name| && Glob(name[k..], pat[1..])
    decreases |name|
  {
    assert name[0..] == name;
    if name != [] {
      StarSuffix(name[1..], pat);
      if Glob(name[1..], pat) {
        var k :| 0 <= k <= |name[1..]| && Glob(name[1..][k..], pat[1..]);
        assert name[1..][k..] == name[k + 1..];
      }
      if k :| 0 <= k <= |name| && Glob(name[k..], pat[1..]) {
        if k > 0 {
          assert name[1..][k - 1..] == name[k..];
        }
      }
    }
  }

  /** The segment of the pattern from a to b fits the name from n, character by character. */
  predicate Segment(name: string, pat: string, a: nat, b: nat, n: nat)
  {
    a <= b <= |pat| && n + (b - a) <= |name| &&
    forall i | a <= i < b :: pat[i] != '*' && Fits(pat[i], name[n + (i - a)])
  }

  predicate NoStar(pat: string, a: nat, b: nat) { a <= b <= |pat| && forall i | a <= i < b :: pat[i] != '*' }

  /** Matching a segment without stars fixes where it ends. */
  lemma {:induction false} SegmentGlob(name: string, pat: string, a: nat, b: nat, n: nat)
    requires NoStar(pat, a, b) && n <= |name|
    ensures Glob(name[n..], pat[a..]) <==> Segment(name, pat, a, b, n) && Glob(name[n + (b - a)..], pat[b..])
    decreases b - a
  {
    if a < b {
      assert pat[a..][1..] == pat[a + 1..];
      if n < |name| {
        assert name[n..][1..] == name[n + 1..];
        SegmentGlob(name, pat, a + 1, b, n + 1);
        assert Segment(name, pat, a, b, n) <==> Fits(pat[a], name[n]) && Segment(name, pat, a + 1, b, n + 1) by {
          SegmentCons(name, pat, a, b, n);
        }
      }
    }
  }

  lemma SegmentCons(name: string, pat: string, a: nat, b: nat, n: nat)
    requires NoStar(pat, a, b) && n < |name| && a < b
    ensures Segment(name, pat, a, b, n) <==> Fits(pat[a], name[n]) && Segment(name, pat, a + 1, b, n + 1)
  {
    if Fits(pat[a], name[n]) && Segment(name, pat, a + 1, b, n + 1) {
      forall i | a <= i < b ensures pat[i] != '*' && Fits(pat[i], name[n + (i - a)]) {
        assert i > a ==> Fits(pat[i], name[n + 1 + (i - (a + 1))]);
      }
    }
    if Segment(name, pat, a, b, n) {
      assert Fits(pat[a], name[n + (a - a)]);
      forall i | a + 1 <= i < b ensures Fits(pat[i], name[n + 1 + (i - (a + 1))]) {
        assert Fits(pat[i], name[n + (i - a)]);
      }
    }
  }

  /** Only stars match nothing. */
  lemma {:induction false} EmptyGlob(pat: string)
    ensures Glob("", pat) <==> forall i | 0 <= i < |pat| :: pat[i] == '*'
  {
    if pat != [] {
      EmptyGlob(pat[1..]);
      assert forall i | 1 <= i < |pat| :: pat[i] == pat[1..][i - 1];
    }
  }

  /** Some suffix of the name, from place n on, matches the pattern after the last star. */
  predicate Later(name: string, pat: string, star: nat, n: nat)
    requires star <= |pat|
  {
    exists k :: n <= k <= |name| && Glob(name[k..], pat[star..])
  }

  /**
    With no star in the name, going back to the last star alone is enough: the search finds a match
    exactly when the pattern after that star matches some later suffix.
    */
  lemma {:induction false} SearchRight(name: string, pat: string, n: nat, p: nat, star: nat, starN: nat)
    requires starN <= n <= |name| && star <= p <= |pat| && '*' !in name
    requires n - starN == p - star && Segment(name, pat, star, p, starN)
    ensures star == 0 && starN == 0 ==> (Search(name, pat, n, p, star, starN) <==> Glob(name[n..], pat[p..]))
    ensures star != 0 ==> (Search(name, pat, n, p, star, starN) <==> Later(name, pat, star, starN))
    decreases |name| - starN, |pat| - star, |name| - n
  {
    hide Glob, Later, FoldCase;
    if n >= |name| {
      AtEnd(name, pat, n, p);
      if star != 0 {
        LaterHere(name, pat, n, p, star, starN);
      }
    } else if p < |pat| && Fits(pat[p], name[n]) {
      OneMore(name, pat, n, p);
      SearchRight(name, pat, n + 1, p + 1, star, starN);
    } else if p < |pat| && pat[p] == '*' {
      SearchRight(name, pat, n, p + 1, p + 1, n);
      StarLater(name, pat, n, p);
      if star != 0 {
        LaterStar(name, pat, n, p, star, starN);
      }
    } else {
      DeadEnd(name, pat, n, p);
      if star != 0 {
        SearchRight(name, pat, starN + 1, star, star, starN + 1);
        LaterNext(name, pat, n, p, star, starN);
      }
    }
  }

  lemma AtEnd(name: string, pat: string, n: nat, p: nat)
    requires n == |name| && p <= |pat|
    ensures Glob(name[n..], pat[p..]) <==> forall i | p <= i < |pat| :: pat[i] == '*'
  {
    assert name[n..] == "";
    EmptyGlob(pat[p..]);
    assert forall i | p <= i < |pat| :: pat[i] == pat[p..][i - p];
  }

  /** A character that fits is not a star, when the name has none. */
  lemma OneMore(name: string, pat: string, n: nat, p: nat)
    requires n < |name| && p < |pat| && Fits(pat[p], name[n]) && '*' !in name
    ensures pat[p] != '*' && (Glob(name[n..], pat[p..]) <==> Glob(name[n + 1..], pat[p + 1..]))
  {
    assert name[n] in name;
    assert name[n..][1..] == name[n + 1..] && pat[p..][1..] == pat[p + 1..];
  }

  lemma DeadEnd(name: string, pat: string, n: nat, p: nat)
    requires n < |name| && p <= |pat| && (p < |pat| ==> !Fits(pat[p], name[n]) && pat[p] != '*')
    ensures !Glob(name[n..], pat[p..])
  {
  }

  /** A suffix that fits the segment but dead-ends after it is no match. */
  lemma LaterNext(name: string, pat: string, n: nat, p: nat, star: nat, starN: nat)
    requires starN <= n < |name| && star <= p <= |pat| && n - starN == p - star && Segment(name, pat, star, p, starN)
    requires !Glob(name[n..], pat[p..])
    ensures Later(name, pat, star, starN) <==> Later(name, pat, star, starN + 1)
  {
    hide Glob;
    SegmentGlob(name, pat, star, p, starN);
  }

  /** A later suffix that fits the segment and ends no later is the suffix itself. */
  lemma LaterHere(name: string, pat: string, n: nat, p: nat, star: nat, starN: nat)
    requires starN <= n == |name| && star <= p <= |pat| && n - starN == p - star && Segment(name, pat, star, p, starN)
    ensures Later(name, pat, star, starN) <==> Glob(name[n..], pat[p..])
  {
    SegmentGlob(name, pat, star, p, starN);
    if k :| starN <= k <= |name| && Glob(name[k..], pat[star..]) {
      SegmentGlob(name, pat, star, p, k);
    }
  }

  lemma StarLater(name: string, pat: string, n: nat, p: nat)
    requires n <= |name| && p < |pat| && pat[p] == '*'
    ensures Glob(name[n..], pat[p..]) <==> Later(name, pat, p + 1, n)
  {
    StarSuffix(name[n..], pat[p..]);
    assert pat[p..][1..] == pat[p + 1..];
    forall k | 0 <= k <= |name| - n ensures name[n..][k..] == name[n + k..] {
    }
    if k :| n <= k <= |name| && Glob(name[k..], pat[p + 1..]) {
      assert name[n..][k - n..] == name[k..];
    }
  }

  /** What the earlier star could still absorb, the new star can. */
  lemma LaterStar(name: string, pat: string, n: nat, p: nat, star: nat, starN: nat)
    requires starN <= n <= |name| && star <= p < |pat| && pat[p] == '*' && n - starN == p - star
             && Segment(name, pat, star, p, starN)
    ensures Later(name, pat, star, starN) <==> Glob(name[n..], pat[p..])
  {
    SegmentGlob(name, pat, star, p, starN);
    if k :| starN <= k <= |name| && Glob(name[k..], pat[star..]) {
      SegmentGlob(name, pat, star, p, k);
      Absorb(name, pat[p..], n, k + (p - star));
    }
  }

  lemma {:induction false} Absorb(name: string, pat: string, n: nat, m: nat)
    requires n <= m <= |name| && pat != [] && pat[0] == '*' && Glob(name[m..], pat)
    ensures Glob(name[n..], pat)
    decreases m - n
  {
    if n < m {
      Absorb(name, pat, n + 1, m);
      assert name[n..][1..] == name[n + 1..];
    }
  }

  /** Names without a star are matched as the pattern means, but for *.*, which matches them all. */
  lemma MatchesGlob(name: string, pat: string)
    requires '*' !in name && pat != "*.*"
    ensures Matches(name, pat) <==> Glob(name, pat)
  {
    assert name[0..] == name && pat[0..] == pat;
    if pat == "*" {
      StarSuffix(name, pat);
      assert name[|name|..] == "" && pat[1..] == "";
    } else {
      SearchRight(name, pat, 0, 0, 0, 0);
    }
  }

  // ---- names with a star ----------------------------------------------------------------------------

  /** The name up to a star of its own, that star, and as many question marks as characters were left. */
  function Trap(name: string, i: nat): (pat: string)
    requires i < |name|
    ensures |pat| == |name| + 1 && pat[|name|] == '?'
    ensures forall k | 0 <= k < |pat| :: pat[k] == if k < i then name[k] else if k == i then '*' else '?'
  {
    name[..i] + "*" + seq(|name| - i, _ => '?')
  }

  lemma {:induction false} TrapMissed(name: string, i: nat, n: nat)
    requires i < |name| && name[i] == '*' && n <= |name|
    ensures !Search(name, Trap(name, i), n, n, 0, 0)
    decreases |name| - n
  {
    if n < |name| {
      assert Fits(Trap(name, i)[n], name[n]);
      TrapMissed(name, i, n + 1);
    }
  }

  lemma TrapMeant(name: string, i: nat)
    requires i < |name| && name[i] == '*' && '*' !in name[..i]
    ensures Glob(name, Trap(name, i))
  {
    hide Glob, Trap, FoldCase;
    var pat := Trap(name, i);
    assert name[0..] == name && pat[0..] == pat;
    forall k | 0 <= k < i ensures pat[k] != '*' {
      assert name[..i][k] == name[k];
    }
    SegmentGlob(name, pat, 0, i, 0);
    SegmentGlob(name, pat, i + 1, |pat|, i);
    assert name[|name|..] == "" && pat[|pat|..] == "" && pat[i..][1..] == pat[i + 1..];
    NothingMatched();
    StarNothing(name[i..], pat[i..]);
  }

  lemma NothingMatched()
    ensures Glob("", "")
  {
  }

  lemma StarNothing(name: string, pat: string)
    requires pat != [] && pat[0] == '*' && Glob(name, pat[1..])
    ensures Glob(name, pat)
  {
  }

  lemma {:induction false} FirstStar(name: string) returns (i: nat)
    requires '*' in name
    ensures i < |name| && name[i] == '*' && '*' !in name[..i]
  {
    if name[0] == '*' {
      i := 0;
    } else {
      var j := FirstStar(name[1..]);
      i := j + 1;
      assert name[..i] == [name[0]] + name[1..][..j];
    }
  }

  /** A name is matched as every pattern but *.* means exactly when it has no star of its own. */
  lemma NamesExact(name: string)
    ensures (forall pat | pat != "*.*" :: Matches(name, pat) == Glob(name, pat)) <==> '*' !in name
  {
    if '*' in name {
      var i := FirstStar(name);
      TrapMissed(name, i, 0);
      TrapMeant(name, i);
      var pat := Trap(name, i);
      assert "*.*"[|"*.*"| - 1] == '*';
      assert pat != "*" && pat != "*.*" && Matches(name, pat) != Glob(name, pat);
    } else {
      forall pat | pat != "*.*" ensures Matches(name, pat) == Glob(name, pat) {
        MatchesGlob(name, pat);
      }
    }
  }
}
