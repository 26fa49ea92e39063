/** For which masks the scan without backtracking finds every match. */
module MaskExactness {
  import opened Seqs
  import opened HostMasks

  // ---- matches, one character of the mask at a time -----------------------------------

  /** The first character of a mask takes `k` characters of the host and leaves a match. */
  ghost predicate Takes(c: char, rest: string, hs: string, k: nat) {
    k <= |hs| && PieceFits(c, hs[..k]) && Matches(rest, hs[k..])
  }

  lemma MatchesEmpty(hs: string)
    ensures Matches("", hs) <==> hs == ""
  {
    if hs == "" {
      assert Assigned("", [], "");
    }
  }

  lemma MatchesTaken(c: char, rest: string, hs: string, k: nat)
    requires Takes(c, rest, hs, k)
    ensures Matches([c] + rest, hs)
  {
    var pieces :| Assigned(rest, pieces, hs[k..]);
    var all := [hs[..k]] + pieces;
    assert all[1..] == pieces && hs[..k] + hs[k..] == hs;
    assert Assigned([c] + rest, all, hs);
  }

  lemma MatchesTakes(c: char, rest: string, hs: string) returns (k: nat)
    requires Matches([c] + rest, hs)
    ensures Takes(c, rest, hs, k)
  {
    var ms := [c] + rest;
    var pieces :| Assigned(ms, pieces, hs);
    k := |pieces[0]|;
    assert hs[..k] == pieces[0] && hs[k..] == Flatten(pieces[1..]);
    forall i | 0 <= i < |rest| ensures PieceFits(rest[i], pieces[1..][i]) {
      assert ms[i + 1] == rest[i];
    }
    assert Assigned(rest, pieces[1..], hs[k..]);
  }

  lemma MatchesLiteral(c: char, rest: string, hs: string)
    requires !IsWild(c) && Matches([c] + rest, hs)
    ensures hs != "" && hs[0] == c && Matches(rest, hs[1..])
  {
    var k := MatchesTakes(c, rest, hs);
    assert hs[..k] == [c];
  }

  lemma LiteralMatches(c: char, rest: string, hs: string)
    requires Matches(rest, hs)
    ensures Matches([c] + rest, [c] + hs)
  {
    assert ([c] + hs)[..1] == [c] && ([c] + hs)[1..] == hs;
    if c == '*' || c == '?' {
      assert PieceFits(c, [c]);
    }
    MatchesTaken(c, rest, [c] + hs, 1);
  }

  lemma WildTakesNone(c: char, rest: string, hs: string)
    requires IsWild(c) && Matches(rest, hs)
    ensures Matches([c] + rest, hs)
  {
    assert hs[..0] == "" && hs[0..] == hs;
    MatchesTaken(c, rest, hs, 0);
  }

  // ---- masks on which it does ----------------------------------------------------------

  /** The mask starts with a group of wildcards that holds a star. */
  predicate StartsWithStar(ms: string) {
    ms != "" && (ms[0] == '*' || (ms[0] == '?' && StartsWithStar(ms[1..])))
  }

  /** Every literal directly after a wildcard is followed by a group that holds a star. */
  ghost predicate Yielding(ms: string) {
    forall i :: 0 <= i && i + 1 < |ms| && IsWild(ms[i]) && !IsWild(ms[i + 1]) ==> StartsWithStar(ms[i + 2..])
  }

  lemma YieldingTail(ms: string)
    requires ms != "" && Yielding(ms)
    ensures Yielding(ms[1..])
  {
    var rest := ms[1..];
    forall i | 0 <= i && i + 1 < |rest| && IsWild(rest[i]) && !IsWild(rest[i + 1])
      ensures StartsWithStar(rest[i + 2..])
    {
      assert rest[i] == ms[i + 1] && rest[i + 1] == ms[i + 2] && rest[i + 2..] == ms[i + 3..];
    }
  }

  /** Such a group takes in whatever is put before the text. */
  lemma {:induction false} Absorbs(ms: string, before: string, hs: string)
    requires StartsWithStar(ms) && Matches(ms, hs)
    ensures Matches(ms, before + hs)
  {
    var c, rest := ms[0], ms[1..];
    assert ms == [c] + rest;
    var k := MatchesTakes(c, rest, hs);
    if c == '*' {
      StarTakesMore(rest, before, hs, k);
    } else {
      Absorbs(rest, before + hs[..k], hs[k..]);
      Rejoin(before, hs, k);
      WildTakesNone(c, rest, before + hs);
    }
  }

  lemma StarTakesMore(rest: string, before: string, hs: string, k: nat)
    requires Takes('*', rest, hs, k)
    ensures Matches(['*'] + rest, before + hs)
  {
    assert (before + hs)[|before| + k..] == hs[k..];
    MatchesTaken('*', rest, before + hs, |before| + k);
  }

  lemma Rejoin(before: string, hs: string, k: nat)
    requires k <= |hs|
    ensures before + hs[..k] + hs[k..] == before + hs
  {
  }

  /** The literal that ends a group of wildcards stands somewhere in the text, and the rest of the mask
      matches what follows it. */
  lemma {:induction false} GroupEnds(ms: string, hs: string) returns (a: nat)
    requires FirstLiteral(ms) < |ms| && Matches(ms, hs)
    ensures a < |hs| && hs[a] == ms[FirstLiteral(ms)] && Matches(ms[FirstLiteral(ms) + 1..], hs[a + 1..])
    decreases |ms|
  {
    var c, rest := ms[0], ms[1..];
    assert ms == [c] + rest;
    if IsWild(c) {
      var k := MatchesTakes(c, rest, hs);
      var b := GroupEnds(rest, hs[k..]);
      a := k + b;
      assert rest[FirstLiteral(rest) + 1..] == ms[FirstLiteral(ms) + 1..];
      assert hs[k..][b + 1..] == hs[a + 1..];
    } else {
      a := 0;
      MatchesLiteral(c, rest, hs);
    }
  }

  lemma {:induction false} GroupTakesNone(ms: string, hs: string)
    requires FirstLiteral(ms) < |ms| && hs != "" && hs[0] == ms[FirstLiteral(ms)]
    requires Matches(ms[FirstLiteral(ms) + 1..], hs[1..])
    ensures Matches(ms, hs)
    decreases |ms|
  {
    var c, rest := ms[0], ms[1..];
    assert ms == [c] + rest;
    if IsWild(c) {
      assert rest[FirstLiteral(rest) + 1..] == ms[FirstLiteral(ms) + 1..];
      GroupTakesNone(rest, hs);
      WildTakesNone(c, rest, hs);
    } else {
      assert [c] + hs[1..] == hs;
      LiteralMatches(c, rest, hs[1..]);
    }
  }

  lemma {:induction false} LiteralYields(c: char, rest: string)
    requires IsWild(c) && Yielding([c] + rest) && FirstLiteral(rest) < |rest|
    ensures StartsWithStar(rest[FirstLiteral(rest) + 1..])
    decreases |rest|
  {
    var ms := [c] + rest;
    if IsWild(rest[0]) {
      YieldingTail(ms);
      assert ms[1..] == rest && rest == [rest[0]] + rest[1..];
      LiteralYields(rest[0], rest[1..]);
      assert rest[1..][FirstLiteral(rest[1..]) + 1..] == rest[FirstLiteral(rest) + 1..];
    } else {
      assert IsWild(ms[0]) && !IsWild(ms[1]) && ms[2..] == rest[1..];
    }
  }

  /** The first wildcard may stop at the first hit of its group's literal. */
  lemma FirstHitWorks(c: char, rest: string, hs: string, k: nat) returns (f: nat)
    requires IsWild(c) && Yielding([c] + rest) && Takes(c, rest, hs, k)
    ensures Takes(c, rest, hs, f) && Avoids(rest, hs[..f])
  {
    var n := FirstLiteral(rest);
    f := k;
    if n < |rest| && rest[n] in hs[..k] {
      f := IndexOf(hs[..k], rest[n]);
      var a := GroupEnds(rest, hs[k..]);
      LiteralYields(c, rest);
      var between := hs[f + 1..k + a + 1];
      Absorbs(rest[n + 1..], between, hs[k..][a + 1..]);
      assert between + hs[k..][a + 1..] == hs[f..][1..];
      GroupTakesNone(rest, hs[f..]);
      assert hs[..k][..f] == hs[..f];
    }
  }

  /** On yielding masks the scan finds every match. */
  lemma {:induction false} YieldingExact(ms: string, hs: string)
    requires Yielding(ms)
    ensures LazyMatches(ms, hs) <==> Matches(ms, hs)
    decreases |ms|
  {
    if Matches(ms, hs) {
      if ms == "" {
        MatchesEmpty(hs);
        LazyEmpty(hs);
      } else {
        var c, rest := ms[0], ms[1..];
        assert ms == [c] + rest;
        YieldingTail(ms);
        if IsWild(c) {
          var k := MatchesTakes(c, rest, hs);
          var f := FirstHitWorks(c, rest, hs, k);
          YieldingExact(rest, hs[f..]);
          assert TakesOne(c, rest, hs, f);
          LazyWild(c, rest, hs);
        } else {
          MatchesLiteral(c, rest, hs);
          YieldingExact(rest, hs[1..]);
          LazyLiteral(c, rest, hs);
        }
      }
    }
  }

  // ---- and masks on which it does not --------------------------------------------------

  /** The literals of the mask. */
  function Literals(ms: string): string {
    if ms == "" then "" else (if IsWild(ms[0]) then "" else [ms[0]]) + Literals(ms[1..])
  }

  lemma {:induction false} LiteralsMatch(ms: string)
    ensures Matches(ms, Literals(ms))
  {
    if ms == "" {
      MatchesEmpty("");
    } else {
      assert ms == [ms[0]] + ms[1..];
      LiteralsMatch(ms[1..]);
      if IsWild(ms[0]) {
        assert "" + Literals(ms[1..]) == Literals(ms[1..]);
        WildTakesNone(ms[0], ms[1..], Literals(ms));
      } else {
        LiteralMatches(ms[0], ms[1..], Literals(ms[1..]));
      }
    }
  }

  /** A star, a literal, and no star directly after it. */
  predicate StuckAt(ms: string, i: nat) {
    && i + 1 < |ms| && ms[i] == '*' && !IsWild(ms[i + 1])
    && (i + 2 < |ms| ==> !IsWild(ms[i + 2]))
  }

  ghost predicate Missed(ms: string, hs: string) {
    Matches(ms, hs) && !LazyMatches(ms, hs)
  }

  lemma LazyStartsWith(c: char, rest: string, hs: string)
    requires !IsWild(c) && LazyMatches([c] + rest, hs)
    ensures hs != "" && hs[0] == c && LazyMatches(rest, hs[1..])
  {
    LazyLiteral(c, rest, hs);
  }

  /** The star settles on the first of two hits, after which the rest of the mask does not fit. */
  lemma FirstHitFails(d: char, tail: string, x: char, later: string)
    requires !IsWild(d) && (tail != "" ==> !IsWild(tail[0]) && tail[0] != x) && later != "" && later[0] == x
    ensures !LazyMatches(['*'] + ([d] + tail), [d] + later)
  {
    var hs, rest := [d] + later, [d] + tail;
    LazyWild('*', rest, hs);
    forall k: nat ensures !TakesOne('*', rest, hs, k) {
      assert FirstLiteral(rest) == 0 && rest[0] == d;
      assert 0 < k <= |hs| ==> hs[..k][0] == d;
      if k == 0 && LazyMatches(rest, hs) {
        LazyStartsWith(d, tail, hs);
        assert hs[1..] == later;
        TailFails(tail, x, later);
      }
      assert hs[0..] == hs;
    }
  }

  lemma TailFails(tail: string, x: char, later: string)
    requires (tail != "" ==> !IsWild(tail[0]) && tail[0] != x) && later != "" && later[0] == x
    ensures !LazyMatches(tail, later)
  {
    if tail == "" {
      LazyEmpty(later);
    } else {
      assert tail == [tail[0]] + tail[1..];
      LazyLiteral(tail[0], tail[1..], later);
    }
  }

  lemma MissedHere(d: char, tail: string)
    requires !IsWild(d) && (tail != "" ==> !IsWild(tail[0]))
    ensures exists hs :: Missed(['*'] + ([d] + tail), hs)
  {
    var x := if tail != "" && tail[0] == 'x' then 'y' else 'x';
    var end := [d] + Literals(tail);
    var later := [x] + end;
    LiteralsMatch(tail);
    LiteralMatches(d, tail, Literals(tail));
    assert ([d] + later)[2..] == end;
    MatchesTaken('*', [d] + tail, [d] + later, 2);
    FirstHitFails(d, tail, x, later);
    assert Missed(['*'] + ([d] + tail), [d] + later);
  }

  /** A longer piece for one star can be left to a star that follows. */
  lemma LazyStarAgain(rest: string, hs: string)
    requires rest != "" && rest[0] == '*' && LazyMatches(['*'] + rest, hs)
    ensures LazyMatches(rest, hs)
  {
    var more := rest[1..];
    assert rest == ['*'] + more;
    LazyWild('*', rest, hs);
    var k: nat :| TakesOne('*', rest, hs, k);
    LazyWild('*', more, hs[k..]);
    var l: nat :| TakesOne('*', more, hs[k..], l);
    assert hs[..k + l] == hs[..k] + hs[k..][..l] && hs[k + l..] == hs[k..][l..];
    assert FirstLiteral(rest) == 1 + FirstLiteral(more);
    assert FirstLiteral(more) < |more| ==> rest[FirstLiteral(rest)] == more[FirstLiteral(more)];
    assert TakesOne('*', more, hs, k + l);
    LazyWild('*', more, hs);
  }

  /** What a star in front makes of a match, the rest of the mask makes of it too. */
  lemma LazyWithoutStar(rest: string, hs: string)
    requires '?' !in rest && rest != "" && Matches(rest, hs) && LazyMatches(['*'] + rest, hs)
    ensures LazyMatches(rest, hs)
  {
    assert rest[0] in rest;
    if rest[0] == '*' {
      LazyStarAgain(rest, hs);
    } else {
      assert rest == [rest[0]] + rest[1..];
      MatchesLiteral(rest[0], rest[1..], hs);
      assert forall k: nat :: 0 < k <= |hs| ==> hs[..k][0] == rest[0];
      assert hs[0..] == hs;
      LazyWild('*', rest, hs);
    }
  }

  /** A text missed by the rest of the mask leads to one missed by the whole of it. */
  lemma MissedLater(c: char, rest: string, hs: string)
    requires c == '*' || !IsWild(c)
    requires '?' !in rest && rest != "" && Missed(rest, hs)
    ensures exists more :: Missed([c] + rest, more)
  {
    if IsWild(c) {
      WildTakesNone(c, rest, hs);
      if LazyMatches([c] + rest, hs) {
        LazyWithoutStar(rest, hs);
      }
      assert Missed([c] + rest, hs);
    } else {
      LiteralMatches(c, rest, hs);
      LazyLiteral(c, rest, [c] + hs);
      assert ([c] + hs)[1..] == hs;
      assert Missed([c] + rest, [c] + hs);
    }
  }

  /** A literal directly after a star with no star directly after it: some host is missed. */
  lemma {:induction false} StuckMisses(ms: string, i: nat)
    requires '?' !in ms && StuckAt(ms, i)
    ensures exists hs :: Missed(ms, hs)
    decreases i
  {
    assert ms == [ms[0]] + ms[1..];
    assert forall c :: c in ms[1..] ==> c in ms;
    if i == 0 {
      assert ms[1..] == [ms[1]] + ms[2..];
      MissedHere(ms[1], ms[2..]);
    } else {
      assert StuckAt(ms[1..], i - 1);
      StuckMisses(ms[1..], i - 1);
      var hs :| Missed(ms[1..], hs);
      assert ms[0] in ms;
      MissedLater(ms[0], ms[1..], hs);
    }
  }

  /** For masks without `?`: the scan finds every match of every host exactly when each literal directly
      after a star is itself directly followed by a star. */
  lemma StarMaskExactly(ms: string)
    requires '?' !in ms
    ensures (forall hs :: LazyMatches(ms, hs) <==> Matches(ms, hs)) <==>
            (forall i :: 0 <= i && i + 1 < |ms| && ms[i] == '*' && ms[i + 1] != '*' ==>
               i + 2 < |ms| && ms[i + 2] == '*')
  {
    if i: nat :| StuckAt(ms, i) {
      StuckMisses(ms, i);
    } else {
      assert forall c :: c in ms ==> c != '?';
      forall i | 0 <= i && i + 1 < |ms| && ms[i] == '*' && ms[i + 1] != '*'
        ensures i + 2 < |ms| && ms[i + 2] == '*'
      {
        assert ms[i + 1] in ms && !StuckAt(ms, i);
      }
      forall hs ensures LazyMatches(ms, hs) <==> Matches(ms, hs) {
        YieldingExact(ms, hs);
      }
    }
  }

  /** With question marks yielding is not needed: `?aa*` finds every match, although no star follows
      directly after its first literal. */
  lemma NotYieldingExact(a: char, hs: string)
    requires !IsWild(a)
    ensures var ms := ['?'] + ([a] + ([a] + "*"));
            !Yielding(ms) && (LazyMatches(ms, hs) <==> Matches(ms, hs))
  {
    var one, two, ms := [a] + "*", [a] + ([a] + "*"), ['?'] + ([a] + ([a] + "*"));
    assert IsWild(ms[0]) && !IsWild(ms[1]) && ms[2..] == one;
    if Matches(ms, hs) {
      var k := MatchesTakes('?', two, hs);
      MatchesLiteral(a, one, hs[k..]);
      MatchesLiteral(a, "*", hs[k..][1..]);
      var f := if hs[0] == a then 0 else 1;
      assert TwoHits(a, hs[f..]);
      TwoHitsTaken(a, hs[f..]);
      assert hs[..f] == [] || hs[..f] == [hs[0]];
      assert TakesOne('?', two, hs, f);
      LazyWild('?', two, hs);
    }
  }

  predicate TwoHits(a: char, hs: string) {
    |hs| >= 2 && hs[0] == a && hs[1] == a
  }

  lemma TwoHitsTaken(a: char, hs: string)
    requires !IsWild(a) && TwoHits(a, hs)
    ensures LazyMatches([a] + ([a] + "*"), hs)
  {
    var rest := hs[1..][1..];
    LazyLiteral(a, [a] + "*", hs);
    LazyLiteral(a, "*", hs[1..]);
    assert "*" == ['*'] + "";
    LazyWild('*', "", rest);
    LazyEmpty(rest[|rest|..]);
    assert TakesOne('*', "", rest, |rest|);
  }
}
