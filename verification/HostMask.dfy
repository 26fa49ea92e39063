/** Host masks: the scan without backtracking, against matches given by substrings. */
module HostMasks {
  import opened Seqs

  predicate IsWild(c: char) {
    c == '*' || c == '?'
  }

  /** What a character of the mask may stand for: `*` anything, `?` at most one character. */
  predicate PieceFits(c: char, piece: string) {
    if c == '*' then true else if c == '?' then |piece| <= 1 else piece == [c]
  }

  function Flatten(pieces: seq<string>): string {
    if pieces == [] then "" else pieces[0] + Flatten(pieces[1..])
  }

  /** The pieces are substrings for the characters of the mask that together make the host. */
  ghost predicate Assigned(ms: string, pieces: seq<string>, hs: string) {
    && |pieces| == |ms|
    && (forall i :: 0 <= i < |ms| ==> PieceFits(ms[i], pieces[i]))
    && Flatten(pieces) == hs
  }

  ghost predicate Matches(ms: string, hs: string) {
    exists pieces :: Assigned(ms, pieces, hs)
  }

  function FirstLiteral(ms: string): (n: nat)
    ensures n <= |ms|
    ensures n < |ms| ==> !IsWild(ms[n])
  {
    if ms == "" || !IsWild(ms[0]) then 0 else 1 + FirstLiteral(ms[1..])
  }

  /** No wildcard stands for text that holds the literal ending its group of wildcards: the scan
      settles on the first one. */
  ghost predicate Lazy(ms: string, pieces: seq<string>)
    requires |pieces| == |ms|
  {
    forall i :: 0 <= i < |ms| && IsWild(ms[i]) ==> Avoids(ms[i + 1..], pieces[i])
  }

  ghost predicate Avoids(rest: string, text: string) {
    FirstLiteral(rest) < |rest| ==> rest[FirstLiteral(rest)] !in text
  }

  ghost predicate LazyMatches(ms: string, hs: string) {
    exists pieces :: Assigned(ms, pieces, hs) && Lazy(ms, pieces)
  }

  // ---- lazy matches, one character of the mask at a time ------------------------------

  lemma LazyEmpty(hs: string)
    ensures LazyMatches("", hs) <==> hs == ""
  {
    if hs == "" {
      assert Assigned("", [], "") && Lazy("", []);
    }
  }

  lemma LazyTail(c: char, rest: string, pieces: seq<string>, hs: string)
    requires Assigned([c] + rest, pieces, hs) && Lazy([c] + rest, pieces)
    ensures |pieces[0]| <= |hs| && pieces[0] == hs[..|pieces[0]|]
    ensures Assigned(rest, pieces[1..], hs[|pieces[0]|..]) && Lazy(rest, pieces[1..])
    ensures PieceFits(c, pieces[0]) && (IsWild(c) ==> Avoids(rest, pieces[0]))
  {
    var ms := [c] + rest;
    assert ms[0] == c && ms[1..] == rest && ms[0 + 1..] == rest;
    assert hs == pieces[0] + Flatten(pieces[1..]);
    forall i | 0 <= i < |rest|
      ensures PieceFits(rest[i], pieces[1..][i]) && (IsWild(rest[i]) ==> Avoids(rest[i + 1..], pieces[1..][i]))
    {
      assert ms[i + 1] == rest[i] && pieces[i + 1] == pieces[1..][i] && ms[i + 1 + 1..] == rest[i + 1..];
    }
  }

  lemma LazyCons(c: char, rest: string, piece: string, pieces: seq<string>, hs: string)
    requires Assigned(rest, pieces, hs) && Lazy(rest, pieces)
    requires PieceFits(c, piece) && (IsWild(c) ==> Avoids(rest, piece))
    ensures LazyMatches([c] + rest, piece + hs)
  {
    var ms, all := [c] + rest, [piece] + pieces;
    assert all[1..] == pieces;
    forall i | 0 <= i < |ms|
      ensures PieceFits(ms[i], all[i]) && (IsWild(ms[i]) ==> Avoids(ms[i + 1..], all[i]))
    {
      if i == 0 {
        assert ms[1..] == rest;
      } else {
        assert ms[i] == rest[i - 1] && all[i] == pieces[i - 1] && ms[i + 1..] == rest[i - 1 + 1..];
      }
    }
    assert Assigned(ms, all, piece + hs) && Lazy(ms, all);
  }

  lemma LazyLiteral(c: char, rest: string, hs: string)
    requires !IsWild(c)
    ensures LazyMatches([c] + rest, hs) <==> hs != "" && hs[0] == c && LazyMatches(rest, hs[1..])
  {
    if LazyMatches([c] + rest, hs) {
      var pieces :| Assigned([c] + rest, pieces, hs) && Lazy([c] + rest, pieces);
      LazyTail(c, rest, pieces, hs);
    }
    if hs != "" && hs[0] == c && LazyMatches(rest, hs[1..]) {
      var pieces :| Assigned(rest, pieces, hs[1..]) && Lazy(rest, pieces);
      LazyCons(c, rest, [c], pieces, hs[1..]);
      assert [c] + hs[1..] == hs;
    }
  }

  /** A wildcard takes `k` characters and leaves the rest. */
  ghost predicate TakesOne(c: char, rest: string, hs: string, k: nat) {
    k <= |hs| && PieceFits(c, hs[..k]) && Avoids(rest, hs[..k]) && LazyMatches(rest, hs[k..])
  }

  lemma LazyWild(c: char, rest: string, hs: string)
    requires IsWild(c)
    ensures LazyMatches([c] + rest, hs) <==> exists k :: TakesOne(c, rest, hs, k)
  {
    if LazyMatches([c] + rest, hs) {
      var pieces :| Assigned([c] + rest, pieces, hs) && Lazy([c] + rest, pieces);
      LazyTail(c, rest, pieces, hs);
      assert TakesOne(c, rest, hs, |pieces[0]|);
    }
    if exists k :: TakesOne(c, rest, hs, k) {
      var k: nat :| TakesOne(c, rest, hs, k);
      var pieces :| Assigned(rest, pieces, hs[k..]) && Lazy(rest, pieces);
      LazyCons(c, rest, hs[..k], pieces, hs[k..]);
      assert hs[..k] + hs[k..] == hs;
    }
  }

  ghost predicate AllWild(w: string) {
    forall i :: 0 <= i < |w| ==> IsWild(w[i])
  }

  /** A group of wildcards takes any number of characters if it holds a star, else as many as it
      is long. */
  ghost predicate GroupTakes(w: string, rest: string, hs: string, k: nat) {
    && k <= |hs|
    && ('*' in w || k <= |w|)
    && (rest != "" ==> rest[0] !in hs[..k])
    && LazyMatches(rest, hs[k..])
  }

  ghost predicate Group(w: string, rest: string) {
    AllWild(w) && (rest == "" || !IsWild(rest[0]))
  }

  lemma {:induction false} LiteralAfter(w: string, rest: string)
    requires Group(w, rest)
    ensures FirstLiteral(w + rest) == |w|
  {
    if w == "" {
      assert w + rest == rest;
    } else {
      assert (w + rest)[1..] == w[1..] + rest && (w + rest)[0] == w[0];
      LiteralAfter(w[1..], rest);
    }
  }

  lemma {:induction false} LazyTakes(w: string, rest: string, hs: string)
    requires w != "" && Group(w, rest) && LazyMatches(w + rest, hs)
    ensures exists k :: GroupTakes(w, rest, hs, k)
    decreases |w|
  {
    var c, more := w[0], w[1..];
    assert w + rest == [c] + (more + rest) && w == [c] + more;
    LazyWild(c, more + rest, hs);
    LiteralAfter(more, rest);
    var k: nat :| TakesOne(c, more + rest, hs, k);
    if more == "" {
      assert more + rest == rest;
      assert GroupTakes(w, rest, hs, k);
    } else {
      LazyTakes(more, rest, hs[k..]);
      var l: nat :| GroupTakes(more, rest, hs[k..], l);
      MoreTaken(c, more, rest, hs, k, l);
    }
  }

  lemma MoreTaken(c: char, more: string, rest: string, hs: string, k: nat, l: nat)
    requires TakesOne(c, more + rest, hs, k) && more != "" && Group(more, rest) && GroupTakes(more, rest, hs[k..], l)
    ensures GroupTakes([c] + more, rest, hs, k + l)
  {
    LiteralAfter(more, rest);
    assert rest != "" ==> (more + rest)[|more|] == rest[0];
    assert hs[..k + l] == hs[..k] + hs[k..][..l] && hs[k + l..] == hs[k..][l..];
  }

  lemma LazyGroup(w: string, rest: string, hs: string)
    requires w != "" && Group(w, rest)
    ensures LazyMatches(w + rest, hs) <==> exists k :: GroupTakes(w, rest, hs, k)
  {
    var c, more := w[0], w[1..];
    assert w + rest == [c] + (more + rest) && w == [c] + more;
    if LazyMatches(w + rest, hs) {
      LazyTakes(w, rest, hs);
    }
    if exists k :: GroupTakes(w, rest, hs, k) {
      var k: nat :| GroupTakes(w, rest, hs, k);
      GroupTaken(c, more, rest, hs, k);
      LazyWild(c, more + rest, hs);
    }
  }

  lemma {:induction false} GroupTaken(c: char, more: string, rest: string, hs: string, k: nat)
    requires IsWild(c) && Group(more, rest) && GroupTakes([c] + more, rest, hs, k)
    ensures exists l :: TakesOne(c, more + rest, hs, l)
    decreases |more|, 1
  {
    if more == "" {
      TakenAlone(c, rest, hs, k);
    } else {
      var l := FirstShare(c, more, k);
      SplitTake(c, more, rest, hs, k, l);
      var d, most := more[0], more[1..];
      assert more == [d] + most && more + rest == [d] + (most + rest);
      GroupTaken(d, most, rest, hs[l..], k - l);
      LazyWild(d, most + rest, hs[l..]);
      TakenFirst(c, more, rest, hs, k);
    }
  }

  /** How much of a group's text its first wildcard takes: a star all of it, a question mark one
      character when no star follows. */
  function FirstShare(c: char, more: string, k: nat): nat {
    if c == '*' then k else if k == 0 || '*' in more then 0 else 1
  }

  lemma TakenAlone(c: char, rest: string, hs: string, k: nat)
    requires Group("", rest) && GroupTakes([c], rest, hs, k) && IsWild(c)
    ensures TakesOne(c, "" + rest, hs, k)
  {
    LiteralAfter("", rest);
    assert "" + rest == rest;
  }

  lemma TakenFirst(c: char, more: string, rest: string, hs: string, k: nat)
    requires IsWild(c) && Group(more, rest) && GroupTakes([c] + more, rest, hs, k) && more != ""
    requires FirstShare(c, more, k) <= k && LazyMatches(more + rest, hs[FirstShare(c, more, k)..])
    ensures TakesOne(c, more + rest, hs, FirstShare(c, more, k))
  {
    var l := FirstShare(c, more, k);
    LiteralAfter(more, rest);
    assert rest != "" ==> (more + rest)[|more|] == rest[0];
    assert forall x :: x in hs[..l] ==> x in hs[..k];
  }

  lemma SplitTake(c: char, more: string, rest: string, hs: string, k: nat, l: nat)
    requires GroupTakes([c] + more, rest, hs, k) && l <= k
    requires if '*' in more then true else k - l <= |more|
    ensures GroupTakes(more, rest, hs[l..], k - l)
  {
    assert hs[k..] == hs[l..][k - l..];
    assert hs[l..][..k - l] == hs[l..k];
    assert forall x :: x in hs[l..k] ==> x in hs[..k];
  }

  /** Nothing is left of the host: only wildcards may be left of the mask. */
  lemma {:induction false} LazyNothing(ms: string)
    ensures LazyMatches(ms, "") <==> AllWild(ms)
  {
    if ms == "" {
      LazyEmpty("");
    } else {
      var c, rest := ms[0], ms[1..];
      assert ms == [c] + rest;
      LazyNothing(rest);
      if IsWild(c) {
        LazyWild(c, rest, "");
        if LazyMatches(rest, "") {
          assert TakesOne(c, rest, "", 0);
        }
        assert AllWild(ms) <==> AllWild(rest) by {
          assert forall i :: 0 <= i < |rest| ==> rest[i] == ms[i + 1];
        }
      } else {
        LazyLiteral(c, rest, "");
      }
    }
  }

  // ---- the scan -----------------------------------------------------------------------

  /** What is left to match once the scan is at `i` and `j`, with `consume` more characters for the
      wildcards just passed, any number when negative. */
  ghost predicate Left(ms: string, hs: string, i: nat, j: nat, consume: int, k: nat)
    requires i <= |ms| && j <= |hs|
  {
    && j + k <= |hs|
    && (consume < 0 || k <= consume)
    && (i < |ms| && k > 0 ==> ms[i] !in hs[j..j + k])
    && LazyMatches(ms[i..], hs[j + k..])
  }

  ghost predicate Pending(ms: string, hs: string, i: nat, j: nat, consume: int)
    requires i <= |ms| && j <= |hs|
  {
    exists k :: Left(ms, hs, i, j, consume, k)
  }

  lemma AfterGroup(ms: string, hs: string, i: nat, n: nat, j: nat, consume: int)
    requires i < n <= |ms| && j <= |hs| && Group(ms[i..n], ms[n..])
    requires if '*' in ms[i..n] then consume < 0 else consume == n - i
    ensures Pending(ms, hs, i, j, 0) <==> Pending(ms, hs, n, j, consume)
  {
    var w, rest := ms[i..n], ms[n..];
    assert ms[i..] == w + rest && hs[j + 0..] == hs[j..];
    LazyGroup(w, rest, hs[j..]);
    assert Left(ms, hs, i, j, 0, 0) <==> LazyMatches(w + rest, hs[j..]);
    forall k: nat | j + k <= |hs| ensures GroupTakes(w, rest, hs[j..], k) <==> Left(ms, hs, n, j, consume, k) {
      assert hs[j..][..k] == hs[j..j + k] && hs[j..][k..] == hs[j + k..];
      assert n < |ms| ==> rest[0] == ms[n];
    }
    if exists k :: GroupTakes(w, rest, hs[j..], k) {
      var k: nat :| GroupTakes(w, rest, hs[j..], k);
      assert Left(ms, hs, n, j, consume, k);
    }
    if Pending(ms, hs, n, j, consume) {
      var k: nat :| Left(ms, hs, n, j, consume, k);
      assert GroupTakes(w, rest, hs[j..], k);
    }
  }

  lemma FirstOfSlice(hs: string, j: nat, k: nat)
    requires j + k <= |hs|
    ensures k > 0 ==> hs[j] in hs[j..j + k]
  {
    if k > 0 {
      assert hs[j..j + k][0] == hs[j];
    }
  }

  lemma AfterHit(ms: string, hs: string, i: nat, j: nat, consume: int)
    requires i < |ms| && j < |hs| && !IsWild(ms[i]) && ms[i] == hs[j]
    ensures Pending(ms, hs, i, j, consume) <==> Pending(ms, hs, i + 1, j + 1, 0)
  {
    assert ms[i..] == [ms[i]] + ms[i + 1..] && hs[j..][1..] == hs[j + 1..];
    LazyLiteral(ms[i], ms[i + 1..], hs[j..]);
    assert hs[j + 0..] == hs[j..] && hs[j + 1 + 0..] == hs[j + 1..];
    if Pending(ms, hs, i, j, consume) {
      var k: nat :| Left(ms, hs, i, j, consume, k);
      FirstOfSlice(hs, j, k);
      assert k == 0;
      assert Left(ms, hs, i + 1, j + 1, 0, 0);
    }
    if Pending(ms, hs, i + 1, j + 1, 0) {
      var k: nat :| Left(ms, hs, i + 1, j + 1, 0, k);
      assert k == 0;
      assert 0 <= consume || consume < 0;
      assert Left(ms, hs, i, j, consume, 0);
    }
  }

  lemma AfterMiss(ms: string, hs: string, i: nat, j: nat, consume: int)
    requires i < |ms| && j < |hs| && !IsWild(ms[i]) && ms[i] != hs[j]
    ensures consume == 0 ==> !Pending(ms, hs, i, j, 0)
    ensures consume != 0 ==> (Pending(ms, hs, i, j, consume) <==> Pending(ms, hs, i, j + 1, consume - 1))
  {
    assert ms[i..] == [ms[i]] + ms[i + 1..] && hs[j + 0..] == hs[j..];
    LazyLiteral(ms[i], ms[i + 1..], hs[j..]);
    assert !Left(ms, hs, i, j, consume, 0);
    if consume != 0 {
      forall k: nat | k > 0 && j + k <= |hs|
        ensures Left(ms, hs, i, j, consume, k) <==> Left(ms, hs, i, j + 1, consume - 1, k - 1)
      {
        assert hs[j..j + k] == [hs[j]] + hs[j + 1..j + 1 + (k - 1)];
        assert hs[j + k..] == hs[j + 1 + (k - 1)..];
        assert k == 1 ==> hs[j + 1..j + 1] == "";
      }
      if Pending(ms, hs, i, j, consume) {
        var k: nat :| Left(ms, hs, i, j, consume, k);
        assert Left(ms, hs, i, j + 1, consume - 1, k - 1);
      }
      if Pending(ms, hs, i, j + 1, consume - 1) {
        var k: nat :| Left(ms, hs, i, j + 1, consume - 1, k);
        assert Left(ms, hs, i, j, consume, k + 1);
      }
    }
  }

  lemma AtTheEnd(ms: string, hs: string, i: nat, j: nat, consume: int)
    requires i <= |ms| && j <= |hs| && (i == |ms| || j == |hs|)
    ensures Pending(ms, hs, i, j, consume) <==>
            AllWild(ms[i..]) && (consume < 0 || j + consume >= |hs|)
  {
    if i == |ms| {
      var all := |hs| - j;
      LazyEmpty(hs[j + all..]);
      assert ms[i..] == "";
      assert Left(ms, hs, i, j, consume, all) <==> consume < 0 || all <= consume;
      forall k: nat | j + k < |hs| ensures !Left(ms, hs, i, j, consume, k) {
        LazyEmpty(hs[j + k..]);
      }
    } else {
      LazyNothing(ms[i..]);
      assert hs[j + 0..] == "";
      assert Left(ms, hs, i, j, consume, 0) <==> AllWild(ms[i..]) && (consume < 0 || 0 <= consume);
    }
  }

  /** The scan accepts exactly the lazy matches, for all masks and hosts. */
  method IsMatch(hs: string, ms: string) returns (ok: bool)
    ensures ok <==> LazyMatches(ms, hs)
  {
    var ml, hl := |ms|, |hs|;
    if ml == 0 {
      LazyEmpty(hs);
      return hl == 0;
    }
    var i: nat, j: nat, consume := 0, 0, 0;
    assert ms[0..] == ms && hs[0 + 0..] == hs;
    assert Left(ms, hs, 0, 0, 0, 0) <==> LazyMatches(ms, hs);
    while i < ml && j < hl
      invariant i <= ml && j <= hl
      invariant Pending(ms, hs, i, j, consume) <==> LazyMatches(ms, hs)
      invariant consume != 0 && i < ml ==> !IsWild(ms[i])
      decreases ml - i + hl - j
    {
      if ms[i] == '?' || ms[i] == '*' {
        var star, first := false, i;
        consume := 0;
        while i < ml && (ms[i] == '*' || ms[i] == '?')
          invariant first <= i <= ml && consume == i - first
          invariant AllWild(ms[first..i]) && (star <==> '*' in ms[first..i])
          invariant i == first ==> IsWild(ms[i])
        {
          assert ms[first..i + 1] == ms[first..i] + [ms[i]];
          star := star || ms[i] == '*';
          i := i + 1;
          consume := consume + 1;
        }
        if star {
          consume := -1;
        }
        AfterGroup(ms, hs, first, i, j, consume);
      } else if ms[i] == hs[j] {
        AfterHit(ms, hs, i, j, consume);
        consume := 0;
        i := i + 1;
        j := j + 1;
      } else {
        AfterMiss(ms, hs, i, j, consume);
        if consume != 0 {
          consume := consume - 1;
          j := j + 1;
        } else {
          return false;
        }
      }
    }
    AtTheEnd(ms, hs, i, j, consume);
    var stop := i;
    while i < ml && (ms[i] == '?' || ms[i] == '*')
      invariant stop <= i <= ml && AllWild(ms[stop..i])
    {
      assert ms[stop..i + 1] == ms[stop..i] + [ms[i]];
      i := i + 1;
    }
    assert AllWild(ms[stop..]) <==> i == ml by {
      if i < ml {
        assert ms[stop..][i - stop] == ms[i];
      } else {
        assert ms[stop..i] == ms[stop..];
      }
    }
    var at := j;
    if consume < 0 {
      consume := hl - at;
    }
    at := at + consume;
    return !(i < ml || at < hl);
  }

  // ---- against the declarative match ----------------------------------------------------

  /** Soundness: what the scan accepts is a match, for all masks and hosts. */
  lemma LazyIsMatch(ms: string, hs: string)
    requires LazyMatches(ms, hs)
    ensures Matches(ms, hs)
  {
  }

  /** Every literal that ends a group of wildcards occurs at most once in the host. */
  ghost predicate Anchored(ms: string, hs: string) {
    forall i :: 0 <= i < |ms| && IsWild(ms[i]) && FirstLiteral(ms[i + 1..]) < |ms[i + 1..]| ==>
      Occurrences(hs, ms[i + 1..][FirstLiteral(ms[i + 1..])]) <= 1
  }

  lemma {:induction false} PieceOccurs(pieces: seq<string>, i: nat, c: char)
    requires i < |pieces|
    ensures Occurrences(Flatten(pieces), c) >= Occurrences(pieces[i], c)
  {
    OccurrencesConcat(pieces[0], Flatten(pieces[1..]), c);
    if i > 0 {
      PieceOccurs(pieces[1..], i - 1, c);
    }
  }

  lemma {:induction false} PiecesOccur(pieces: seq<string>, i: nat, n: nat, c: char)
    requires i < n < |pieces|
    ensures Occurrences(Flatten(pieces), c) >= Occurrences(pieces[i], c) + Occurrences(pieces[n], c)
  {
    OccurrencesConcat(pieces[0], Flatten(pieces[1..]), c);
    if i > 0 {
      PiecesOccur(pieces[1..], i - 1, n - 1, c);
    } else {
      PieceOccurs(pieces[1..], n - 1, c);
    }
  }

  lemma {:induction false} MemberOccurs(s: string, c: char)
    requires c in s
    ensures Occurrences(s, c) >= 1
  {
    if s[0] != c {
      MemberOccurs(s[1..], c);
    }
  }

  /** Exactness where each such literal is unique in the host. */
  lemma AnchoredExactly(ms: string, hs: string)
    requires Anchored(ms, hs)
    ensures LazyMatches(ms, hs) <==> Matches(ms, hs)
  {
    if Matches(ms, hs) {
      var pieces :| Assigned(ms, pieces, hs);
      forall i | 0 <= i < |ms| && IsWild(ms[i]) ensures Avoids(ms[i + 1..], pieces[i]) {
        var rest := ms[i + 1..];
        var n := FirstLiteral(rest);
        if n < |rest| && rest[n] in pieces[i] {
          assert ms[i + 1 + n] == rest[n] && PieceFits(ms[i + 1 + n], pieces[i + 1 + n]);
          PiecesOccur(pieces, i, i + 1 + n, rest[n]);
          MemberOccurs(pieces[i], rest[n]);
          MemberOccurs(pieces[i + 1 + n], rest[n]);
          assert false;
        }
      }
      assert Lazy(ms, pieces);
    }
  }

  /** Ordinary masks: each group of wildcards ends the mask or is followed by `!` or `@`. */
  ghost predicate Ordinary(ms: string) {
    forall i :: 0 <= i < |ms| - 1 && IsWild(ms[i]) ==> IsWild(ms[i + 1]) || ms[i + 1] in "!@"
  }

  lemma {:induction false} OrdinaryLiteral(ms: string, i: nat)
    requires Ordinary(ms) && i < |ms| && IsWild(ms[i]) && FirstLiteral(ms[i + 1..]) < |ms[i + 1..]|
    ensures ms[i + 1..][FirstLiteral(ms[i + 1..])] in "!@"
    decreases |ms| - i
  {
    if IsWild(ms[i + 1]) {
      assert ms[i + 1..][1..] == ms[i + 2..] && ms[i + 1..][0] == ms[i + 1];
      OrdinaryLiteral(ms, i + 1);
    }
  }

  /** On ordinary masks and hosts with one `!` and one `@` at most, the scan is exact. */
  lemma OrdinaryExactly(ms: string, hs: string)
    requires Ordinary(ms) && Occurrences(hs, '!') <= 1 && Occurrences(hs, '@') <= 1
    ensures LazyMatches(ms, hs) <==> Matches(ms, hs)
  {
    forall i | 0 <= i < |ms| && IsWild(ms[i]) && FirstLiteral(ms[i + 1..]) < |ms[i + 1..]|
      ensures Occurrences(hs, ms[i + 1..][FirstLiteral(ms[i + 1..])]) <= 1
    {
      OrdinaryLiteral(ms, i);
    }
    AnchoredExactly(ms, hs);
  }

  /** Elsewhere a match can be missed: a star before a dot settles on the first dot. */
  lemma MissedMatch(c: char, x: char, y: char)
    requires !IsWild(c) && !IsWild(x) && !IsWild(y) && x != y && c != x && c != y
    ensures var ms, hs := "*" + ([c] + [x]), [c] + ([y] + ([c] + [x]));
            Matches(ms, hs) && !LazyMatches(ms, hs)
  {
    var ms, hs := "*" + ([c] + [x]), [c] + ([y] + ([c] + [x]));
    var last: seq<string> := [[x]];
    var middle := [[c]] + last;
    var pieces := [[c] + [y]] + middle;
    assert last[1..] == [] && middle[1..] == last && pieces[1..] == middle;
    assert Flatten([]) == "";
    assert Flatten(last) == [x] + "";
    assert [x] + "" == [x];
    assert Flatten(middle) == [c] + Flatten(last);
    assert Flatten(pieces) == [c] + [y] + ([c] + [x]);
    assert [c] + [y] + ([c] + [x]) == hs;
    assert ms[0] == '*' && ms[1] == c && ms[2] == x;
    assert pieces[1] == [c] && pieces[2] == [x];
    assert Assigned(ms, pieces, hs);
    assert ms == ['*'] + ([c] + [x]);
    LazyGroup("*", [c] + [x], hs);
    forall k: nat ensures !GroupTakes("*", [c] + [x], hs, k) {
      if k <= |hs| && k > 0 {
        assert hs[..k][0] == c;
      } else if k == 0 {
        assert hs[0..] == hs && hs[1..] == [y] + ([c] + [x]);
        LazyLiteral(c, [x], hs);
        assert [x] == [x] + "";
        LazyLiteral(x, "", hs[1..]);
      }
    }
  }
}
