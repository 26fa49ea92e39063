/** CTCP messages: two levels of quoting around a tag and its data. */
module Ctcp {
  import opened Bytes
  import opened Seqs

  const DELIM: byte := 0x01
  const LOW_QUOTE: byte := 0x10
  const HIGH_QUOTE: byte := 0x5C
  const SEP: byte := 0x20
  const NUL: byte := 0x00
  const LF: byte := 0x0A
  const CR: byte := 0x0D
  const LETTER_A: byte := 0x61

  function HighLevelEscape(s: bytes): bytes {
    var out := Replace(s, [HIGH_QUOTE], [HIGH_QUOTE, HIGH_QUOTE]);
    Replace(out, [DELIM], [HIGH_QUOTE, LETTER_A])
  }

  function HighLevelUnescape(s: bytes): bytes {
    var out := Replace(s, [HIGH_QUOTE, LETTER_A], [DELIM]);
    Replace(out, [HIGH_QUOTE, HIGH_QUOTE], [HIGH_QUOTE])
  }

  function LowLevelEscape(s: bytes): bytes {
    var out := Replace(s, [LOW_QUOTE], [LOW_QUOTE, LOW_QUOTE]);
    var out := Replace(out, [CR], [LOW_QUOTE, CR]);
    var out := Replace(out, [LF], [LOW_QUOTE, LF]);
    Replace(out, [NUL], [LOW_QUOTE, NUL])
  }

  function LowLevelUnescape(s: bytes): bytes {
    var out := Replace(s, [LOW_QUOTE, NUL], [NUL]);
    var out := Replace(out, [LOW_QUOTE, LF], [LF]);
    var out := Replace(out, [LOW_QUOTE, CR], [CR]);
    Replace(out, [LOW_QUOTE, LOW_QUOTE], [LOW_QUOTE])
  }

  /** The tag up to the first space, and the data after it if there is one. */
  function SplitTag(s: bytes): (bytes, Option<bytes>) {
    var i := IndexOf(s, SEP);
    if i < |s| then (s[..i], Some(s[i + 1..])) else (s, None)
  }

  function JoinTag(tag: bytes, data: Option<bytes>): bytes {
    if data == None || data.value == [] then tag else tag + [SEP] + data.value
  }

  function Pack(tag: bytes, data: Option<bytes>): bytes {
    var data := if data.Some? then Some(HighLevelEscape(data.value)) else None;
    var tag := HighLevelEscape(tag);
    [DELIM] + LowLevelEscape(JoinTag(tag, data)) + [DELIM]
  }

  /** Slicing off the two ends needs two bytes. */
  function Unpack(msg: bytes): (bytes, Option<bytes>)
    requires |msg| >= 2
  {
    var (tag, data) := SplitTag(LowLevelUnescape(msg[1..|msg| - 1]));
    (HighLevelUnescape(tag), if data.Some? then Some(HighLevelUnescape(data.value)) else None)
  }

  // ---- one mark in front of every special byte ------------------------------------

  /** `q` in front of every byte of `marked`. */
  function Marked(s: bytes, q: byte, marked: set<byte>): bytes {
    if s == [] then []
    else (if s[0] in marked then [q, s[0]] else [s[0]]) + Marked(s[1..], q, marked)
  }

  lemma MarkedHead(s: bytes, q: byte, marked: set<byte>, x: byte)
    requires x in marked && x != q && Marked(s, q, marked) != []
    ensures Marked(s, q, marked)[0] != x
  {
  }

  lemma KeepMark(c: byte, rest: bytes, q: byte, x: byte, to: bytes)
    requires c != x && x != q && (rest == [] || rest[0] != x)
    ensures Replace([q, c] + rest, [q, x], to) == [q, c] + Replace(rest, [q, x], to)
  {
    assert [q, c] + rest == [q] + ([c] + rest);
    ReplacePairMiss(q, [c] + rest, [q, x], to);
    ReplacePairMiss(c, rest, [q, x], to);
    assert [q] + ([c] + Replace(rest, [q, x], to)) == [q, c] + Replace(rest, [q, x], to);
  }

  /** Dropping the mark in front of one byte; runs of the quote itself are never confused. */
  lemma {:induction false} DropMark(s: bytes, q: byte, marked: set<byte>, x: byte)
    requires q in marked && x in marked && x != q
    ensures Replace(Marked(s, q, marked), [q, x], [x]) == Marked(s, q, marked - {x})
    decreases |s|
  {
    if s != [] {
      var c, rest := s[0], Marked(s[1..], q, marked);
      DropMark(s[1..], q, marked, x);
      if c == x {
        assert Marked(s, q, marked) == [q, x] + rest;
        ReplacePairHit(rest, [q, x], [x]);
      } else if c in marked {
        if rest != [] {
          MarkedHead(s[1..], q, marked, x);
        }
        KeepMark(c, rest, q, x, [x]);
      } else {
        ReplacePairMiss(c, rest, [q, x], [x]);
      }
    }
  }

  /** With only the quote left marked, halving its runs gives the text back. */
  lemma {:induction false} DropQuotes(s: bytes, q: byte)
    ensures Replace(Marked(s, q, {q}), [q, q], [q]) == s
    decreases |s|
  {
    if s != [] {
      var rest := Marked(s[1..], q, {q});
      DropQuotes(s[1..], q);
      if s[0] == q {
        ReplacePairHit(rest, [q, q], [q]);
      } else {
        ReplacePairMiss(s[0], rest, [q, q], [q]);
      }
    }
  }

  // ---- the low level --------------------------------------------------------------

  lemma {:induction false} MarkOne(s: bytes, q: byte, marked: set<byte>, x: byte)
    requires q in marked && x !in marked
    ensures Replace(Marked(s, q, marked), [x], [q, x]) == Marked(s, q, marked + {x})
    decreases |s|
  {
    if s != [] {
      MarkOne(s[1..], q, marked, x);
      var head := if s[0] in marked then [q, s[0]] else [s[0]];
      ReplaceByteConcat(head, Marked(s[1..], q, marked), x, [q, x]);
      ReplaceByte(q, [s[0]], x, [q, x]);
      ReplaceByte(s[0], [], x, [q, x]);
      assert [q] + [s[0]] == [q, s[0]] && [s[0]] + [] == [s[0]] && [q, x] + [] == [q, x];
    }
  }

  lemma {:induction false} MarkQuote(s: bytes, q: byte)
    ensures Replace(s, [q], [q, q]) == Marked(s, q, {q})
    decreases |s|
  {
    if s != [] {
      assert s == [s[0]] + s[1..];
      ReplaceByte(s[0], s[1..], q, [q, q]);
      MarkQuote(s[1..], q);
    }
  }

  lemma LowLevelMarks(s: bytes)
    ensures LowLevelEscape(s) == Marked(s, LOW_QUOTE, {LOW_QUOTE, CR, LF, NUL})
  {
    MarkQuote(s, LOW_QUOTE);
    MarkOne(s, LOW_QUOTE, {LOW_QUOTE}, CR);
    assert {LOW_QUOTE} + {CR} == {LOW_QUOTE, CR};
    MarkOne(s, LOW_QUOTE, {LOW_QUOTE, CR}, LF);
    assert {LOW_QUOTE, CR} + {LF} == {LOW_QUOTE, CR, LF};
    MarkOne(s, LOW_QUOTE, {LOW_QUOTE, CR, LF}, NUL);
    assert {LOW_QUOTE, CR, LF} + {NUL} == {LOW_QUOTE, CR, LF, NUL};
  }

  /** Unescaping undoes escaping for every byte string. */
  lemma LowLevelRoundTrip(s: bytes)
    ensures LowLevelUnescape(LowLevelEscape(s)) == s
  {
    LowLevelMarks(s);
    DropMark(s, LOW_QUOTE, {LOW_QUOTE, CR, LF, NUL}, NUL);
    assert {LOW_QUOTE, CR, LF, NUL} - {NUL} == {LOW_QUOTE, CR, LF};
    DropMark(s, LOW_QUOTE, {LOW_QUOTE, CR, LF}, LF);
    assert {LOW_QUOTE, CR, LF} - {LF} == {LOW_QUOTE, CR};
    DropMark(s, LOW_QUOTE, {LOW_QUOTE, CR}, CR);
    assert {LOW_QUOTE, CR} - {CR} == {LOW_QUOTE};
    DropQuotes(s, LOW_QUOTE);
  }

  lemma {:induction false} MarkedBytes(s: bytes, q: byte, marked: set<byte>, c: byte)
    ensures c in Marked(s, q, marked) <==> c in s || (c == q && exists x :: x in s && x in marked)
  {
    if s != [] {
      MarkedBytes(s[1..], q, marked, c);
      assert s == [s[0]] + s[1..];
    }
  }

  /** The comment promises that NUL, NL and CR are replaced by printable letters; the code keeps
      the raw byte behind the quote, so a text escapes to one with the very same line breaks. */
  lemma LineBreaksStayRaw(s: bytes, c: byte)
    requires c != LOW_QUOTE
    ensures c in LowLevelEscape(s) <==> c in s
  {
    LowLevelMarks(s);
    MarkedBytes(s, LOW_QUOTE, {LOW_QUOTE, CR, LF, NUL}, c);
  }

  // ---- the high level -------------------------------------------------------------

  predicate QuotedA(s: bytes, i: nat) {
    i + 1 < |s| && s[i] == HIGH_QUOTE && s[i + 1] == LETTER_A
  }

  /** A quote directly followed by the letter a. */
  predicate HasQuotedA(s: bytes) {
    exists i :: 0 <= i < |s| && QuotedA(s, i)
  }

  function HighMarked(s: bytes): bytes {
    if s == [] then []
    else
      (if s[0] == HIGH_QUOTE then [HIGH_QUOTE, HIGH_QUOTE]
       else if s[0] == DELIM then [HIGH_QUOTE, LETTER_A]
       else [s[0]]) + HighMarked(s[1..])
  }

  lemma {:induction false} HighLevelMarks(s: bytes)
    ensures HighLevelEscape(s) == HighMarked(s)
    decreases |s|
  {
    if s != [] {
      assert s == [s[0]] + s[1..];
      ReplaceByte(s[0], s[1..], HIGH_QUOTE, [HIGH_QUOTE, HIGH_QUOTE]);
      HighLevelMarks(s[1..]);
      var head := if s[0] == HIGH_QUOTE then [HIGH_QUOTE, HIGH_QUOTE] else [s[0]];
      var rest := Replace(s[1..], [HIGH_QUOTE], [HIGH_QUOTE, HIGH_QUOTE]);
      ReplaceByteConcat(head, rest, DELIM, [HIGH_QUOTE, LETTER_A]);
      ReplaceByte(s[0], [], DELIM, [HIGH_QUOTE, LETTER_A]);
      ReplaceByte(HIGH_QUOTE, [HIGH_QUOTE], DELIM, [HIGH_QUOTE, LETTER_A]);
      ReplaceByte(HIGH_QUOTE, [], DELIM, [HIGH_QUOTE, LETTER_A]);
      assert [s[0]] + [] == [s[0]];
    }
  }

  lemma HighMarkedHead(s: bytes)
    requires HighMarked(s) != []
    ensures HighMarked(s)[0] == LETTER_A <==> s[0] == LETTER_A
  {
  }

  lemma {:induction false} FirstPass(s: bytes)
    requires !HasQuotedA(s)
    ensures Replace(HighMarked(s), [HIGH_QUOTE, LETTER_A], [DELIM]) == Marked(s, HIGH_QUOTE, {HIGH_QUOTE})
    decreases |s|
  {
    if s != [] {
      var c, rest, pair := s[0], HighMarked(s[1..]), [HIGH_QUOTE, LETTER_A];
      forall i | 0 <= i < |s[1..]| ensures !QuotedA(s[1..], i) {
        assert !QuotedA(s, i + 1);
      }
      FirstPass(s[1..]);
      if c == DELIM {
        ReplacePairHit(rest, pair, [DELIM]);
      } else if c == HIGH_QUOTE {
        if rest != [] {
          HighMarkedHead(s[1..]);
          assert !QuotedA(s, 0);
        }
        KeepMark(HIGH_QUOTE, rest, HIGH_QUOTE, LETTER_A, [DELIM]);
      } else {
        ReplacePairMiss(c, rest, pair, [DELIM]);
      }
    }
  }

  /** The occurrences of `a`, those directly after a quote left out. */
  function LooseAs(s: bytes): nat {
    if s == [] then 0
    else if |s| >= 2 && s[0] == HIGH_QUOTE && s[1] == LETTER_A then LooseAs(s[2..])
    else (if s[0] == LETTER_A then 1 else 0) + LooseAs(s[1..])
  }

  lemma {:induction false} LooseAsBound(s: bytes)
    ensures LooseAs(s) <= Occurrences(s, LETTER_A)
    ensures HasQuotedA(s) ==> LooseAs(s) < Occurrences(s, LETTER_A)
    decreases |s|
  {
    if s == [] {
    } else if |s| >= 2 && s[0] == HIGH_QUOTE && s[1] == LETTER_A {
      assert s[1..][1..] == s[2..];
      LooseAsBound(s[2..]);
    } else {
      LooseAsBound(s[1..]);
      if HasQuotedA(s) {
        var i :| 0 <= i < |s| && QuotedA(s, i);
        assert QuotedA(s[1..], i - 1);
      }
    }
  }

  /** After the first pass only the loose letters are left: those behind a quote were taken
      for escaped delimiters. */
  lemma {:induction false} FirstPassCount(s: bytes)
    ensures Occurrences(Replace(HighMarked(s), [HIGH_QUOTE, LETTER_A], [DELIM]), LETTER_A) == LooseAs(s)
    decreases |s|
  {
    var pair := [HIGH_QUOTE, LETTER_A];
    if s != [] {
      var c, rest := s[0], HighMarked(s[1..]);
      if |s| >= 2 && c == HIGH_QUOTE && s[1] == LETTER_A {
        FirstPassCount(s[2..]);
        TakenForDelimiter(s);
        OccurrencesConcat([HIGH_QUOTE] + [DELIM], Replace(HighMarked(s[2..]), pair, [DELIM]), LETTER_A);
        OccurrencesConcat([HIGH_QUOTE], [DELIM], LETTER_A);
      } else {
        FirstPassCount(s[1..]);
        if c == DELIM {
          ReplacePairHit(rest, pair, [DELIM]);
        } else if c == HIGH_QUOTE {
          if rest != [] {
            HighMarkedHead(s[1..]);
          }
          KeepMark(HIGH_QUOTE, rest, HIGH_QUOTE, LETTER_A, [DELIM]);
          OccurrencesConcat([HIGH_QUOTE, HIGH_QUOTE], Replace(rest, pair, [DELIM]), LETTER_A);
        } else {
          ReplacePairMiss(c, rest, pair, [DELIM]);
        }
      }
    }
  }

  /** A doubled quote followed by `a`: its second half and the letter read as an escaped delimiter. */
  lemma TakenForDelimiter(s: bytes)
    requires |s| >= 2 && s[0] == HIGH_QUOTE && s[1] == LETTER_A
    ensures Replace(HighMarked(s), [HIGH_QUOTE, LETTER_A], [DELIM]) ==
            [HIGH_QUOTE] + [DELIM] + Replace(HighMarked(s[2..]), [HIGH_QUOTE, LETTER_A], [DELIM])
  {
    var pair, tail := [HIGH_QUOTE, LETTER_A], HighMarked(s[2..]);
    assert s[1..][1..] == s[2..];
    assert HighMarked(s[1..]) == [LETTER_A] + tail;
    Shift(HIGH_QUOTE, LETTER_A, tail);
    ReplacePairMiss(HIGH_QUOTE, pair + tail, pair, [DELIM]);
    ReplacePairHit(tail, pair, [DELIM]);
    Associate([HIGH_QUOTE], [DELIM], Replace(tail, pair, [DELIM]));
  }

  lemma Shift(q: byte, a: byte, tail: bytes)
    ensures [q, q] + ([a] + tail) == [q] + ([q, a] + tail)
  {
  }

  lemma {:induction false} SecondPassCount(s: bytes)
    ensures Occurrences(Replace(s, [HIGH_QUOTE, HIGH_QUOTE], [HIGH_QUOTE]), LETTER_A) == Occurrences(s, LETTER_A)
    decreases |s|
  {
    var pair := [HIGH_QUOTE, HIGH_QUOTE];
    if |s| >= 2 && s[..2] == pair {
      assert s == pair + s[2..] && s[1..][1..] == s[2..];
      ReplacePairHit(s[2..], pair, [HIGH_QUOTE]);
      SecondPassCount(s[2..]);
      assert s[0] == HIGH_QUOTE && s[1] == HIGH_QUOTE;
    } else if s != [] {
      assert s == [s[0]] + s[1..];
      if |s| >= 2 {
        assert s[..2] == [s[0], s[1]];
      }
      ReplacePairMiss(s[0], s[1..], pair, [HIGH_QUOTE]);
      SecondPassCount(s[1..]);
    }
  }

  /** Unescaping undoes escaping exactly when no quote is directly followed by the letter a. */
  lemma HighLevelRoundTripExactly(s: bytes)
    ensures HighLevelUnescape(HighLevelEscape(s)) == s <==> !HasQuotedA(s)
  {
    HighLevelMarks(s);
    if !HasQuotedA(s) {
      FirstPass(s);
      DropQuotes(s, HIGH_QUOTE);
    } else {
      FirstPassCount(s);
      LooseAsBound(s);
      SecondPassCount(Replace(HighMarked(s), [HIGH_QUOTE, LETTER_A], [DELIM]));
    }
  }

  // ---- whole messages --------------------------------------------------------------

  lemma {:induction false} HighMarkedBytes(s: bytes, c: byte)
    ensures c != HIGH_QUOTE && c != LETTER_A && c != DELIM ==> (c in HighMarked(s) <==> c in s)
    ensures DELIM !in HighMarked(s)
    ensures HighMarked(s) == [] <==> s == []
  {
    if s != [] {
      HighMarkedBytes(s[1..], c);
      assert s == [s[0]] + s[1..];
    }
  }

  lemma {:induction false} ReplaceKeepsOut(s: bytes, from: bytes, to: bytes, c: byte)
    requires from != [] && c !in s && c !in to
    ensures c !in Replace(s, from, to)
    decreases |s|
  {
    if |s| >= |from| {
      assert s[0] in s;
      if s[..|from|] == from {
        ReplaceKeepsOut(s[|from|..], from, to, c);
      } else {
        ReplaceKeepsOut(s[1..], from, to, c);
      }
    }
  }

  lemma UnescapedWithoutSeparator(s: bytes)
    requires SEP !in s
    ensures SEP !in HighLevelUnescape(s)
  {
    ReplaceKeepsOut(s, [HIGH_QUOTE, LETTER_A], [DELIM], SEP);
    ReplaceKeepsOut(Replace(s, [HIGH_QUOTE, LETTER_A], [DELIM]), [HIGH_QUOTE, HIGH_QUOTE], [HIGH_QUOTE], SEP);
  }

  lemma {:induction false} FirstSeparator(a: bytes, b: bytes)
    requires SEP !in a
    ensures SplitTag(a + [SEP] + b) == (a, Some(b))
  {
    var s := a + [SEP] + b;
    assert s == a + ([SEP] + b);
    IndexAfter(a, [SEP] + b, SEP);
    assert s[..|a|] == a && s[|a| + 1..] == b;
  }

  /** A message without data comes back without data, however it was given. */
  function Normal(data: Option<bytes>): Option<bytes> {
    if data == None || data.value == [] then None else data
  }

  lemma Unpacked(tag: bytes, data: Option<bytes>)
    ensures Unpack(Pack(tag, data)) ==
            var (t, d) := SplitTag(JoinTag(HighLevelEscape(tag), if data.Some? then Some(HighLevelEscape(data.value)) else None));
            (HighLevelUnescape(t), if d.Some? then Some(HighLevelUnescape(d.value)) else None)
  {
    var body := JoinTag(HighLevelEscape(tag), if data.Some? then Some(HighLevelEscape(data.value)) else None);
    var msg := Pack(tag, data);
    assert msg[1..|msg| - 1] == LowLevelEscape(body);
    LowLevelRoundTrip(body);
  }

  /** A packed message unpacks to its tag and data exactly when the tag has no space and neither
      has a quote directly followed by the letter a. */
  lemma RoundTripExactly(tag: bytes, data: Option<bytes>)
    ensures Unpack(Pack(tag, data)) == (tag, Normal(data)) <==>
            SEP !in tag && !HasQuotedA(tag) && (data.Some? ==> !HasQuotedA(data.value))
  {
    var t := HighLevelEscape(tag);
    var d := if data.Some? then Some(HighLevelEscape(data.value)) else None;
    Unpacked(tag, data);
    HighLevelMarks(tag);
    HighMarkedBytes(tag, SEP);
    HighLevelRoundTripExactly(tag);
    if data.Some? {
      HighLevelMarks(data.value);
      HighMarkedBytes(data.value, SEP);
      HighLevelRoundTripExactly(data.value);
    }
    if SEP in tag {
      var first := SplitTag(JoinTag(t, d)).0;
      TagBeforeSeparator(JoinTag(t, d));
      UnescapedWithoutSeparator(first);
    } else if Normal(data).Some? {
      FirstSeparator(t, d.value);
    } else {
      assert SplitTag(t) == (t, None);
    }
  }

  lemma TagBeforeSeparator(s: bytes)
    ensures SEP !in SplitTag(s).0
  {
  }

  /** The delimiter stands at the two ends of a packed message and nowhere else. */
  lemma PackedDelimiters(tag: bytes, data: Option<bytes>)
    ensures var msg := Pack(tag, data);
            forall i :: 0 <= i < |msg| ==> (msg[i] == DELIM <==> i == 0 || i == |msg| - 1)
  {
    var t := HighLevelEscape(tag);
    var d := if data.Some? then Some(HighLevelEscape(data.value)) else None;
    var body := LowLevelEscape(JoinTag(t, d));
    HighLevelMarks(tag);
    HighMarkedBytes(tag, SEP);
    if data.Some? {
      HighLevelMarks(data.value);
      HighMarkedBytes(data.value, SEP);
    }
    LineBreaksStayRaw(JoinTag(t, d), DELIM);
    forall i | 0 <= i < |body| ensures body[i] != DELIM {
      assert body[i] in body;
    }
  }
}
