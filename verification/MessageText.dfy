/** Events printed as protocol messages, and messages parsed. */
module MessageText {
  import opened Seqs
  import opened Text

  datatype Event = Event(name: string, sender: string, args: seq<string>)

  // ---- printing --------------------------------------------------------------------------

  function PrintArgs(args: seq<string>): string {
    if args == [] then ""
    else
      " " + (if |args| == 1 && ' ' in args[0] then ":" else "") + args[0] + PrintArgs(args[1..])
  }

  function Print(ev: Event): string {
    (if ev.sender == "" then "" else ":" + ev.sender + " ") + ev.name + PrintArgs(ev.args)
  }

  method String(ev: Event) returns (text: string)
    ensures text == Print(ev)
  {
    text := "";
    if |ev.sender| > 0 {
      text := ":" + ev.sender + " ";
    }
    text := text + ev.name;
    ghost var head := text;
    var lastArg := |ev.args| - 1;
    for i := 0 to |ev.args|
      invariant text + PrintArgs(ev.args[i..]) == head + PrintArgs(ev.args)
    {
      var arg := ev.args[i];
      ghost var before := text;
      text := text + " ";
      if lastArg == i && ' ' in arg {
        text := text + ":";
      }
      text := text + arg;
      PrintNext(before, ev.args, i);
    }
    assert ev.args[|ev.args|..] == [];
  }

  lemma PrintNext(before: string, args: seq<string>, i: nat)
    requires i < |args|
    ensures var colon := if i == |args| - 1 && ' ' in args[i] then ":" else "";
            before + PrintArgs(args[i..]) == before + " " + colon + args[i] + PrintArgs(args[i + 1..])
  {
    assert args[i..][1..] == args[i + 1..];
  }

  // ---- parsing ---------------------------------------------------------------------------

  /** The white space of the regular expression; `IsSpace` accepts more. */
  predicate IsBlank(c: char) {
    c == ' ' || c == '\t' || c == '\n' || c == '\r' || c == '\U{0C}'
  }

  predicate NoBlanks(s: string) {
    forall c :: c in s ==> !IsBlank(c)
  }

  predicate AllBlank(s: string) {
    forall c :: c in s ==> IsBlank(c)
  }

  predicate IsNameChar(c: char) {
    'A' <= c <= 'Z' || '0' <= c <= '9'
  }

  predicate IsName(s: string) {
    s != "" && forall c :: c in s ==> IsNameChar(c)
  }

  /** The longest prefix without white space. */
  function Run(s: string): (r: string)
    ensures r <= s
  {
    if s == "" || IsBlank(s[0]) then "" else [s[0]] + Run(s[1..])
  }

  function NameRun(s: string): (r: string)
    ensures r <= s
  {
    if s == "" || !IsNameChar(s[0]) then "" else [s[0]] + NameRun(s[1..])
  }

  /** The longest prefix without a line feed. */
  function LineRun(s: string): (r: string)
    ensures r <= s
  {
    if s == "" || s[0] == '\n' then "" else [s[0]] + LineRun(s[1..])
  }

  predicate StartsWord(s: string) {
    |s| >= 2 && s[0] == ' ' && s[1] != ':' && !IsBlank(s[1])
  }

  /** The third group: a space and a word that does not start with a colon, any number of times. */
  function WordsRun(s: string): (r: string)
    ensures r <= s
    decreases |s|
  {
    if !StartsWord(s) then ""
    else
      var w := Run(s[1..]);
      assert s == [' '] + w + s[1 + |w|..];
      [' '] + w + WordsRun(s[1 + |w|..])
  }

  predicate StartsTrailing(s: string) {
    |s| >= 2 && s[0] == ' ' && s[1] == ':'
  }

  /** The words cut at white space, then the trailing argument unless it is empty; only white space
      may follow. */
  function Finish(words: string, rest: string): Option<seq<string>> {
    if StartsTrailing(rest) then
      var trailing := LineRun(rest[2..]);
      if AllBlank(rest[2 + |trailing|..]) then Some(Fields(words) + NonEmpty(trailing)) else None
    else if AllBlank(rest) then Some(Fields(words))
    else None
  }

  function NonEmpty(trailing: string): seq<string> {
    if trailing == "" then [] else [trailing]
  }

  /** The arguments in what follows the name. */
  function ParseArgs(s: string): Option<seq<string>> {
    Finish(WordsRun(s), s[|WordsRun(s)|..])
  }

  function ParseName(sender: string, s: string): Option<Event> {
    var name := NameRun(s);
    if name == "" then None
    else
      var args := ParseArgs(s[|name|..]);
      if args.Some? then Some(Event(name, sender, args.value)) else None
  }

  function Parse(s: string): Option<Event> {
    if s == "" || s[0] != ':' then ParseName("", s)
    else
      var sender := Run(s[1..]);
      var rest := s[1 + |sender|..];
      if sender == "" || rest == "" || rest[0] != ' ' then None else ParseName(sender, rest[1..])
  }

  // ---- the runs ----------------------------------------------------------------------------

  lemma {:induction false} RunFacts(s: string)
    ensures NoBlanks(Run(s)) && (|Run(s)| < |s| ==> IsBlank(s[|Run(s)|]))
  {
    if s != "" && !IsBlank(s[0]) {
      RunFacts(s[1..]);
    }
  }

  lemma {:induction false} RunIs(w: string, t: string)
    requires NoBlanks(w) && (t != "" ==> IsBlank(t[0]))
    ensures Run(w + t) == w
  {
    if w == "" {
      assert w + t == t;
    } else {
      assert w[0] in w && (w + t)[1..] == w[1..] + t;
      assert forall c :: c in w[1..] ==> c in w;
      RunIs(w[1..], t);
    }
  }

  lemma {:induction false} NameRunFacts(s: string)
    ensures forall c :: c in NameRun(s) ==> IsNameChar(c)
  {
    if s != "" && IsNameChar(s[0]) {
      NameRunFacts(s[1..]);
    }
  }

  lemma {:induction false} NameRunIs(w: string, t: string)
    requires (forall c :: c in w ==> IsNameChar(c)) && (t != "" ==> !IsNameChar(t[0]))
    ensures NameRun(w + t) == w
  {
    if w == "" {
      assert w + t == t;
    } else {
      assert w[0] in w && (w + t)[1..] == w[1..] + t;
      assert forall c :: c in w[1..] ==> c in w;
      NameRunIs(w[1..], t);
    }
  }

  lemma {:induction false} LineRunIs(s: string)
    ensures LineRun(s) == s <==> '\n' !in s
  {
    if s != "" && s[0] != '\n' {
      LineRunIs(s[1..]);
      assert s == [s[0]] + s[1..];
    }
  }

  lemma SpaceFreeNoBlanks(w: string)
    requires SpaceFree(w)
    ensures NoBlanks(w)
  {
  }

  // ---- cutting at white space ---------------------------------------------------------------

  lemma {:induction false} WordIs(w: string, t: string)
    requires SpaceFree(w) && (t != "" ==> IsSpace(t[0]))
    ensures Word(w + t) == w
  {
    if w == "" {
      assert w + t == t;
    } else {
      assert w[0] in w && (w + t)[1..] == w[1..] + t;
      assert forall c :: c in w[1..] ==> c in w;
      WordIs(w[1..], t);
    }
  }

  lemma FieldsOfWord(w: string, t: string)
    requires w != "" && SpaceFree(w) && (t != "" ==> IsSpace(t[0]))
    ensures Fields(w + t) == [w] + Fields(t)
  {
    WordIs(w, t);
    assert w[0] in w && (w + t)[|w|..] == t;
  }

  lemma {:induction false} FieldsConcat(a: string, t: string)
    requires t != "" ==> IsSpace(t[0])
    ensures Fields(a + t) == Fields(a) + Fields(t)
    decreases |a|
  {
    if a == "" {
      assert a + t == t;
    } else if IsSpace(a[0]) {
      assert (a + t)[1..] == a[1..] + t;
      FieldsConcat(a[1..], t);
    } else {
      WordFacts(a);
      WordStarts(a);
      FieldsConcat(a[|Word(a)|..], t);
      FieldsConcatWord(Word(a), a[|Word(a)|..], t);
      Cut(a, |Word(a)|, t);
    }
  }

  lemma WordStarts(a: string)
    requires a != "" && !IsSpace(a[0])
    ensures Word(a) != "" && a[..|Word(a)|] == Word(a)
  {
  }

  lemma Cut(a: string, n: nat, t: string)
    requires n <= |a|
    ensures a[..n] + a[n..] == a && a[..n] + (a[n..] + t) == a + t
  {
  }

  lemma FieldsConcatWord(w: string, rest: string, t: string)
    requires w != "" && SpaceFree(w) && (rest != "" ==> IsSpace(rest[0])) && (t != "" ==> IsSpace(t[0]))
    requires Fields(rest + t) == Fields(rest) + Fields(t)
    ensures Fields(w + (rest + t)) == Fields(w + rest) + Fields(t)
  {
    var whole, first, second := rest + t, Fields(rest), Fields(t);
    assert whole != "" ==> IsSpace(whole[0]);
    FieldsOfWord(w, whole);
    FieldsOfWord(w, rest);
    Associate([w], first, second);
  }

  function Sum(words: seq<string>): nat {
    if words == [] then 0 else |words[0]| + Sum(words[1..])
  }

  lemma {:induction false} SumConcat(a: seq<string>, b: seq<string>)
    ensures Sum(a + b) == Sum(a) + Sum(b)
  {
    if a == [] {
      assert a + b == b;
    } else {
      assert (a + b)[1..] == a[1..] + b;
      SumConcat(a[1..], b);
    }
  }

  /** Words and the white space in front of each fit in the text. */
  lemma {:induction false} FieldsFit(s: string)
    ensures Sum(Fields(s)) + |Fields(s)| <= |s| + if s != "" && IsSpace(s[0]) then 0 else 1
    decreases |s|
  {
    if s != "" {
      if IsSpace(s[0]) {
        FieldsFit(s[1..]);
      } else {
        WordFacts(s);
        FieldsFit(s[|Word(s)|..]);
      }
    }
  }

  // ---- what follows the name -----------------------------------------------------------------

  predicate IsWord(a: string) {
    a != "" && a[0] != ':' && NoBlanks(a)
  }

  lemma WordsRunStep(w: string, t: string)
    requires IsWord(w) && (t != "" ==> IsBlank(t[0]))
    ensures WordsRun([' '] + w + t) == [' '] + w + WordsRun(t)
  {
    var s := [' '] + w + t;
    assert s[1] == w[0] && w[0] in w;
    assert s[1..] == w + t && s[1 + |w|..] == t;
    RunIs(w, t);
  }

  function Joined(first: seq<string>, rest: Option<seq<string>>): Option<seq<string>> {
    if rest.Some? then Some(first + rest.value) else None
  }

  lemma FinishStep(w: string, words: string, rest: string)
    requires words != "" ==> words[0] == ' '
    ensures Finish([' '] + w + words, rest) == Joined(Fields(w), Finish(words, rest))
  {
    var s := [' '] + w + words;
    assert s[1..] == w + words;
    FieldsConcat(w, words);
    assert Fields(s) == Fields(w) + Fields(words);
    Associate(Fields(w), Fields(words), if StartsTrailing(rest) then NonEmpty(LineRun(rest[2..])) else []);
  }

  /** A leading word is parsed off. */
  lemma ParseArgsStep(w: string, t: string)
    requires IsWord(w) && (t != "" ==> IsBlank(t[0]))
    ensures ParseArgs([' '] + w + t) == Joined(Fields(w), ParseArgs(t))
  {
    var words := WordsRun(t);
    WordsRunStep(w, t);
    WordsRunStarts(t);
    DropPrefix([' '] + w, t, |words|);
    SplitBody([' '] + w + t, [' '] + w + words, t[|words|..]);
    FinishStep(w, words, t[|words|..]);
  }

  lemma SplitBody(s: string, words: string, rest: string)
    requires WordsRun(s) == words && s[|words|..] == rest
    ensures ParseArgs(s) == Finish(words, rest)
  {
  }

  lemma DropPrefix(a: string, t: string, n: nat)
    requires n <= |t|
    ensures (a + t)[|a| + n..] == t[n..]
  {
  }

  lemma WordsRunStarts(s: string)
    ensures WordsRun(s) != "" ==> WordsRun(s)[0] == ' '
  {
  }

  lemma {:induction false} PrintArgsStarts(args: seq<string>)
    ensures PrintArgs(args) == "" <==> args == []
    ensures args != [] ==> PrintArgs(args)[0] == ' '
  {
  }

  /** Of parsed arguments all are words without white space, except that the last may be a trailing one,
      which two characters announce. */
  lemma ParsedShape(s: string)
    requires ParseArgs(s).Some? && (s != "" ==> s[0] == ' ')
    ensures var r := ParseArgs(s).value;
            && Sum(r) + |r| <= |s|
            && (forall i :: 0 <= i < |r| - 1 ==> SpaceFree(r[i]))
            && (r != [] ==> SpaceFree(r[|r| - 1]) || Sum(r) + |r| + 1 <= |s|)
  {
    var words := WordsRun(s);
    var rest := s[|words|..];
    WordsRunStarts(s);
    FieldsFit(words);
    FieldsFacts(words);
    assert words == "" ==> Fields(words) == [];
    assert forall i :: 0 <= i < |Fields(words)| ==> Fields(words)[i] in Fields(words);
    if StartsTrailing(rest) {
      var trailing := LineRun(rest[2..]);
      SumConcat(Fields(words), NonEmpty(trailing));
      assert Sum(NonEmpty(trailing)) == |trailing|;
    }
  }

  // ---- printed arguments parsed ------------------------------------------------------------

  predicate PlainArg(a: string) {
    a != "" && a[0] != ':' && SpaceFree(a)
  }

  /** Plain arguments; the last may instead hold spaces, but no line feed. */
  ghost predicate GoodArgs(args: seq<string>) {
    && (forall i :: 0 <= i < |args| - 1 ==> PlainArg(args[i]))
    && (args != [] ==>
          var last := args[|args| - 1];
          PlainArg(last) || (' ' in last && '\n' !in last))
  }

  lemma GoodTail(args: seq<string>)
    requires args != []
    ensures |args| > 1 ==> (GoodArgs(args) <==> PlainArg(args[0]) && GoodArgs(args[1..]))
  {
    assert forall i :: 0 <= i < |args| - 1 ==> args[1..][i] == args[i + 1];
  }

  lemma TrailingParsed(a: string)
    requires ' ' in a
    ensures ParseArgs(" :" + a) == Some([a]) <==> '\n' !in a
  {
    var s := " :" + a;
    assert WordsRun(s) == "" && s[0..] == s && s[2..] == a;
    LineRunIs(a);
    assert Fields("") == [] && [] + NonEmpty(LineRun(a)) == NonEmpty(LineRun(a));
    if '\n' !in a {
      assert s[2 + |a|..] == "";
    } else {
      assert |LineRun(a)| < |a|;
    }
  }

  /** An empty argument, or one that starts with white space, ends the parse. */
  lemma BlankArgLost(s: string)
    requires |s| >= 1 && s[0] == ' ' && (|s| >= 2 ==> IsBlank(s[1]))
    ensures ParseArgs(s).Some? ==> ParseArgs(s).value == []
  {
    assert WordsRun(s) == "" && s[0..] == s;
    assert Fields("") == [];
  }

  lemma ColonArgLost(a: string, t: string)
    requires a != "" && a[0] == ':'
    ensures var r := ParseArgs([' '] + a + t);
            r.Some? ==> |r.value| <= 1 && (r.value != [] ==> |r.value[0]| < |a| + |t|)
  {
    var s := [' '] + a + t;
    assert s[1] == ':' && s[2..] == a[1..] + t;
    assert WordsRun(s) == "" && s[0..] == s;
    assert Fields("") == [] && [] + NonEmpty(LineRun(s[2..])) == NonEmpty(LineRun(s[2..]));
  }

  lemma PrintArgsCons(args: seq<string>)
    requires args != [] && !(|args| == 1 && ' ' in args[0])
    ensures PrintArgs(args) == [' '] + args[0] + PrintArgs(args[1..])
  {
    assert " " + "" == [' '];
  }

  /** An argument with white space that is not printed as a trailing one does not survive. */
  lemma SpacedArgLost(args: seq<string>)
    requires args != [] && !(|args| == 1 && ' ' in args[0]) && args[0] != "" && !SpaceFree(args[0])
    ensures ParseArgs(PrintArgs(args)) != Some(args)
  {
    var s := PrintArgs(args);
    PrintArgsStarts(args);
    PrintArgsCons(args);
    if |args| == 1 {
      assert args[1..] == [] && PrintArgs(args[1..]) == "" && Sum(args[1..]) == 0;
      assert Sum(args) == |args[0]| && |s| == 1 + |args[0]|;
    }
    if ParseArgs(s) == Some(args) {
      ParsedShape(s);
    }
  }

  /** Printed arguments parse back exactly when they are good. */
  lemma {:induction false} ArgsRoundTrip(args: seq<string>)
    ensures ParseArgs(PrintArgs(args)) == Some(args) <==> GoodArgs(args)
    decreases |args|
  {
    if args == [] {
      assert WordsRun("") == "" && Fields("") == [];
    } else {
      var a, later := args[0], args[1..];
      PrintArgsStarts(later);
      if |args| == 1 && ' ' in a {
        assert PrintArgs(args) == " " + ":" + a + "" == " :" + a;
        TrailingParsed(a);
        assert !SpaceFree(a) by {
          assert IsSpace(' ');
        }
        assert args == [a];
      } else {
        PrintArgsCons(args);
        if a == "" {
          assert PrintArgs(args) == [' '] + PrintArgs(later);
          BlankArgLost(PrintArgs(args));
        } else if a[0] == ':' {
          ColonArgLost(a, PrintArgs(later));
          if later == [] {
            assert PrintArgs(later) == "";
          }
        } else if !SpaceFree(a) {
          SpacedArgLost(args);
        } else {
          ArgsRoundTrip(later);
          PlainFirst(args);
        }
      }
    }
  }

  lemma PlainFirst(args: seq<string>)
    requires args != [] && PlainArg(args[0]) && !(|args| == 1 && ' ' in args[0])
    requires ParseArgs(PrintArgs(args[1..])) == Some(args[1..]) <==> GoodArgs(args[1..])
    ensures ParseArgs(PrintArgs(args)) == Some(args) <==> GoodArgs(args)
  {
    var a, later := args[0], args[1..];
    var r := ParseArgs(PrintArgs(later));
    PrintArgsCons(args);
    PrintArgsStarts(later);
    SpaceFreeNoBlanks(a);
    ParseArgsStep(a, PrintArgs(later));
    FieldsOfWord(a, "");
    assert a + "" == a && Fields(a) == [a];
    assert r.Some? ==> ([a] + r.value)[1..] == r.value;
    assert ParseArgs(PrintArgs(args)) == Joined([a], r) && [a] + later == args;
    GoodTail(args);
    assert |args| == 1 ==> GoodArgs(args) && GoodArgs(later);
  }

  // ---- whole messages --------------------------------------------------------------------

  ghost predicate WellFormed(ev: Event) {
    IsName(ev.name) && NoBlanks(ev.sender) && GoodArgs(ev.args)
  }

  lemma ParsedName(sender: string, name: string, args: seq<string>)
    requires IsName(name)
    ensures ParseName(sender, name + PrintArgs(args)) ==
            var r := ParseArgs(PrintArgs(args));
            if r.Some? then Some(Event(name, sender, r.value)) else None
  {
    PrintArgsStarts(args);
    NameRunIs(name, PrintArgs(args));
    assert (name + PrintArgs(args))[|name|..] == PrintArgs(args);
  }

  lemma ParsedFacts(s: string)
    requires Parse(s).Some?
    ensures IsName(Parse(s).value.name) && NoBlanks(Parse(s).value.sender)
  {
    if s[0] == ':' {
      RunFacts(s[1..]);
      NameRunFacts(s[1 + |Run(s[1..])|..][1..]);
    } else {
      NameRunFacts(s);
    }
  }

  /** An event printed and parsed is the same event exactly when its name is upper-case letters and
      digits, its sender has no white space, and its arguments are good. */
  lemma RoundTripExactly(ev: Event)
    ensures Parse(Print(ev)) == Some(ev) <==> WellFormed(ev)
  {
    if Parse(Print(ev)) == Some(ev) {
      ParsedFacts(Print(ev));
    }
    if IsName(ev.name) && NoBlanks(ev.sender) {
      ParsePrinted(ev);
      ParsedName(ev.sender, ev.name, ev.args);
      ArgsRoundTrip(ev.args);
    }
  }

  lemma ParsePrinted(ev: Event)
    requires IsName(ev.name) && NoBlanks(ev.sender)
    ensures Parse(Print(ev)) == ParseName(ev.sender, ev.name + PrintArgs(ev.args))
  {
    var body := ev.name + PrintArgs(ev.args);
    if ev.sender == "" {
      assert body[0] == ev.name[0] && ev.name[0] in ev.name;
      assert "" + ev.name == ev.name;
    } else {
      SenderOff(ev.sender, body);
      Shape(ev.sender, ev.name, PrintArgs(ev.args));
    }
  }

  lemma Shape(sender: string, name: string, args: string)
    ensures ":" + sender + " " + name + args == [':'] + (sender + ([' '] + (name + args)))
  {
  }

  lemma SenderOff(sender: string, body: string)
    requires sender != "" && NoBlanks(sender)
    ensures Parse([':'] + (sender + ([' '] + body))) == ParseName(sender, body)
  {
    var s, t := [':'] + (sender + ([' '] + body)), [' '] + body;
    RunIs(sender, t);
    assert s[0] == ':' && s[1..] == sender + t;
    DropPrefix([':'] + sender, t, 0);
    assert s == [':'] + sender + t;
    assert s[1 + |sender|..] == t;
    assert t[0] == ' ' && t[1..] == body;
  }

  // ---- the recogniser against the regular expression ------------------------------------------

  function WordsText(words: seq<string>): string {
    if words == [] then "" else [' '] + words[0] + WordsText(words[1..])
  }

  function Sent(sender: Option<string>): string {
    if sender.Some? then [':'] + (sender.value + [' ']) else ""
  }

  function Trailing(trailing: Option<string>): string {
    if trailing.Some? then " :" + trailing.value else ""
  }

  /** A way to read `s` by the expression: an optional sender, the name, the words, an optional trailing
      argument without a line feed, and white space to the end. */
  ghost predicate Reads(s: string, sender: Option<string>, name: string, words: seq<string>,
                        trailing: Option<string>, tail: string) {
    && s == Sent(sender) + (name + (WordsText(words) + (Trailing(trailing) + tail)))
    && (sender.Some? ==> sender.value != "" && NoBlanks(sender.value))
    && IsName(name)
    && (forall w :: w in words ==> IsWord(w))
    && (trailing.Some? ==> '\n' !in trailing.value)
    && AllBlank(tail)
  }

  function AllFields(words: seq<string>): seq<string> {
    if words == [] then [] else Fields(words[0]) + AllFields(words[1..])
  }

  /** The trailing group is greedy: it takes white space up to a line feed as well. */
  function ReadArgs(words: seq<string>, trailing: Option<string>, tail: string): seq<string> {
    AllFields(words) + if trailing.Some? then NonEmpty(trailing.value + LineRun(tail)) else []
  }

  lemma {:induction false} LineRunAfter(a: string, t: string)
    requires '\n' !in a
    ensures LineRun(a + t) == a + LineRun(t)
  {
    if a == "" {
      assert a + t == t;
    } else {
      assert (a + t)[1..] == a[1..] + t;
      LineRunAfter(a[1..], t);
      assert [a[0]] + a[1..] == a;
    }
  }

  lemma ReadEnd(trailing: Option<string>, tail: string)
    requires AllBlank(tail) && (trailing.Some? ==> '\n' !in trailing.value)
    ensures ParseArgs(Trailing(trailing) + tail) == Some(ReadArgs([], trailing, tail))
  {
    var s := Trailing(trailing) + tail;
    assert Fields("") == [];
    if trailing.Some? {
      assert s[2..] == trailing.value + tail;
      assert WordsRun(s) == "" && s[0..] == s;
      LineRunAfter(trailing.value, tail);
      DropPrefix(" :" + trailing.value, tail, |LineRun(tail)|);
    } else {
      assert s == tail;
      assert |s| >= 2 ==> s[1] in tail && IsBlank(s[1]);
      assert !StartsTrailing(s) && !StartsWord(s);
      assert WordsRun(s) == "" && s[0..] == s;
      assert [] + [] == AllFields([]);
      assert Finish("", s) == Some([]);
    }
  }

  lemma {:induction false} ReadBody(words: seq<string>, trailing: Option<string>, tail: string)
    requires (forall w :: w in words ==> IsWord(w)) && AllBlank(tail) && (trailing.Some? ==> '\n' !in trailing.value)
    ensures ParseArgs(WordsText(words) + (Trailing(trailing) + tail)) == Some(ReadArgs(words, trailing, tail))
  {
    var end := Trailing(trailing) + tail;
    if words == [] {
      assert WordsText(words) + end == end;
      ReadEnd(trailing, tail);
    } else {
      var later := WordsText(words[1..]) + end;
      assert words[0] in words;
      WordsTextCons(words, end);
      BodyStarts(words[1..], trailing, tail);
      ReadBody(words[1..], trailing, tail);
      ParseArgsStep(words[0], later);
      ReadArgsCons(words, trailing, tail);
      var first, more := Fields(words[0]), ReadArgs(words[1..], trailing, tail);
      assert ParseArgs(WordsText(words) + end) == Joined(first, Some(more)) == Some(first + more);
      assert ReadArgs(words, trailing, tail) == first + more;
    }
  }

  lemma WordsTextCons(words: seq<string>, end: string)
    requires words != []
    ensures WordsText(words) + end == [' '] + words[0] + (WordsText(words[1..]) + end)
  {
  }

  lemma ReadArgsCons(words: seq<string>, trailing: Option<string>, tail: string)
    requires words != []
    ensures ReadArgs(words, trailing, tail) == Fields(words[0]) + ReadArgs(words[1..], trailing, tail)
  {
    Associate(Fields(words[0]), AllFields(words[1..]),
            if trailing.Some? then NonEmpty(trailing.value + LineRun(tail)) else []);
  }

  lemma BodyStarts(words: seq<string>, trailing: Option<string>, tail: string)
    requires AllBlank(tail)
    ensures var body := WordsText(words) + (Trailing(trailing) + tail); body != "" ==> IsBlank(body[0])
  {
    assert tail != "" ==> tail[0] in tail;
  }

  /** Whatever way the expression reads a message, the recogniser answers with its groups. */
  lemma ReadsParse(s: string, sender: Option<string>, name: string, words: seq<string>,
                   trailing: Option<string>, tail: string)
    requires Reads(s, sender, name, words, trailing, tail)
    ensures Parse(s) == Some(Event(name, if sender.Some? then sender.value else "", ReadArgs(words, trailing, tail)))
  {
    var body := WordsText(words) + (Trailing(trailing) + tail);
    BodyStarts(words, trailing, tail);
    ReadBody(words, trailing, tail);
    NameOff(name, body);
    if sender.Some? {
      SenderOff(sender.value, name + body);
      SentOff(sender.value, name + body);
    } else {
      assert s == name + body && s[0] == name[0] && name[0] in name;
    }
  }

  lemma NameOff(name: string, body: string)
    requires IsName(name) && (body != "" ==> IsBlank(body[0]))
    ensures forall sender :: ParseName(sender, name + body) ==
              if ParseArgs(body).Some? then Some(Event(name, sender, ParseArgs(body).value)) else None
  {
    NameRunIs(name, body);
    assert (name + body)[|name|..] == body;
  }

  lemma SentOff(sender: string, rest: string)
    ensures [':'] + (sender + [' ']) + rest == [':'] + (sender + ([' '] + rest))
  {
  }

  lemma {:induction false} WordsRead(s: string) returns (words: seq<string>)
    ensures WordsText(words) == WordsRun(s) && forall w :: w in words ==> IsWord(w)
    decreases |s|
  {
    if !StartsWord(s) {
      words := [];
    } else {
      var w := Run(s[1..]);
      RunFacts(s[1..]);
      var later := WordsRead(s[1 + |w|..]);
      words := [w] + later;
      assert words[1..] == later;
    }
  }

  lemma NameReads(sender: string, s: string) returns (name: string, words: seq<string>, trailing: Option<string>, tail: string)
    requires ParseName(sender, s).Some?
    ensures Reads(s, None, name, words, trailing, tail)
  {
    name := NameRun(s);
    NameRunFacts(s);
    var body := s[|name|..];
    assert s == name + body;
    words := WordsRead(body);
    var rest := body[|WordsRun(body)|..];
    assert body == WordsText(words) + rest;
    trailing, tail := EndReads(WordsRun(body), rest);
    assert "" + s == s;
  }

  lemma EndReads(words: string, rest: string) returns (trailing: Option<string>, tail: string)
    requires Finish(words, rest).Some?
    ensures rest == Trailing(trailing) + tail && AllBlank(tail) && (trailing.Some? ==> '\n' !in trailing.value)
  {
    if StartsTrailing(rest) {
      var line := LineRun(rest[2..]);
      LineRunHasNone(rest[2..]);
      trailing, tail := Some(line), rest[2 + |line|..];
      assert rest == " :" + line + tail;
    } else {
      trailing, tail := None, rest;
    }
  }

  lemma {:induction false} LineRunHasNone(s: string)
    ensures '\n' !in LineRun(s)
  {
    if s != "" && s[0] != '\n' {
      LineRunHasNone(s[1..]);
    }
  }

  /** The recogniser accepts exactly the messages the expression reads. */
  lemma ParsesExactly(s: string)
    ensures Parse(s).Some? <==>
            exists sender, name, words, trailing, tail :: Reads(s, sender, name, words, trailing, tail)
  {
    if Parse(s).Some? {
      var sender, name, words, trailing, tail := ParseReads(s);
    }
    if exists sender, name, words, trailing, tail :: Reads(s, sender, name, words, trailing, tail) {
      var sender, name, words, trailing, tail :| Reads(s, sender, name, words, trailing, tail);
      ReadsParse(s, sender, name, words, trailing, tail);
    }
  }

  lemma ParseReads(s: string)
    returns (sender: Option<string>, name: string, words: seq<string>, trailing: Option<string>, tail: string)
    requires Parse(s).Some?
    ensures Reads(s, sender, name, words, trailing, tail)
  {
    if s[0] == ':' {
      var run := Run(s[1..]);
      var rest := SenderParsed(s, run);
      sender := Some(run);
      name, words, trailing, tail := NameReads(run, rest);
      PrependSender(rest, run, name, words, trailing, tail);
    } else {
      sender := None;
      name, words, trailing, tail := NameReads("", s);
    }
  }

  lemma SenderParsed(s: string, run: string) returns (rest: string)
    requires Parse(s).Some? && s[0] == ':' && run == Run(s[1..])
    ensures run != "" && NoBlanks(run) && ParseName(run, rest).Some? && s == Sent(Some(run)) + rest
  {
    RunFacts(s[1..]);
    rest := s[1 + |run|..][1..];
    SenderOn(s, run);
  }

  lemma SenderOn(s: string, run: string)
    requires s != "" && s[0] == ':' && run <= s[1..] && |run| + 1 < |s| && s[1 + |run|] == ' '
    ensures s == Sent(Some(run)) + s[1 + |run|..][1..]
  {
    assert s == [':'] + run + [' '] + s[2 + |run|..];
  }

  lemma PrependSender(rest: string, run: string, name: string, words: seq<string>, trailing: Option<string>, tail: string)
    requires Reads(rest, None, name, words, trailing, tail) && run != "" && NoBlanks(run)
    ensures Reads(Sent(Some(run)) + rest, Some(run), name, words, trailing, tail)
  {
    var read := name + (WordsText(words) + (Trailing(trailing) + tail));
    assert "" + read == read;
    assert rest == read;
  }
}
