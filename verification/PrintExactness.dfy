/** When a printed mode set reads back as itself. */
module PrintExactness {
  import opened Seqs
  import opened Text
  import opened ModeSets
  import opened ModeParsing
  import opened ModeLaws
  import opened ModePrinting

  // ---- what a list of entries builds ---------------------------------------------------

  /** The arguments printed for one letter, in order. */
  function ArgsFor(es: seq<Entry>, m: char): seq<string> {
    if es == [] then []
    else ArgsFor(es[..|es| - 1], m) + if es[|es| - 1].0 == m then [es[|es| - 1].1] else []
  }

  lemma {:induction false} ArgsForConcat(a: seq<Entry>, b: seq<Entry>, m: char)
    ensures ArgsFor(a + b, m) == ArgsFor(a, m) + ArgsFor(b, m)
    decreases |b|
  {
    if b == [] {
      assert a + b == a;
    } else {
      var init, last := b[..|b| - 1], b[|b| - 1];
      assert (a + b)[..|a + b| - 1] == a + init;
      ArgsForConcat(a, init, m);
    }
  }

  lemma {:induction false} ArgsForAbsent(es: seq<Entry>, m: char)
    requires forall e :: e in es ==> e.0 != m
    ensures ArgsFor(es, m) == []
  {
    if es != [] {
      assert es[|es| - 1] in es;
      ArgsForAbsent(es[..|es| - 1], m);
    }
  }

  lemma EntryOpsSnoc(k: ModeKinds, es: seq<Entry>)
    requires es != []
    ensures EntryOps(k, es, true) == EntryOps(k, es[..|es| - 1], true) + [EntryOp(k, es[|es| - 1], true)]
  {
    var init, last := es[..|es| - 1], [es[|es| - 1]];
    assert es == init + last && last[1..] == [];
    EntryOpsConcat(k, init, last, true);
  }

  /** The last argument of a letter is kept; of an address letter, all of them. */
  lemma {:induction false} EntriesBuild(k: ModeKinds, t: ModeSet, es: seq<Entry>, m: char)
    ensures var r, args := Run(t, EntryOps(k, es, true)), ArgsFor(es, m);
            if k.KindOf(m).ArgsAddress? then AddressList(r, m) == AddAll(AddressList(t, m), args)
            else ArgOf(r, m) == if args == [] then ArgOf(t, m) else Some(args[|args| - 1])
  {
    if es != [] {
      var init, last := es[..|es| - 1], es[|es| - 1];
      EntriesBuild(k, t, init, m);
      EntryOpsSnoc(k, es);
      RunSnoc(t, EntryOps(k, init, true), EntryOp(k, last, true));
      EntryBuilds(k, Run(t, EntryOps(k, init, true)), last, m, AddressList(t, m), ArgsFor(init, m));
    }
  }

  lemma RunSnoc(t: ModeSet, ops: seq<ModeOp>, op: ModeOp)
    ensures Run(t, ops + [op]) == Step(Run(t, ops), op)
  {
    assert (ops + [op])[..|ops|] == ops;
  }

  lemma EntryBuilds(k: ModeKinds, s: ModeSet, e: Entry, m: char, before: seq<string>, args: seq<string>)
    ensures var r, more := Step(s, EntryOp(k, e, true)), args + if e.0 == m then [e.1] else [];
            if k.KindOf(m).ArgsAddress? then
              AddressList(s, m) == AddAll(before, args) ==> AddressList(r, m) == AddAll(before, more)
            else ArgOf(r, m) == if e.0 == m then Some(e.1) else ArgOf(s, m)
  {
    assert e.0 == m ==> (args + [e.1])[..|args|] == args;
    assert args + [] == args;
  }

  lemma FlagsBuild(flags: string, m: char)
    ensures var t := Run(EMPTY_SET, FlagOps(flags, true)); AddressList(t, m) == [] && ArgOf(t, m) == None
  {
    BuildFlags(EMPTY_SET, flags);
  }

  // ---- the entries of a set ------------------------------------------------------------

  lemma {:induction false} ListArgs(m: char, list: seq<string>)
    ensures ArgsFor(ListEntries(m, list), m) == list
  {
    if list != [] {
      var first: seq<Entry> := [(m, list[0])];
      ListArgs(m, list[1..]);
      ArgsForConcat(first, ListEntries(m, list[1..]), m);
      assert first[..0] == [] && ArgsFor(first, m) == [list[0]];
      assert [list[0]] + list[1..] == list;
    }
  }

  lemma ArgsForSnoc(es: seq<Entry>, m: char)
    requires es != []
    ensures var e := es[|es| - 1];
            ArgsFor(es, m) == if e.0 == m then ArgsFor(es[..|es| - 1], m) + [e.1] else ArgsFor(es[..|es| - 1], m)
  {
  }

  lemma ArgsForCons(e: Entry, es: seq<Entry>, m: char)
    ensures ArgsFor([e] + es, m) == (if e.0 == m then [e.1] else []) + ArgsFor(es, m)
  {
    ArgsForConcat([e], es, m);
    assert [e][..0] == [];
  }

  lemma OrderTail(order: string)
    requires order != "" && NoDuplicates(order)
    ensures order == [order[0]] + order[1..] && NoDuplicates(order[1..]) && order[0] !in order[1..]
  {
    assert forall i :: 0 <= i < |order[1..]| ==> order[1..][i] == order[i + 1];
  }

  lemma {:induction false} AddressArgs(s: ModeSet, order: string, m: char)
    requires NoDuplicates(order)
    ensures ArgsFor(AddressEntries(s, order), m) == if m in order then AddressList(s, m) else []
  {
    if order != "" {
      var first, rest := order[0], order[1..];
      OrderTail(order);
      AddressArgs(s, rest, m);
      ArgsForConcat(ListEntries(first, AddressList(s, first)), AddressEntries(s, rest), m);
      ListArgsOnly(first, AddressList(s, first), m);
      assert AddressList(s, m) + [] == AddressList(s, m);
    }
  }

  lemma ListArgsOnly(first: char, list: seq<string>, m: char)
    ensures ArgsFor(ListEntries(first, list), m) == if first == m then list else []
  {
    if first == m {
      ListArgs(m, list);
    } else {
      ListEntryAt(first, list);
      ArgsForAbsent(ListEntries(first, list), m);
    }
  }

  lemma {:induction false} ArgArgs(s: ModeSet, order: string, m: char)
    requires NoDuplicates(order) && forall x :: x in order ==> x in s.args
    ensures ArgsFor(ArgEntries(s, order), m) == if m in order then [s.args[m]] else []
  {
    if order != "" {
      OrderTail(order);
      ArgArgs(s, order[1..], m);
      ArgsForCons((order[0], s.args[order[0]]), ArgEntries(s, order[1..]), m);
    }
  }

  /** An address letter is printed once per address, any other letter at most once. */
  lemma PrintedArgs(k: ModeKinds, s: ModeSet, w: Walk, m: char)
    requires Kinded(k, s) && IsWalk(w, s)
    ensures var args := ArgsFor(Entries(s, w), m);
            if k.KindOf(m).ArgsAddress? then args == AddressList(s, m)
            else args == if m in s.args then [s.args[m]] else []
  {
    assert forall x :: x in w.args <==> x in Elements(w.args);
    assert forall x :: x in w.addresses <==> x in Elements(w.addresses);
    ArgsForConcat(ArgEntries(s, w.args), AddressEntries(s, w.addresses), m);
    ArgArgs(s, w.args, m);
    AddressArgs(s, w.addresses, m);
  }

  // ---- other arguments for the same letters ------------------------------------------------

  /** The letters of the entries, as far as the arguments go. */
  function Refilled(es: seq<Entry>, args: seq<string>): seq<Entry> {
    if es == [] || args == [] then [] else [(es[0].0, args[0])] + Refilled(es[1..], args[1..])
  }

  lemma {:induction false} RefilledAt(es: seq<Entry>, args: seq<string>)
    ensures var r := Refilled(es, args);
            && |r| == (if |es| <= |args| then |es| else |args|)
            && forall i :: 0 <= i < |r| ==> r[i] == (es[i].0, args[i])
  {
    if es != [] && args != [] {
      RefilledAt(es[1..], args[1..]);
    }
  }

  /** Letters without arguments left are read as nothing. */
  lemma {:induction false} ReadRefilled(k: ModeKinds, es: seq<Entry>, args: seq<string>)
    requires KeyedEntries(k, es)
    ensures Ops(k, LettersOf(es), true, args) == EntryOps(k, Refilled(es, args), true)
  {
    if es != [] {
      var e, later := es[0], es[1..];
      assert es == [e] + later && e in es;
      OpsLetter(k, e.0, LettersOf(later), true, args);
      if args == [] {
        ReadRefilled(k, later, []);
        assert Refilled(later, []) == [];
      } else {
        ReadRefilled(k, later, args[1..]);
      }
    }
  }

  ghost predicate SameLetters(es: seq<Entry>, fs: seq<Entry>) {
    |es| <= |fs| && forall i :: 0 <= i < |es| ==> es[i].0 == fs[i].0
  }

  lemma {:induction false} FewerArgs(es: seq<Entry>, fs: seq<Entry>, m: char)
    requires SameLetters(es, fs)
    ensures |ArgsFor(es, m)| <= |ArgsFor(fs, m)|
    decreases |fs|
  {
    if fs != [] {
      var init := fs[..|fs| - 1];
      FewerArgs(if |es| == |fs| then es[..|es| - 1] else es, init, m);
    }
  }

  /** The arguments of every letter fix the entries. */
  lemma {:induction false} SameEntries(es: seq<Entry>, fs: seq<Entry>)
    requires SameLetters(es, fs) && forall m :: ArgsFor(es, m) == ArgsFor(fs, m)
    ensures es == fs
    decreases |fs|
  {
    if fs != [] {
      var init, last := fs[..|fs| - 1], fs[|fs| - 1];
      if |es| < |fs| {
        ArgsForSnoc(fs, last.0);
        FewerArgs(es, init, last.0);
      } else {
        var before, e := es[..|es| - 1], es[|es| - 1];
        ArgsForSnoc(es, e.0);
        ArgsForSnoc(fs, e.0);
        SameInit(ArgsFor(before, e.0), e.1, ArgsFor(init, e.0), last.1);
        forall m ensures ArgsFor(before, m) == ArgsFor(init, m) {
          ArgsForSnoc(es, m);
          ArgsForSnoc(fs, m);
        }
        SameEntries(before, init);
        assert es == before + [e] && fs == init + [last];
      }
    }
  }

  lemma SameInit(a: seq<string>, x: string, b: seq<string>, y: string)
    requires a + [x] == b + [y]
    ensures a == b && x == y
  {
    assert (a + [x])[..|a|] == a && (b + [y])[..|b|] == b;
    assert (a + [x])[|a|] == x && (b + [y])[|b|] == y;
  }

  lemma {:induction false} AddAllGrows(list: seq<string>, more: seq<string>)
    ensures |AddAll(list, more)| <= |list| + |more|
    ensures |AddAll(list, more)| == |list| + |more| ==> AddAll(list, more) == list + more
  {
    if more == [] {
      assert list + more == list;
    } else {
      AddAllGrows(list, more[..|more| - 1]);
      assert list + more[..|more| - 1] + [more[|more| - 1]] == list + more;
    }
  }

  /** If other arguments for the printed letters build the same set, they are the same arguments. */
  lemma OnlyTheseArgs(k: ModeKinds, s: ModeSet, w: Walk, args: seq<string>)
    requires Kinded(k, s) && IsWalk(w, s)
    requires Run(EMPTY_SET, FlagOps(w.flags, true) + EntryOps(k, Refilled(Entries(s, w), args), true)) == s
    ensures Refilled(Entries(s, w), args) == Entries(s, w)
  {
    var es, t := Entries(s, w), Run(EMPTY_SET, FlagOps(w.flags, true));
    var fs := Refilled(es, args);
    RefilledAt(es, args);
    RunConcat(EMPTY_SET, FlagOps(w.flags, true), EntryOps(k, fs, true));
    forall m ensures ArgsFor(fs, m) == ArgsFor(es, m) {
      FlagsBuild(w.flags, m);
      EntriesBuild(k, t, fs, m);
      PrintedArgs(k, s, w, m);
      FewerArgs(fs, es, m);
      AddAllGrows([], ArgsFor(fs, m));
      assert [] + ArgsFor(fs, m) == ArgsFor(fs, m);
    }
    SameEntries(fs, es);
  }

  // ---- the printed text ----------------------------------------------------------------

  /** No argument holds a space, and the last one does not end in white space and is not empty. */
  predicate ArgsSurvive(args: seq<string>) {
    && (forall a :: a in args ==> ' ' !in a)
    && (args != [] ==> var last := args[|args| - 1]; last != "" && !IsSpace(last[|last| - 1]))
  }

  lemma {:induction false} SplitParts(s: string, sep: char)
    ensures forall p :: p in Split(s, sep) ==> sep !in p
    ensures Join(Split(s, sep), sep) == s
  {
    if s != "" {
      SplitParts(s[1..], sep);
      var rest := Split(s[1..], sep);
      if s[0] == sep {
        assert ([""] + rest)[1..] == rest;
      } else {
        assert ([[s[0]] + rest[0]] + rest[1..])[1..] == rest[1..];
      }
    }
  }

  lemma {:induction false} TrimRightFacts(s: string)
    ensures var t := TrimRight(s);
            && t <= s && (t != "" ==> !IsSpace(t[|t| - 1]))
            && forall i :: |t| <= i < |s| ==> IsSpace(s[i])
  {
    if s != "" && IsSpace(s[|s| - 1]) {
      TrimRightFacts(s[..|s| - 1]);
    }
  }

  lemma JoinPrefix(parts: seq<string>, n: nat)
    requires 0 < n <= |parts|
    ensures |Join(parts[..n], ' ')| <= |Join(parts, ' ')|
    ensures |Join(parts[..n], ' ')| == |Join(parts, ' ')| ==> n == |parts|
  {
    if n == |parts| {
      assert parts[..n] == parts;
    } else {
      assert parts == parts[..n] + parts[n..];
      JoinConcat(parts[..n], parts[n..], ' ');
    }
  }

  function Printed(letters: string, args: seq<string>): string {
    letters + [' '] + Join(args, ' ')
  }

  /** Only the end of the text is trimmed, and not into the letters. */
  lemma TextTrimmed(letters: string, args: seq<string>) returns (t: string)
    requires letters != "" && SpaceFree(letters)
    ensures t == TrimSpace(Printed(letters, args)) && t <= Printed(letters, args) && letters <= t
    ensures t == letters || (|t| > |letters| && t == letters + [' '] + t[|letters| + 1..])
    ensures !IsSpace(t[|t| - 1])
  {
    var text := Printed(letters, args);
    assert letters[0] in letters && letters[|letters| - 1] in letters;
    assert text[0] == letters[0] && text[|letters| - 1] == letters[|letters| - 1];
    assert TrimLeft(text) == text;
    t := TrimRight(text);
    TrimRightFacts(text);
    assert |t| >= |letters| && t[..|letters|] == text[..|letters|] == letters;
    if |t| > |letters| {
      assert t[|letters|] == text[|letters|] == ' ';
    }
  }

  /** The letters stay whole, and what is left of the arguments is cut at spaces. */
  lemma TextSplits(letters: string, args: seq<string>) returns (left: seq<string>)
    requires letters != "" && SpaceFree(letters) && args != []
    ensures Split(TrimSpace(Printed(letters, args)), ' ') == [letters] + left
    ensures |left| >= |args| && left[..|args|] == args ==> ArgsSurvive(args)
  {
    var t := TextTrimmed(letters, args);
    assert ' ' !in letters;
    if t == letters {
      left := [];
      SplitWithoutSeparator(letters, ' ');
    } else {
      var q := t[|letters| + 1..];
      SplitAtSeparator(letters, ' ', q);
      SplitParts(q, ' ');
      left := Split(q, ' ');
      RestPrefix(letters, args, t);
      if |left| >= |args| && left[..|args|] == args {
        NothingTrimmed(args, left, q);
        LastSurvives(letters, args);
      }
    }
  }

  lemma RestPrefix(letters: string, args: seq<string>, t: string)
    requires t <= Printed(letters, args) && |t| > |letters|
    ensures t[|letters| + 1..] <= Join(args, ' ')
    ensures t[|letters| + 1..] == Join(args, ' ') ==> t == Printed(letters, args)
  {
    assert Printed(letters, args)[|letters| + 1..] == Join(args, ' ');
  }

  lemma NothingTrimmed(args: seq<string>, left: seq<string>, q: string)
    requires args != [] && |left| >= |args| && left[..|args|] == args
    requires Join(left, ' ') == q && q <= Join(args, ' ') && forall a :: a in left ==> ' ' !in a
    ensures q == Join(args, ' ') && forall a :: a in args ==> ' ' !in a
  {
    JoinPrefix(left, |args|);
    assert forall a :: a in args ==> a in left;
  }

  lemma {:induction false} JoinTail(args: seq<string>)
    requires args != [] && args[|args| - 1] == ""
    ensures Join(args, ' ') == "" || Join(args, ' ')[|Join(args, ' ')| - 1] == ' '
  {
    if |args| > 1 {
      JoinTail(args[1..]);
    }
  }

  lemma LastSurvives(letters: string, args: seq<string>)
    requires args != [] && (forall a :: a in args ==> ' ' !in a)
    requires !IsSpace(Printed(letters, args)[|Printed(letters, args)| - 1])
    ensures ArgsSurvive(args)
  {
    if args[|args| - 1] == "" {
      JoinTail(args);
    } else {
      JoinEnds(args, ' ');
    }
  }

  lemma SurvivingSplit(letters: string, args: seq<string>)
    requires letters != "" && SpaceFree(letters) && ArgsSurvive(args)
    ensures Split(TrimSpace(Join([letters] + args, ' ')), ' ') == [letters] + args
  {
    var parts := [letters] + args;
    assert letters[0] in letters && letters[|letters| - 1] in letters;
    JoinEnds(parts, ' ');
    assert letters <= Join(parts, ' ');
    TrimKeeps(Join(parts, ' '));
    SplitOfJoin(parts, ' ');
  }

  /** What the arguments of the text are read as: themselves, exactly when they survive. */
  lemma WordsRead(letters: string, args: seq<string>) returns (left: seq<string>)
    requires letters != "" && SpaceFree(letters)
    ensures Split(TrimSpace(Join([letters] + args, ' ')), ' ') == [letters] + left
    ensures ArgsSurvive(args) <==> |left| >= |args| && left[..|args|] == args
  {
    assert ([letters] + args)[1..] == args;
    if ArgsSurvive(args) {
      left := args;
      SurvivingSplit(letters, args);
    } else {
      left := TextSplits(letters, args);
    }
  }

  /** The arguments that a printed set is read with. */
  lemma PrintReadsWith(k: ModeKinds, s: ModeSet, w: Walk) returns (args: seq<string>)
    requires Kinded(k, s) && PlainLetters(s) && IsWalk(w, s)
    ensures var es := Entries(s, w);
            && OpsOf(k, Print(s, w)) == FlagOps(w.flags, true) + EntryOps(k, Refilled(es, args), true)
            && (ArgsSurvive(ArgumentsOf(es)) <==> Refilled(es, args) == es)
  {
    var es := Entries(s, w);
    var letters, printed := w.flags + LettersOf(es), ArgumentsOf(es);
    PrintedLetters(s, w);
    PrintedKinds(k, s, w);
    EntryWords(es);
    PrintIsJoin(s, w);
    if letters == "" {
      args := [];
      assert OpsOf(k, "") == [];
    } else {
      args := WordsRead(letters, printed);
      assert ([letters] + args)[1..] == args;
    }
    ReadFlags(k, w.flags, LettersOf(es), true, args);
    ReadRefilled(k, es, args);
    RefilledSame(es, args);
  }

  lemma PrintIsJoin(s: ModeSet, w: Walk)
    ensures var es := Entries(s, w);
            Print(s, w) == Join([w.flags + LettersOf(es)] + ArgumentsOf(es), ' ')
  {
    var es := Entries(s, w);
    EntryWords(es);
    assert ([w.flags + LettersOf(es)] + ArgumentsOf(es))[1..] == ArgumentsOf(es);
  }

  lemma RefilledSame(es: seq<Entry>, args: seq<string>)
    ensures Refilled(es, args) == es <==> |args| >= |es| && args[..|es|] == ArgumentsOf(es)
  {
    RefilledAt(es, args);
    EntryWords(es);
    if Refilled(es, args) == es {
      forall i | 0 <= i < |es| ensures args[i] == ArgumentsOf(es)[i] {
        assert Refilled(es, args)[i] == es[i];
      }
    }
    if |args| >= |es| && args[..|es|] == ArgumentsOf(es) {
      forall i | 0 <= i < |es| ensures Refilled(es, args)[i] == es[i] {
        assert args[..|es|][i] == ArgumentsOf(es)[i];
      }
    }
  }

  /** Whatever order the maps are walked in: applying the printed set to an empty one rebuilds it exactly
      when no printed argument holds a space and the last neither is empty nor ends in white space. */
  lemma PrintAppliesExactly(k: ModeKinds, s: ModeSet, w: Walk)
    requires Valid(s) && Kinded(k, s) && PlainLetters(s) && IsWalk(w, s)
    ensures Run(EMPTY_SET, OpsOf(k, Print(s, w))) == s <==> ArgsSurvive(ArgumentsOf(Entries(s, w)))
  {
    var args := PrintReadsWith(k, s, w);
    if ArgsSurvive(ArgumentsOf(Entries(s, w))) {
      BuildSet(k, s, w);
    } else if Run(EMPTY_SET, OpsOf(k, Print(s, w))) == s {
      OnlyTheseArgs(k, s, w, args);
    }
  }

  /** The same for every set reached by applying modestrings one after the other. */
  lemma ReachedPrintExactly(k: ModeKinds, modestrings: seq<string>, w: Walk)
    requires PlainLetters(Reached(k, modestrings)) && IsWalk(w, Reached(k, modestrings))
    ensures Run(EMPTY_SET, OpsOf(k, Print(Reached(k, modestrings), w))) == Reached(k, modestrings) <==>
            ArgsSurvive(ArgumentsOf(Entries(Reached(k, modestrings), w)))
  {
    ReachedKeeps(k, modestrings);
    PrintAppliesExactly(k, Reached(k, modestrings), w);
  }

  lemma FrontParts(a: string, b: string, c: string, d: string)
    ensures var t := a + (b + c) + d;
            |a| + |b| <= |t| && t[..|a|] == a && t[|a|..|a| + |b|] == b
  {
  }

  lemma PrintedParts(s: ModeSet, w: Walk)
    ensures var text := Print(s, w);
            && |w.flags| + |w.args| <= |text|
            && text[..|w.flags|] == w.flags && text[|w.flags|..|w.flags| + |w.args|] == w.args
  {
    var es := Entries(s, w);
    ArgLetters(s, w.args);
    LettersOfConcat(ArgEntries(s, w.args), AddressEntries(s, w.addresses));
    FrontParts(w.flags, w.args, LettersOf(AddressEntries(s, w.addresses)),
               if es == [] then "" else " " + Join(ArgumentsOf(es), ' '));
  }

  /** The printed letters begin with the flags, each once, and go on with the modes that have one argument,
      each once. */
  lemma PrintedInOrder(s: ModeSet, w: Walk)
    requires IsWalk(w, s)
    ensures var text, f, a := Print(s, w), |s.flags|, |s.args|;
            && f + a <= |text|
            && Elements(text[..f]) == s.flags && NoDuplicates(text[..f])
            && Elements(text[f..f + a]) == s.args.Keys && NoDuplicates(text[f..f + a])
  {
    OrderSize(w.flags);
    OrderSize(w.args);
    assert |s.args.Keys| == |s.args|;
    PrintedParts(s, w);
  }
}
