/** Diffs printed as modestrings and read back: exactly which come back unchanged. */
module DiffPrinting {
  import opened Seqs
  import opened Text
  import opened ModeSets
  import opened ModeParsing
  import opened ModeLaws
  import opened ModePrinting

  /** A removed on-set mode prints an empty argument; everything else is printable. */
  ghost predicate PrintableDiff(k: ModeKinds, d: DiffSet) {
    && Printable(d.pos)
    && PlainLetters(d.neg)
    && PlainAddresses(d.neg)
    && forall m :: m in d.neg.args && k.KindOf(m).ArgsAlways? ==> PlainWord(d.neg.args[m])
  }

  /** In print order, no entry that takes an argument follows a removed on-set mode. */
  ghost predicate TakersFirst(k: ModeKinds, es: seq<Entry>) {
    forall i, j :: 0 <= i < j < |es| && k.KindOf(es[i].0).ArgsOnset? ==> k.KindOf(es[j].0).ArgsOnset?
  }

  /** An on-set mode both given and removed, as `-l+l 10` leaves it. */
  ghost predicate OnsetOnBothSides(k: ModeKinds, d: DiffSet) {
    exists m :: k.KindOf(m).ArgsOnset? && m in d.pos.args && m in d.neg.args
  }

  function PrintedDiff(d: DiffSet, wp: Walk, wn: Walk): string {
    PrintDiff(Print(d.pos, wp), Print(d.neg, wn))
  }

  // ---- the printed text as words ---------------------------------------------------

  function Tail(args: seq<string>): string {
    if args == [] then "" else " " + Join(args, ' ')
  }

  lemma TailConcat(a: seq<string>, b: seq<string>)
    ensures Tail(a + b) == Tail(a) + Tail(b)
  {
    if a == [] {
      assert a + b == b;
    } else if b == [] {
      assert a + b == a;
    } else {
      JoinConcat(a, b, ' ');
      Associate(Join(a, ' '), " ", Join(b, ' '));
      Associate(" ", Join(a, ' '), " " + Join(b, ' '));
    }
  }

  function DropBlanks(args: seq<string>): (kept: seq<string>)
    ensures kept <= args
  {
    if args != [] && args[|args| - 1] == "" then DropBlanks(args[..|args| - 1]) else args
  }

  lemma {:induction false} DropBlanksAfter(a: seq<string>, b: seq<string>)
    requires forall x :: x in a ==> x != ""
    ensures DropBlanks(a + b) == a + DropBlanks(b)
  {
    if b == [] {
      assert a + b == a;
      assert a != [] ==> a[|a| - 1] in a;
    } else {
      assert (a + b)[..|a + b| - 1] == a + b[..|b| - 1];
      DropBlanksAfter(a, b[..|b| - 1]);
    }
  }

  lemma {:induction false} DropBlanksKeeps(args: seq<string>, i: nat)
    requires i < |args| && args[i] != ""
    ensures i < |DropBlanks(args)|
  {
    if args[|args| - 1] == "" {
      DropBlanksKeeps(args[..|args| - 1], i);
    }
  }

  /** Trimming a printed text drops its trailing empty arguments. */
  lemma {:induction false} TrimDropsBlanks(letters: string, args: seq<string>)
    requires PlainWord(letters) && forall a :: a in args ==> SpaceFree(a)
    ensures TrimRight(letters + Tail(args)) == letters + Tail(DropBlanks(args))
  {
    if args == [] {
      assert letters[|letters| - 1] in letters && letters + "" == letters;
    } else {
      var init, last := args[..|args| - 1], args[|args| - 1];
      assert args == init + [last] && last in args;
      TailConcat(init, [last]);
      TrimStep(letters + Tail(init), last);
      Associate(letters, Tail(init), " " + last);
      if last == "" {
        TrimDropsBlanks(letters, init);
      }
    }
  }

  lemma TrimStep(text: string, last: string)
    requires SpaceFree(last)
    ensures TrimRight(text + (" " + last)) == if last == "" then TrimRight(text) else text + (" " + last)
  {
    var whole := text + (" " + last);
    if last == "" {
      assert whole[..|whole| - 1] == text;
    } else {
      assert whole[|whole| - 1] == last[|last| - 1] && last[|last| - 1] in last;
    }
  }

  lemma OpsOfText(k: ModeKinds, letters: string, args: seq<string>)
    requires PlainWord(letters) && forall a :: a in args ==> SpaceFree(a)
    ensures OpsOf(k, letters + Tail(args)) == Ops(k, letters, true, DropBlanks(args))
  {
    var parts := [letters] + DropBlanks(args);
    assert letters[0] in letters;
    assert TrimLeft(letters + Tail(args)) == letters + Tail(args);
    TrimDropsBlanks(letters, args);
    assert Join(parts, ' ') == letters + Tail(DropBlanks(args)) by {
      assert parts[1..] == DropBlanks(args);
    }
    forall p | p in parts ensures ' ' !in p {
      if p != letters {
        assert p in DropBlanks(args) && p in args;
      }
    }
    SplitOfJoin(parts, ' ');
  }

  function LettersIn(s: ModeSet, w: Walk): string {
    w.flags + LettersOf(Entries(s, w))
  }

  function Signed(sign: char, letters: string): string {
    if letters == "" then "" else [sign] + letters
  }

  lemma PrintSplits(s: ModeSet, w: Walk)
    requires IsWalk(w, s) && PlainLetters(s)
    ensures var text := Print(s, w);
            && text[..IndexOf(text, ' ')] == LettersIn(s, w)
            && text[IndexOf(text, ' ')..] == Tail(ArgumentsOf(Entries(s, w)))
            && (text == "" <==> LettersIn(s, w) == "")
  {
    var es := Entries(s, w);
    PrintedLetters(s, w);
    EntryWords(es);
    var tail := Tail(ArgumentsOf(es));
    assert Print(s, w) == LettersIn(s, w) + tail;
    IndexAfter(LettersIn(s, w), tail, ' ');
  }

  lemma PrintedDiffText(d: DiffSet, wp: Walk, wn: Walk)
    requires IsWalk(wp, d.pos) && IsWalk(wn, d.neg) && PlainLetters(d.pos) && PlainLetters(d.neg)
    ensures PrintedDiff(d, wp, wn) ==
            Signed('+', LettersIn(d.pos, wp)) + Signed('-', LettersIn(d.neg, wn)) +
            Tail(ArgumentsOf(Entries(d.pos, wp)) + ArgumentsOf(Entries(d.neg, wn)))
  {
    PrintSplits(d.pos, wp);
    PrintSplits(d.neg, wn);
    var ap, an := ArgumentsOf(Entries(d.pos, wp)), ArgumentsOf(Entries(d.neg, wn));
    TailConcat(ap, an);
    Associate(Signed('+', LettersIn(d.pos, wp)) + Signed('-', LettersIn(d.neg, wn)), Tail(ap), Tail(an));
  }

  // ---- what the printed text asks for -----------------------------------------------

  /** The operations read from the negative half. */
  function NegativeOps(k: ModeKinds, s: ModeSet, w: Walk): seq<ModeOp> {
    FlagOps(w.flags, false) +
    Ops(k, LettersOf(Entries(s, w)), false, DropBlanks(ArgumentsOf(Entries(s, w))))
  }

  ghost predicate NegativeEntries(k: ModeKinds, es: seq<Entry>) {
    forall e :: e in es ==> if k.KindOf(e.0).ArgsOnset? then e.1 == "" else PlainWord(e.1)
  }

  lemma ArgumentsSpaceFree(es: seq<Entry>)
    requires forall e :: e in es ==> SpaceFree(e.1)
    ensures forall a :: a in ArgumentsOf(es) ==> SpaceFree(a)
  {
    EntryWords(es);
    forall a | a in ArgumentsOf(es) ensures SpaceFree(a) {
      var i :| 0 <= i < |es| && ArgumentsOf(es)[i] == a;
      assert es[i] in es;
    }
  }

  lemma NegativeWords(k: ModeKinds, d: DiffSet, w: Walk)
    requires IsWalk(w, d.neg) && KindedDiff(k, d) && PrintableDiff(k, d)
    ensures NegativeEntries(k, Entries(d.neg, w)) && KeyedEntries(k, Entries(d.neg, w)) && FlagLetters(k, w.flags)
    ensures forall a :: a in ArgumentsOf(Entries(d.neg, w)) ==> SpaceFree(a)
  {
    EntriesOf(d.neg, w);
    PrintedKinds(k, d.neg, w);
    ArgumentsSpaceFree(Entries(d.neg, w));
  }

  lemma TextOps(k: ModeKinds, d: DiffSet, wp: Walk, wn: Walk)
    requires IsWalk(wp, d.pos) && IsWalk(wn, d.neg) && KindedDiff(k, d) && PrintableDiff(k, d)
    ensures var letters := Signed('+', LettersIn(d.pos, wp)) + Signed('-', LettersIn(d.neg, wn));
            var ap, an := ArgumentsOf(Entries(d.pos, wp)), ArgumentsOf(Entries(d.neg, wn));
            letters != "" ==> OpsOf(k, PrintedDiff(d, wp, wn)) == Ops(k, letters, true, ap + DropBlanks(an))
  {
    var ap, an := ArgumentsOf(Entries(d.pos, wp)), ArgumentsOf(Entries(d.neg, wn));
    var letters := Signed('+', LettersIn(d.pos, wp)) + Signed('-', LettersIn(d.neg, wn));
    PrintedDiffText(d, wp, wn);
    if letters != "" {
      PrintedWords(d.pos, wp);
      NegativeWords(k, d, wn);
      SignedLetters(d, wp, wn);
      OpsOfText(k, letters, ap + an);
      DropBlanksAfter(ap, an);
    }
  }

  lemma SignedLetters(d: DiffSet, wp: Walk, wn: Walk)
    requires IsWalk(wp, d.pos) && IsWalk(wn, d.neg) && PlainLetters(d.pos) && PlainLetters(d.neg)
    ensures SpaceFree(Signed('+', LettersIn(d.pos, wp)) + Signed('-', LettersIn(d.neg, wn)))
  {
    PrintedLetters(d.pos, wp);
    PrintedLetters(d.neg, wn);
    SpaceFreeConcat("+", LettersIn(d.pos, wp));
    SpaceFreeConcat("-", LettersIn(d.neg, wn));
    SpaceFreeConcat(Signed('+', LettersIn(d.pos, wp)), Signed('-', LettersIn(d.neg, wn)));
  }

  lemma OpsOfPrintedDiff(k: ModeKinds, d: DiffSet, wp: Walk, wn: Walk)
    requires IsWalk(wp, d.pos) && IsWalk(wn, d.neg) && KindedDiff(k, d) && PrintableDiff(k, d)
    ensures OpsOf(k, PrintedDiff(d, wp, wn)) == PrintedOps(k, d.pos, wp, true) + NegativeOps(k, d.neg, wn)
  {
    TextOps(k, d, wp, wn);
    PrintedKinds(k, d.neg, wn);
    ReadSecond(k, d.neg, wn);
    ReadHalves(k, d.pos, wp, Signed('-', LettersIn(d.neg, wn)), DropBlanks(ArgumentsOf(Entries(d.neg, wn))));
    if Signed('+', LettersIn(d.pos, wp)) + Signed('-', LettersIn(d.neg, wn)) == "" {
      NothingPrinted(k, d, wp, wn);
    }
  }

  lemma NothingPrinted(k: ModeKinds, d: DiffSet, wp: Walk, wn: Walk)
    requires IsWalk(wp, d.pos) && IsWalk(wn, d.neg) && PlainLetters(d.pos) && PlainLetters(d.neg)
    requires LettersIn(d.pos, wp) == "" && LettersIn(d.neg, wn) == ""
    ensures OpsOf(k, PrintedDiff(d, wp, wn)) == PrintedOps(k, d.pos, wp, true) + NegativeOps(k, d.neg, wn)
  {
    EntryWords(Entries(d.pos, wp));
    EntryWords(Entries(d.neg, wn));
    PrintedDiffText(d, wp, wn);
    assert PrintedDiff(d, wp, wn) == "";
    assert OpsOf(k, "") == [];
  }

  lemma ReadSecond(k: ModeKinds, s: ModeSet, w: Walk)
    requires FlagLetters(k, w.flags)
    ensures Ops(k, Signed('-', LettersIn(s, w)), true, DropBlanks(ArgumentsOf(Entries(s, w)))) == NegativeOps(k, s, w)
  {
    var es := Entries(s, w);
    EntryWords(es);
    ReadFlags(k, w.flags, LettersOf(es), false, DropBlanks(ArgumentsOf(es)));
    if LettersIn(s, w) != "" {
      OpsSign(k, '-', LettersIn(s, w), true, DropBlanks(ArgumentsOf(es)));
    }
  }

  lemma ReadHalves(k: ModeKinds, s: ModeSet, w: Walk, rest: string, more: seq<string>)
    requires IsWalk(w, s) && Kinded(k, s)
    ensures Ops(k, Signed('+', LettersIn(s, w)) + rest, true, ArgumentsOf(Entries(s, w)) + more) ==
            PrintedOps(k, s, w, true) + Ops(k, rest, true, more)
  {
    var es := Entries(s, w);
    var letters, args := LettersIn(s, w), ArgumentsOf(es) + more;
    EntryWords(es);
    PrintedKinds(k, s, w);
    ReadSigned(k, letters, rest, args);
    assert letters + rest == w.flags + (LettersOf(es) + rest);
    ReadFlags(k, w.flags, LettersOf(es) + rest, true, args);
    ReadPositive(k, es, rest, more);
    Associate(FlagOps(w.flags, true), EntryOps(k, es, true), Ops(k, rest, true, more));
  }

  lemma ReadSigned(k: ModeKinds, letters: string, rest: string, args: seq<string>)
    ensures Ops(k, Signed('+', letters) + rest, true, args) == Ops(k, letters + rest, true, args)
  {
    if letters != "" {
      assert Signed('+', letters) + rest == ['+'] + (letters + rest);
      OpsSign(k, '+', letters + rest, true, args);
    }
  }

  lemma {:induction false} ReadOnset(k: ModeKinds, es: seq<Entry>, args: seq<string>)
    requires KeyedEntries(k, es) && NegativeEntries(k, es)
    requires forall e :: e in es ==> k.KindOf(e.0).ArgsOnset?
    ensures Ops(k, LettersOf(es), false, args) == EntryOps(k, es, false)
    decreases |es|
  {
    if es != [] {
      assert es[0] in es;
      OpsLetter(k, es[0].0, LettersOf(es[1..]), false, args);
      ReadOnset(k, es[1..], args);
    }
  }

  /** With the takers first, the negative half is read as it was written. */
  lemma {:induction false} ReadNegative(k: ModeKinds, es: seq<Entry>)
    requires KeyedEntries(k, es) && NegativeEntries(k, es) && TakersFirst(k, es)
    ensures Ops(k, LettersOf(es), false, DropBlanks(ArgumentsOf(es))) == EntryOps(k, es, false)
    decreases |es|
  {
    if es != [] {
      var args, rest := ArgumentsOf(es), es[1..];
      assert es[0] in es && es == [es[0]] + rest;
      if k.KindOf(es[0].0).ArgsOnset? {
        forall e | e in es ensures k.KindOf(e.0).ArgsOnset? {
          var j :| 0 <= j < |es| && es[j] == e;
        }
        ReadOnset(k, es, DropBlanks(args));
      } else {
        SkipTaker(k, es);
        assert forall i :: 0 <= i < |rest| ==> rest[i] == es[i + 1];
        ReadNegative(k, rest);
      }
    }
  }

  /** An operation that takes an empty argument where one was due. */
  predicate Blank(k: ModeKinds, op: ModeOp) {
    (op.UnsetArg? && k.KindOf(op.mode).ArgsAlways? && op.arg == "") || (op.UnsetAddress? && op.arg == "")
  }

  lemma {:induction false} BlankTaken(k: ModeKinds, es: seq<Entry>, args: seq<string>)
    requires KeyedEntries(k, es) && args != [] && args[0] == ""
    requires exists e :: e in es && !k.KindOf(e.0).ArgsOnset?
    ensures exists op :: op in Ops(k, LettersOf(es), false, args) && Blank(k, op)
    decreases |es|
  {
    assert es[0] in es && es == [es[0]] + es[1..];
    OpsLetter(k, es[0].0, LettersOf(es[1..]), false, args);
    if k.KindOf(es[0].0).ArgsOnset? {
      BlankTaken(k, es[1..], args);
    } else {
      assert Blank(k, EntryOp(k, (es[0].0, ""), false));
      assert EntryOp(k, (es[0].0, ""), false) in Ops(k, LettersOf(es), false, args);
    }
  }

  /** Otherwise some mode takes the empty argument that the on-set mode printed. */
  lemma {:induction false} MisreadNegative(k: ModeKinds, es: seq<Entry>)
    requires KeyedEntries(k, es) && NegativeEntries(k, es) && !TakersFirst(k, es)
    ensures exists op :: op in Ops(k, LettersOf(es), false, DropBlanks(ArgumentsOf(es))) && Blank(k, op)
    decreases |es|
  {
    var i, j :| 0 <= i < j < |es| && k.KindOf(es[i].0).ArgsOnset? && !k.KindOf(es[j].0).ArgsOnset?;
    var args, rest := ArgumentsOf(es), es[1..];
    assert es[0] in es && es[j] in es;
    EntryWords(es);
    assert args[j] != "";
    DropBlanksKeeps(args, j);
    if k.KindOf(es[0].0).ArgsOnset? {
      assert DropBlanks(args)[0] == args[0] == "";
      BlankTaken(k, es, DropBlanks(args));
    } else {
      assert rest[i - 1] == es[i] && rest[j - 1] == es[j];
      MisreadNegative(k, rest);
      SkipTaker(k, es);
    }
  }

  lemma SkipTaker(k: ModeKinds, es: seq<Entry>)
    requires es != [] && KeyedEntries(k, es) && NegativeEntries(k, es) && !k.KindOf(es[0].0).ArgsOnset?
    ensures Ops(k, LettersOf(es), false, DropBlanks(ArgumentsOf(es))) ==
            [EntryOp(k, es[0], false)] + Ops(k, LettersOf(es[1..]), false, DropBlanks(ArgumentsOf(es[1..])))
  {
    assert es[0] in es;
    DropBlanksAfter([es[0].1], ArgumentsOf(es[1..]));
    OpsLetter(k, es[0].0, LettersOf(es[1..]), false, DropBlanks(ArgumentsOf(es)));
  }

  // ---- what the operations build ------------------------------------------------------

  function Opposites(ops: seq<ModeOp>): seq<ModeOp> {
    seq(|ops|, i requires 0 <= i < |ops| => Opposite(ops[i]))
  }

  /** The two halves of a diff run independently. */
  lemma {:induction false} RunHalves(d: DiffSet, ops: seq<ModeOp>)
    ensures RunDiff(d, ops) == DiffSet(Run(d.pos, ops), Run(d.neg, Opposites(ops)))
  {
    if ops != [] {
      assert Opposites(ops)[..|ops| - 1] == Opposites(ops[..|ops| - 1]);
      RunHalves(d, ops[..|ops| - 1]);
    }
  }

  lemma {:induction false} NoEffect(s: ModeSet, ops: seq<ModeOp>)
    requires forall op :: op in ops ==> Step(s, op) == s
    ensures Run(s, ops) == s
  {
    if ops != [] {
      assert ops[|ops| - 1] in ops;
      NoEffect(s, ops[..|ops| - 1]);
    }
  }

  lemma {:induction false} EntryOpAt(k: ModeKinds, es: seq<Entry>, adding: bool)
    ensures |EntryOps(k, es, adding)| == |es|
    ensures forall i :: 0 <= i < |es| ==> EntryOps(k, es, adding)[i] == EntryOp(k, es[i], adding)
  {
    if es != [] {
      EntryOpAt(k, es[1..], adding);
    }
  }

  lemma {:induction false} FlagOpAt(flags: string, adding: bool)
    ensures |FlagOps(flags, adding)| == |flags|
    ensures forall i :: 0 <= i < |flags| ==>
              FlagOps(flags, adding)[i] == if adding then SetMode(flags[i]) else UnsetMode(flags[i])
  {
    if flags != "" {
      FlagOpAt(flags[1..], adding);
    }
  }

  lemma OppositeFlags(flags: string, adding: bool)
    ensures Opposites(FlagOps(flags, adding)) == FlagOps(flags, !adding)
  {
    FlagOpAt(flags, adding);
    FlagOpAt(flags, !adding);
  }

  lemma OppositeEntries(k: ModeKinds, es: seq<Entry>, adding: bool)
    ensures Opposites(EntryOps(k, es, adding)) == EntryOps(k, es, !adding)
  {
    EntryOpAt(k, es, adding);
    EntryOpAt(k, es, !adding);
  }

  lemma OppositesConcat(a: seq<ModeOp>, b: seq<ModeOp>)
    ensures Opposites(a + b) == Opposites(a) + Opposites(b)
  {
  }

  lemma PrintedOppositeOf(k: ModeKinds, s: ModeSet, w: Walk, adding: bool)
    ensures Opposites(PrintedOps(k, s, w, adding)) == PrintedOps(k, s, w, !adding)
  {
    OppositeFlags(w.flags, adding);
    OppositeEntries(k, Entries(s, w), adding);
    OppositesConcat(FlagOps(w.flags, adding), EntryOps(k, Entries(s, w), adding));
  }

  /** The printed removals of a set, one by one. */
  lemma PrintedRemovals(k: ModeKinds, s: ModeSet, w: Walk)
    requires IsWalk(w, s) && Kinded(k, s)
    ensures forall op :: op in PrintedOps(k, s, w, false) ==>
              || (op.UnsetMode? && op.mode in s.flags)
              || (op.UnsetArg? && op.mode in s.args && op.arg == s.args[op.mode])
              || (op.UnsetAddress? && op.arg in AddressesOf(s, op.mode))
  {
    var ops, es := PrintedOps(k, s, w, false), Entries(s, w);
    FlagOpAt(w.flags, false);
    EntryOpAt(k, es, false);
    EntriesOf(s, w);
    forall op | op in ops
      ensures || (op.UnsetMode? && op.mode in s.flags)
              || (op.UnsetArg? && op.mode in s.args && op.arg == s.args[op.mode])
              || (op.UnsetAddress? && op.arg in AddressesOf(s, op.mode))
    {
      var i :| 0 <= i < |ops| && ops[i] == op;
      if i < |w.flags| {
        assert w.flags[i] in Elements(w.flags);
      } else {
        assert op == EntryOp(k, es[i - |w.flags|], false) && es[i - |w.flags|] in es;
      }
    }
  }

  /** Removals of what one half holds leave the other half alone. */
  lemma OtherHalfKept(k: ModeKinds, d: DiffSet, w: Walk)
    requires Apart(d) && KindedDiff(k, d) && PrintableDiff(k, d) && IsWalk(w, d.neg) && !OnsetOnBothSides(k, d)
    ensures Run(d.pos, PrintedOps(k, d.neg, w, false)) == d.pos
  {
    PrintedRemovals(k, d.neg, w);
    forall op | op in PrintedOps(k, d.neg, w, false) ensures Step(d.pos, op) == d.pos {
      if op.UnsetArg? {
        assert op.mode in d.neg.args && op.arg == d.neg.args[op.mode];
        assert k.KindOf(op.mode).ArgsOnset? ==> op.mode !in d.pos.args;
      } else if op.UnsetAddress? {
        assert op.arg in AddressesOf(d.neg, op.mode) && op.arg !in AddressesOf(d.pos, op.mode);
        assert Elements(AddressList(d.pos, op.mode)) == AddressesOf(d.pos, op.mode);
      } else {
        assert op.mode !in d.pos.flags;
      }
    }
    NoEffect(d.pos, PrintedOps(k, d.neg, w, false));
  }

  lemma RemovalFromEmpty(op: ModeOp)
    requires op.UnsetMode? || op.UnsetArg? || op.UnsetAddress?
    ensures Step(EMPTY_SET, op) == EMPTY_SET
  {
  }

  lemma EmptyKept(k: ModeKinds, s: ModeSet, w: Walk)
    requires IsWalk(w, s) && Kinded(k, s)
    ensures Run(EMPTY_SET, PrintedOps(k, s, w, false)) == EMPTY_SET
  {
    PrintedRemovals(k, s, w);
    forall op | op in PrintedOps(k, s, w, false) ensures Step(EMPTY_SET, op) == EMPTY_SET {
      RemovalFromEmpty(op);
    }
    NoEffect(EMPTY_SET, PrintedOps(k, s, w, false));
  }

  lemma Rebuilt(k: ModeKinds, d: DiffSet, wp: Walk, wn: Walk)
    requires Valid(d.pos) && Valid(d.neg) && Apart(d) && KindedDiff(k, d) && PrintableDiff(k, d)
    requires IsWalk(wp, d.pos) && IsWalk(wn, d.neg)
    requires TakersFirst(k, Entries(d.neg, wn)) && !OnsetOnBothSides(k, d)
    ensures RunDiff(EMPTY_DIFF, OpsOf(k, PrintedDiff(d, wp, wn))) == d
  {
    var posOps, negOps := PrintedOps(k, d.pos, wp, true), PrintedOps(k, d.neg, wn, false);
    OpsOfPrintedDiff(k, d, wp, wn);
    NegativeWords(k, d, wn);
    ReadNegative(k, Entries(d.neg, wn));
    assert NegativeOps(k, d.neg, wn) == negOps;
    RunDiffConcat(EMPTY_DIFF, posOps, negOps);
    RunHalves(EMPTY_DIFF, posOps);
    BuildSet(k, d.pos, wp);
    PrintedOppositeOf(k, d.pos, wp, true);
    EmptyKept(k, d.pos, wp);
    assert RunDiff(EMPTY_DIFF, posOps) == DiffSet(d.pos, EMPTY_SET);
    RunHalves(DiffSet(d.pos, EMPTY_SET), negOps);
    PrintedOppositeOf(k, d.neg, wn, false);
    BuildSet(k, d.neg, wn);
    OtherHalfKept(k, d, wn);
  }

  // ---- and what goes wrong otherwise -----------------------------------------------

  lemma {:induction false} NegativeLetters(k: ModeKinds, letters: string, args: seq<string>)
    requires '+' !in letters && '-' !in letters
    ensures forall op :: op in Ops(k, letters, false, args) ==> !op.SetArg? && !op.SetAddress?
    ensures forall m :: m in letters && k.KindOf(m).ArgsOnset? ==> UnsetArg(m, "") in Ops(k, letters, false, args)
  {
    if letters != "" {
      assert letters == [letters[0]] + letters[1..];
      OpsLetter(k, letters[0], letters[1..], false, args);
      NegativeLetters(k, letters[1..], if Consumes(k, letters[0], false) && args != [] then args[1..] else args);
    }
  }

  lemma {:induction false} StaysCut(s: ModeSet, ops: seq<ModeOp>, m: char)
    requires (forall op :: op in ops ==> !op.SetArg?) && UnsetArg(m, "") in ops
    ensures ArgOf(Run(s, ops), m) == None
  {
    var init, last := ops[..|ops| - 1], ops[|ops| - 1];
    assert ops == init + [last];
    StepArgOf(Run(s, init), last, m);
    if last != UnsetArg(m, "") {
      assert !last.SetArg?;
      StaysCut(s, init, m);
    }
  }

  lemma {:induction false} AddressStays(s: ModeSet, ops: seq<ModeOp>, m: char, a: string)
    requires Valid(s) && (forall op :: op in ops ==> !op.UnsetAddress?) && SetAddress(m, a) in ops
    ensures a in AddressesOf(Run(s, ops), m)
  {
    var init, last := ops[..|ops| - 1], ops[|ops| - 1];
    assert ops == init + [last];
    RunKeepsValid(s, init);
    StepAddresses(Run(s, init), last, m);
    if last != SetAddress(m, a) {
      assert !last.UnsetAddress?;
      AddressStays(s, init, m, a);
    }
  }

  lemma {:induction false} EditsHold(ops: seq<ModeOp>, m: char, a: string)
    requires UnsetArg(m, a) in ops
    ensures Cut(a) in Edits(ops, m)
  {
    var init, last := ops[..|ops| - 1], ops[|ops| - 1];
    assert ops == init + [last];
    EditsSnoc(ops, m);
    if last != UnsetArg(m, a) {
      EditsHold(init, m, a);
    }
  }

  lemma NegativeOpsFacts(k: ModeKinds, d: DiffSet, wn: Walk)
    requires IsWalk(wn, d.neg) && KindedDiff(k, d) && PrintableDiff(k, d)
    ensures var ops := NegativeOps(k, d.neg, wn);
            && (forall op :: op in ops ==> !op.SetArg? && !op.SetAddress?)
            && (forall m :: m in d.neg.args && k.KindOf(m).ArgsOnset? ==> UnsetArg(m, "") in ops)
  {
    var es := Entries(d.neg, wn);
    NegativeWords(k, d, wn);
    EntryWords(es);
    forall c | c in LettersOf(es) ensures c !in "+-" {
      var i :| 0 <= i < |es| && LettersOf(es)[i] == c;
      assert es[i] in es;
    }
    NegativeLetters(k, LettersOf(es), DropBlanks(ArgumentsOf(es)));
    FlagOpAt(wn.flags, false);
    assert forall m :: m in wn.args ==> m in Elements(wn.args);
    ArgEntryAt(d.neg, wn.args);
    forall m | m in d.neg.args ensures m in LettersOf(es) {
      assert m in Elements(wn.args);
      var i :| 0 <= i < |wn.args| && wn.args[i] == m;
      assert es[i] == ArgEntries(d.neg, wn.args)[i];
    }
  }

  /** An on-set mode on both sides: the reread removal takes the reread argument away. */
  lemma BothSidesLost(k: ModeKinds, d: DiffSet, wp: Walk, wn: Walk)
    requires KindedDiff(k, d) && PrintableDiff(k, d) && IsWalk(wp, d.pos) && IsWalk(wn, d.neg)
    requires OnsetOnBothSides(k, d)
    ensures RunDiff(EMPTY_DIFF, OpsOf(k, PrintedDiff(d, wp, wn))) != d
  {
    var m :| k.KindOf(m).ArgsOnset? && m in d.pos.args && m in d.neg.args;
    var posOps, negOps := PrintedOps(k, d.pos, wp, true), NegativeOps(k, d.neg, wn);
    OpsOfPrintedDiff(k, d, wp, wn);
    NegativeOpsFacts(k, d, wn);
    RunHalves(EMPTY_DIFF, posOps + negOps);
    RunConcat(EMPTY_SET, posOps, negOps);
    StaysCut(Run(EMPTY_SET, posOps), negOps, m);
  }

  lemma {:induction false} AddressLettersAre(k: ModeKinds, s: ModeSet, order: string, m: char)
    requires (forall x :: x in order ==> k.KindOf(x).ArgsAddress?) && !k.KindOf(m).ArgsAddress?
    ensures Occurrences(LettersOf(AddressEntries(s, order)), m) == 0
  {
    AddressEntryAt(s, order);
    var es := AddressEntries(s, order);
    EntryWords(es);
    forall i | 0 <= i < |es| ensures LettersOf(es)[i] != m {
      assert es[i] in es;
    }
    AbsentOccurs(LettersOf(es), m);
  }

  lemma {:induction false} AbsentOccurs(s: string, m: char)
    requires m !in s
    ensures Occurrences(s, m) == 0
  {
    if s != "" {
      AbsentOccurs(s[1..], m);
    }
  }

  lemma OccurrencesOfThree(a: string, b: string, c: string, m: char)
    ensures Occurrences(a + (b + c), m) == Occurrences(a, m) + Occurrences(b, m) + Occurrences(c, m)
  {
    OccurrencesConcat(a, b + c, m);
    OccurrencesConcat(b, c, m);
  }

  /** A letter that always takes an argument is printed at most once per half. */
  lemma PrintedOnce(k: ModeKinds, s: ModeSet, w: Walk, m: char)
    requires IsWalk(w, s) && Kinded(k, s) && k.KindOf(m).ArgsAlways?
    ensures Occurrences(LettersIn(s, w), m) <= 1
  {
    assert forall x :: x in w.flags ==> x in Elements(w.flags);
    assert forall x :: x in w.args ==> x in Elements(w.args);
    assert forall x :: x in w.addresses ==> x in Elements(w.addresses);
    LettersOfConcat(ArgEntries(s, w.args), AddressEntries(s, w.addresses));
    ArgLetters(s, w.args);
    OccurrencesOfThree(w.flags, w.args, LettersOf(AddressEntries(s, w.addresses)), m);
    AbsentOccurs(w.flags, m);
    AddressLettersAre(k, s, w.addresses, m);
    NoDuplicatesOccurrences(w.args, m);
  }

  lemma {:induction false} NegArgOfCut(es: seq<Edit>, cut: seq<Edit>)
    requires cut == [Cut("")]
    ensures NegArg(es + cut) == Some("")
  {
    assert (es + cut)[..|es + cut| - 1] == es;
  }

  /** A taker after a removed on-set mode ends up with an empty argument. */
  lemma TakerLost(k: ModeKinds, d: DiffSet, wp: Walk, wn: Walk)
    requires KindedDiff(k, d) && PrintableDiff(k, d) && IsWalk(wp, d.pos) && IsWalk(wn, d.neg)
    requires !TakersFirst(k, Entries(d.neg, wn))
    ensures RunDiff(EMPTY_DIFF, OpsOf(k, PrintedDiff(d, wp, wn))) != d
  {
    var posOps, negOps := PrintedOps(k, d.pos, wp, true), NegativeOps(k, d.neg, wn);
    OpsOfPrintedDiff(k, d, wp, wn);
    NegativeWords(k, d, wn);
    NegativeOpsFacts(k, d, wn);
    var op := BlankRead(k, d, wn);
    if op.UnsetAddress? {
      BlankAddress(posOps, negOps, op.mode);
      assert "" !in AddressesOf(d.neg, op.mode);
    } else {
      BlankEdit(k, d, wn, op.mode);
      BlankArg(posOps, negOps, op.mode);
      assert ArgOf(d.neg, op.mode) != Some("");
    }
  }

  lemma BlankRead(k: ModeKinds, d: DiffSet, wn: Walk) returns (op: ModeOp)
    requires NegativeEntries(k, Entries(d.neg, wn)) && KeyedEntries(k, Entries(d.neg, wn))
    requires !TakersFirst(k, Entries(d.neg, wn))
    ensures op in NegativeOps(k, d.neg, wn) && Blank(k, op)
  {
    var es := Entries(d.neg, wn);
    MisreadNegative(k, es);
    op :| op in Ops(k, LettersOf(es), false, DropBlanks(ArgumentsOf(es))) && Blank(k, op);
  }

  lemma BlankEdit(k: ModeKinds, d: DiffSet, wn: Walk, m: char)
    requires KindedDiff(k, d) && IsWalk(wn, d.neg) && FlagLetters(k, wn.flags)
    requires k.KindOf(m).ArgsAlways? && UnsetArg(m, "") in NegativeOps(k, d.neg, wn)
    ensures Edits(NegativeOps(k, d.neg, wn), m) == [Cut("")]
  {
    var negOps := NegativeOps(k, d.neg, wn);
    PrintedOnce(k, d.neg, wn, m);
    NegativeOpsAre(k, d.neg, wn);
    EditsBounded(k, LettersIn(d.neg, wn), false, DropBlanks(ArgumentsOf(Entries(d.neg, wn))), m);
    EditsHold(negOps, m, "");
    OnlyEdit(Edits(negOps, m), Cut(""));
  }

  lemma NegativeOpsAre(k: ModeKinds, s: ModeSet, w: Walk)
    requires FlagLetters(k, w.flags)
    ensures NegativeOps(k, s, w) == Ops(k, LettersIn(s, w), false, DropBlanks(ArgumentsOf(Entries(s, w))))
  {
    var es := Entries(s, w);
    ReadFlags(k, w.flags, LettersOf(es), false, DropBlanks(ArgumentsOf(es)));
  }

  lemma OnlyEdit(es: seq<Edit>, e: Edit)
    requires e in es && |es| <= 1
    ensures es == [e]
  {
  }

  lemma BlankArg(posOps: seq<ModeOp>, negOps: seq<ModeOp>, m: char)
    requires Edits(negOps, m) == [Cut("")]
    ensures ArgOf(RunDiff(EMPTY_DIFF, posOps + negOps).neg, m) == Some("")
  {
    EditsConcat(posOps, negOps, m);
    NegArgOfCut(Edits(posOps, m), Edits(negOps, m));
    DiffArgs(posOps + negOps, m);
  }

  lemma BlankAddress(posOps: seq<ModeOp>, negOps: seq<ModeOp>, m: char)
    requires (forall op :: op in negOps ==> !op.SetAddress?) && UnsetAddress(m, "") in negOps
    ensures "" in AddressesOf(RunDiff(EMPTY_DIFF, posOps + negOps).neg, m)
  {
    var opp := Opposites(negOps);
    var i :| 0 <= i < |negOps| && negOps[i] == UnsetAddress(m, "");
    assert opp[i] == SetAddress(m, "");
    forall op | op in opp ensures !op.UnsetAddress? {
      var j :| 0 <= j < |opp| && opp[j] == op;
      assert negOps[j] in negOps;
    }
    DiffHalvesApart(posOps);
    RunDiffConcat(EMPTY_DIFF, posOps, negOps);
    RunHalves(RunDiff(EMPTY_DIFF, posOps), negOps);
    AddressStays(RunDiff(EMPTY_DIFF, posOps).neg, opp, m, "");
  }

  /** A printed diff, applied to an empty one, comes back unchanged exactly when no on-set mode is
      on both sides and no entry that takes an argument is printed after a removed on-set mode. */
  lemma PrintedDiffExactly(k: ModeKinds, d: DiffSet, wp: Walk, wn: Walk)
    requires Valid(d.pos) && Valid(d.neg) && Apart(d) && KindedDiff(k, d) && PrintableDiff(k, d)
    requires IsWalk(wp, d.pos) && IsWalk(wn, d.neg)
    ensures RunDiff(EMPTY_DIFF, OpsOf(k, PrintedDiff(d, wp, wn))) == d <==>
            TakersFirst(k, Entries(d.neg, wn)) && !OnsetOnBothSides(k, d)
  {
    if OnsetOnBothSides(k, d) {
      BothSidesLost(k, d, wp, wn);
    } else if TakersFirst(k, Entries(d.neg, wn)) {
      Rebuilt(k, d, wp, wn);
    } else {
      TakerLost(k, d, wp, wn);
    }
  }

  function ReachedDiff(k: ModeKinds, modestrings: seq<string>): DiffSet {
    if modestrings == [] then EMPTY_DIFF
    else RunDiff(ReachedDiff(k, modestrings[..|modestrings| - 1]), OpsOf(k, modestrings[|modestrings| - 1]))
  }

  lemma {:induction false} RunDiffKeepsApart(d: DiffSet, ops: seq<ModeOp>)
    requires Valid(d.pos) && Valid(d.neg) && Apart(d)
    ensures var r := RunDiff(d, ops); Valid(r.pos) && Valid(r.neg) && Apart(r)
  {
    if ops != [] {
      RunDiffKeepsApart(d, ops[..|ops| - 1]);
      StepKeepsApart(RunDiff(d, ops[..|ops| - 1]), ops[|ops| - 1]);
    }
  }

  /** What every diff built from modestrings keeps. */
  lemma {:induction false} ReachedDiffKeeps(k: ModeKinds, modestrings: seq<string>)
    ensures var d := ReachedDiff(k, modestrings);
            Valid(d.pos) && Valid(d.neg) && Apart(d) && KindedDiff(k, d)
  {
    if modestrings != [] {
      var init, last := modestrings[..|modestrings| - 1], modestrings[|modestrings| - 1];
      ReachedDiffKeeps(k, init);
      var splits := Split(TrimSpace(last), ' ');
      OpsFit(k, splits[0], true, splits[1..]);
      RunDiffKeepsApart(ReachedDiff(k, init), OpsOf(k, last));
      RunDiffKeepsKinded(k, ReachedDiff(k, init), OpsOf(k, last));
    }
  }

  /** The law for diffs that remove no on-set mode: they print and reread, in every walk. */
  lemma ReachedDiffPrints(k: ModeKinds, modestrings: seq<string>, wp: Walk, wn: Walk)
    requires PrintableDiff(k, ReachedDiff(k, modestrings))
    requires IsWalk(wp, ReachedDiff(k, modestrings).pos) && IsWalk(wn, ReachedDiff(k, modestrings).neg)
    requires forall m :: m in ReachedDiff(k, modestrings).neg.args ==> !k.KindOf(m).ArgsOnset?
    ensures RunDiff(EMPTY_DIFF, OpsOf(k, PrintedDiff(ReachedDiff(k, modestrings), wp, wn))) == ReachedDiff(k, modestrings)
  {
    var d := ReachedDiff(k, modestrings);
    ReachedDiffKeeps(k, modestrings);
    EntriesOf(d.neg, wn);
    forall i | 0 <= i < |Entries(d.neg, wn)| ensures !k.KindOf(Entries(d.neg, wn)[i].0).ArgsOnset? {
      assert Entries(d.neg, wn)[i] in Entries(d.neg, wn);
    }
    PrintedDiffExactly(k, d, wp, wn);
  }
}
