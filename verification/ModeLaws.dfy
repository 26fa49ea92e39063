/** Building a diff and applying it later, against applying the modestring directly. */
module ModeLaws {
  import opened Seqs
  import opened Text
  import opened ModeSets
  import opened ModeParsing

  /** A modestring seen by one mode that holds an argument. */
  datatype Edit = Put(arg: string) | Cut(arg: string)

  function Edits(ops: seq<ModeOp>, m: char): seq<Edit> {
    if ops == [] then []
    else
      var op := ops[|ops| - 1];
      Edits(ops[..|ops| - 1], m) +
      if op.SetArg? && op.mode == m then [Put(op.arg)]
      else if op.UnsetArg? && op.mode == m then [Cut(op.arg)]
      else []
  }

  function StepArg(held: Option<string>, e: Edit): Option<string> {
    match e
    case Put(a) => Some(a)
    case Cut(a) => if held.Some? && Unsets(a, held.value) then None else held
  }

  function RunArg(held: Option<string>, es: seq<Edit>): Option<string> {
    if es == [] then held else StepArg(RunArg(held, es[..|es| - 1]), es[|es| - 1])
  }

  /** The other half of a diff sees puts as cuts and cuts as puts. */
  function NegArg(es: seq<Edit>): Option<string> {
    if es == [] then None
    else
      var last := es[|es| - 1];
      StepArg(NegArg(es[..|es| - 1]), if last.Put? then Cut(last.arg) else Put(last.arg))
  }

  /** The argument of the last put, or the old one. */
  function Held(before: Option<string>, es: seq<Edit>): Option<string> {
    if es == [] then before
    else if es[|es| - 1].Put? then Some(es[|es| - 1].arg)
    else Held(before, es[..|es| - 1])
  }

  /** An unconditional cut at `i` is followed by nothing but puts of non-empty arguments. */
  ghost predicate ClearAt(es: seq<Edit>, i: nat) {
    i < |es| && es[i] == Cut("") && forall j :: i < j < |es| ==> es[j].Put? && es[j].arg != ""
  }

  ghost predicate ClearStays(es: seq<Edit>) {
    exists i :: ClearAt(es, i)
  }

  /** Ends in a put while an earlier unconditional cut is still remembered, as in `-l+l 10`. */
  ghost predicate ForgetsPut(es: seq<Edit>) {
    es != [] && es[|es| - 1].Put? && ClearStays(es)
  }

  /** The cut at `i` comes after the last put and names the argument held there. */
  ghost predicate CutAt(before: Option<string>, es: seq<Edit>, i: nat) {
    && i < |es|
    && (forall j :: i <= j < |es| ==> es[j].Cut?)
    && Held(before, es[..i]).Some?
    && Unsets(es[i].arg, Held(before, es[..i]).value)
  }

  ghost predicate CutTaken(before: Option<string>, es: seq<Edit>) {
    exists i :: CutAt(before, es, i)
  }

  /** Ends in a cut that does not name the old argument, after a cut that took effect, as in
      `+k a-k a` and `-k a-k b` on a mode that holds something else. */
  ghost predicate ForgetsCut(before: Option<string>, es: seq<Edit>) {
    && es != [] && es[|es| - 1].Cut?
    && before.Some? && !Unsets(es[|es| - 1].arg, before.value)
    && CutTaken(before, es)
  }

  ghost predicate Faithful(before: Option<string>, es: seq<Edit>) {
    !ForgetsPut(es) && !ForgetsCut(before, es)
  }

  // ---- one mode ------------------------------------------------------------------

  lemma {:induction false} ClearRemembered(es: seq<Edit>)
    ensures NegArg(es) == Some("") <==> ClearStays(es)
  {
    if es != [] {
      var init, last := es[..|es| - 1], es[|es| - 1];
      ClearRemembered(init);
      if ClearStays(init) && last.Put? && last.arg != "" {
        var i: nat :| ClearAt(init, i);
        assert ClearAt(es, i);
      }
      if last == Cut("") {
        assert ClearAt(es, |es| - 1);
      }
      if ClearStays(es) && last.Put? {
        var i: nat :| ClearAt(es, i);
        assert forall j :: 0 <= j < |init| ==> init[j] == es[j];
        assert ClearAt(init, i);
      }
    }
  }

  lemma {:induction false} RunArgHeld(before: Option<string>, es: seq<Edit>)
    ensures RunArg(before, es).Some? ==> RunArg(before, es) == Held(before, es)
  {
    if es != [] {
      RunArgHeld(before, es[..|es| - 1]);
    }
  }

  lemma {:induction false} CutTakenExactly(before: Option<string>, es: seq<Edit>)
    requires before.Some?
    ensures RunArg(before, es) == None <==> CutTaken(before, es)
  {
    if es != [] {
      var init, last := es[..|es| - 1], es[|es| - 1];
      CutTakenExactly(before, init);
      RunArgHeld(before, init);
      if last.Cut? && CutTaken(before, init) {
        var i: nat :| CutAt(before, init, i);
        assert es[..i] == init[..i] && es[i] == init[i];
        assert CutAt(before, es, i);
      } else if last.Cut? && RunArg(before, es) == None {
        assert es[..|init|] == init;
        assert CutAt(before, es, |init|);
      }
      if CutTaken(before, es) && RunArg(before, init).Some? {
        var i: nat :| CutAt(before, es, i);
        assert es[..i] == init[..i];
        if i < |init| {
          assert forall j :: i <= j < |init| ==> init[j] == es[j];
          assert CutAt(before, init, i);
        }
      }
    }
  }

  ghost predicate HasPut(es: seq<Edit>) {
    exists e :: e in es && e.Put?
  }

  /** Once something was put, what was held before no longer matters. */
  lemma {:induction false} PutForgetsOld(before: Option<string>, es: seq<Edit>)
    ensures if HasPut(es) then RunArg(before, es) == RunArg(None, es)
            else RunArg(None, es) == None && (RunArg(before, es) == before || RunArg(before, es) == None)
  {
    if es != [] {
      var init, last := es[..|es| - 1], es[|es| - 1];
      assert es == init + [last];
      PutForgetsOld(before, init);
    }
  }

  /** One mode: the deferred change equals the direct one exactly when neither way of forgetting occurs. */
  lemma ArgDeferredExactly(before: Option<string>, es: seq<Edit>)
    ensures AppliedArg(before, RunArg(None, es), NegArg(es)) == RunArg(before, es) <==> Faithful(before, es)
  {
    if es != [] {
      PutForgetsOld(before, es);
      var last := es[|es| - 1];
      if last.Put? {
        ClearRemembered(es);
      } else if before.Some? {
        CutTakenExactly(before, es);
      }
    }
  }

  // ---- the whole set ---------------------------------------------------------------

  lemma EditsSnoc(ops: seq<ModeOp>, m: char)
    requires ops != []
    ensures var op := ops[|ops| - 1];
            var init := Edits(ops[..|ops| - 1], m);
            if op.SetArg? && op.mode == m then
              Edits(ops, m) == init + [Put(op.arg)] && Edits(ops, m)[..|init|] == init
            else if op.UnsetArg? && op.mode == m then
              Edits(ops, m) == init + [Cut(op.arg)] && Edits(ops, m)[..|init|] == init
            else Edits(ops, m) == init
  {
  }

  lemma StepArgOf(s: ModeSet, op: ModeOp, m: char)
    ensures ArgOf(Step(s, op), m) ==
            if op.SetArg? && op.mode == m then StepArg(ArgOf(s, m), Put(op.arg))
            else if op.UnsetArg? && op.mode == m then StepArg(ArgOf(s, m), Cut(op.arg))
            else ArgOf(s, m)
  {
  }

  lemma {:induction false} RunArgs(s: ModeSet, ops: seq<ModeOp>, m: char)
    ensures ArgOf(Run(s, ops), m) == RunArg(ArgOf(s, m), Edits(ops, m))
  {
    if ops != [] {
      RunArgs(s, ops[..|ops| - 1], m);
      EditsSnoc(ops, m);
      StepArgOf(Run(s, ops[..|ops| - 1]), ops[|ops| - 1], m);
    }
  }

  lemma {:induction false} PosIsRun(ops: seq<ModeOp>)
    ensures RunDiff(EMPTY_DIFF, ops).pos == Run(EMPTY_SET, ops)
  {
    if ops != [] {
      PosIsRun(ops[..|ops| - 1]);
    }
  }

  lemma NegStep(n: ModeSet, op: ModeOp, m: char, init: seq<Edit>, all: seq<Edit>)
    requires ArgOf(n, m) == NegArg(init)
    requires if op.SetArg? && op.mode == m then all == init + [Put(op.arg)] && all[..|init|] == init
             else if op.UnsetArg? && op.mode == m then all == init + [Cut(op.arg)] && all[..|init|] == init
             else all == init
    ensures ArgOf(Step(n, Opposite(op)), m) == NegArg(all)
  {
    StepArgOf(n, Opposite(op), m);
  }

  lemma {:induction false} NegArgs(ops: seq<ModeOp>, m: char)
    ensures ArgOf(RunDiff(EMPTY_DIFF, ops).neg, m) == NegArg(Edits(ops, m))
  {
    if ops != [] {
      var init, op := ops[..|ops| - 1], ops[|ops| - 1];
      NegArgs(init, m);
      EditsSnoc(ops, m);
      NegStep(RunDiff(EMPTY_DIFF, init).neg, op, m, Edits(init, m), Edits(ops, m));
    }
  }

  lemma DiffArgs(ops: seq<ModeOp>, m: char)
    ensures var d := RunDiff(EMPTY_DIFF, ops);
            ArgOf(d.pos, m) == RunArg(None, Edits(ops, m)) && ArgOf(d.neg, m) == NegArg(Edits(ops, m))
  {
    PosIsRun(ops);
    RunArgs(EMPTY_SET, ops, m);
    NegArgs(ops, m);
  }

  lemma FlagStep(s: ModeSet, op: ModeOp)
    ensures Step(s, op).flags ==
            if op.SetMode? then s.flags + {op.mode} else if op.UnsetMode? then s.flags - {op.mode} else s.flags
  {
  }

  lemma {:induction false} DeferredFlags(s: ModeSet, ops: seq<ModeOp>)
    ensures var d := RunDiff(EMPTY_DIFF, ops);
            Run(s, ops).flags == s.flags + d.pos.flags - d.neg.flags
  {
    if ops != [] {
      var init, op := ops[..|ops| - 1], ops[|ops| - 1];
      DeferredFlags(s, init);
      DiffHalvesApart(init);
      var d := RunDiff(EMPTY_DIFF, init);
      FlagStep(Run(s, init), op);
      FlagStep(d.pos, op);
      FlagStep(d.neg, Opposite(op));
    }
  }

  lemma {:induction false} DeferredAddresses(s: ModeSet, ops: seq<ModeOp>, m: char)
    requires Valid(s)
    ensures var d := RunDiff(EMPTY_DIFF, ops);
            AddressesOf(Run(s, ops), m) == AddressesOf(s, m) + AddressesOf(d.pos, m) - AddressesOf(d.neg, m)
  {
    if ops != [] {
      var init, op := ops[..|ops| - 1], ops[|ops| - 1];
      var d := RunDiff(EMPTY_DIFF, init);
      DeferredAddresses(s, init, m);
      DiffHalvesApart(init);
      RunKeepsValid(s, init);
      StepAddresses(Run(s, init), op, m);
      StepAddresses(d.pos, op, m);
      StepAddresses(d.neg, Opposite(op), m);
    }
  }

  /** `ApplyDiff` of the diff built from a modestring is the modestring itself, for every mode
      set, exactly when every mode with an argument is edited faithfully. */
  lemma DeferredExactly(s: ModeSet, ops: seq<ModeOp>, r: ModeSet)
    requires Valid(s) && DiffApplied(s, RunDiff(EMPTY_DIFF, ops), r)
    ensures SameModes(r, Run(s, ops)) <==> forall m :: Faithful(ArgOf(s, m), Edits(ops, m))
  {
    var d, t := RunDiff(EMPTY_DIFF, ops), Run(s, ops);
    DeferredFlags(s, ops);
    forall m
      ensures AddressesOf(r, m) == AddressesOf(t, m)
      ensures ArgOf(r, m) == ArgOf(t, m) <==> Faithful(ArgOf(s, m), Edits(ops, m))
    {
      DeferredAddresses(s, ops, m);
      DiffAppliedAddresses(s, d, r, m);
      RunArgs(s, ops, m);
      DiffArgs(ops, m);
      ArgDeferredExactly(ArgOf(s, m), Edits(ops, m));
    }
    if forall m :: Faithful(ArgOf(s, m), Edits(ops, m)) {
      SameArgs(r, t);
    }
  }

  lemma SameArgs(r: ModeSet, t: ModeSet)
    requires forall m :: ArgOf(r, m) == ArgOf(t, m)
    ensures r.args == t.args
  {
    assert forall m :: m in r.args <==> ArgOf(r, m).Some?;
    assert forall m :: m in t.args <==> ArgOf(t, m).Some?;
    assert r.args.Keys == t.args.Keys;
    forall m | m in r.args ensures r.args[m] == t.args[m] {
      assert ArgOf(r, m) == Some(r.args[m]) && ArgOf(t, m) == Some(t.args[m]);
    }
  }

  lemma SameLists(r: ModeSet, t: ModeSet)
    requires Valid(r) && Valid(t) && forall m :: AddressList(r, m) == AddressList(t, m)
    ensures r.addresses == t.addresses
  {
    assert forall m :: m in r.addresses <==> AddressList(r, m) != [];
    assert forall m :: m in t.addresses <==> AddressList(t, m) != [];
    assert r.addresses.Keys == t.addresses.Keys;
    forall m | m in r.addresses ensures r.addresses[m] == t.addresses[m] {
      assert AddressList(r, m) == r.addresses[m] && AddressList(t, m) == t.addresses[m];
    }
  }

  /** There is one outcome of `ApplyDiff`. */
  lemma DiffAppliedUnique(s: ModeSet, d: DiffSet, r: ModeSet, t: ModeSet)
    requires Valid(r) && Valid(t) && DiffApplied(s, d, r) && DiffApplied(s, d, t)
    ensures r == t
  {
    SameArgs(r, t);
    SameLists(r, t);
  }

  // ---- modestrings that name each such mode at most once ---------------------------

  lemma {:induction false} EditsConcat(a: seq<ModeOp>, b: seq<ModeOp>, m: char)
    ensures Edits(a + b, m) == Edits(a, m) + Edits(b, m)
  {
    if b == [] {
      assert a + b == a;
    } else {
      assert (a + b)[..|a + b| - 1] == a + b[..|b| - 1];
      EditsConcat(a, b[..|b| - 1], m);
    }
  }

  lemma {:induction false} EditsBounded(k: ModeKinds, letters: string, adding: bool, args: seq<string>, m: char)
    ensures |Edits(Ops(k, letters, adding, args), m)| <= Occurrences(letters, m)
  {
    if letters != "" {
      if letters[0] in "+-" {
        EditsBounded(k, letters[1..], letters[0] == '+', args, m);
      } else {
        var op := OpFor(k, letters[0], adding, args);
        var rest := if Consumes(k, letters[0], adding) && args != [] then args[1..] else args;
        EditsBounded(k, letters[1..], adding, rest, m);
        var head := if op.Some? then [op.value] else [];
        EditsConcat(head, Ops(k, letters[1..], adding, rest), m);
        assert head == [] || head[..|head| - 1] == [];
        assert Ops(k, letters, adding, args) == head + Ops(k, letters[1..], adding, rest);
      }
    }
  }

  /** Every letter that keeps an argument is written at most once. */
  ghost predicate KeysOnce(k: ModeKinds, modestring: string) {
    forall m :: k.TakesKey(m) ==> Occurrences(Split(TrimSpace(modestring), ' ')[0], m) <= 1
  }

  lemma SingleEditFaithful(before: Option<string>, es: seq<Edit>)
    requires |es| <= 1
    ensures Faithful(before, es)
  {
  }

  lemma {:induction false} OtherModesUnedited(ops: seq<ModeOp>, m: char)
    requires forall op :: op in ops && (op.SetArg? || op.UnsetArg?) ==> op.mode != m
    ensures Edits(ops, m) == []
  {
    if ops != [] {
      assert ops[|ops| - 1] in ops;
      OtherModesUnedited(ops[..|ops| - 1], m);
    }
  }

  /** The law as documented: on such modestrings the diff may be kept and applied later. */
  lemma DeferredApplies(k: ModeKinds, s: ModeSet, modestring: string, r: ModeSet)
    requires Valid(s) && KeysOnce(k, modestring)
    requires DiffApplied(s, RunDiff(EMPTY_DIFF, OpsOf(k, modestring)), r)
    ensures SameModes(r, Run(s, OpsOf(k, modestring)))
  {
    var splits := Split(TrimSpace(modestring), ' ');
    var ops := OpsOf(k, modestring);
    OpsFit(k, splits[0], true, splits[1..]);
    forall m ensures Faithful(ArgOf(s, m), Edits(ops, m)) {
      if k.TakesKey(m) {
        EditsBounded(k, splits[0], true, splits[1..], m);
      } else {
        OtherModesUnedited(ops, m);
      }
      SingleEditFaithful(ArgOf(s, m), Edits(ops, m));
    }
    DeferredExactly(s, ops, r);
  }

  // ---- modestrings on which it goes wrong -------------------------------------------

  lemma OpsOfWords(k: ModeKinds, letters: string, args: seq<string>)
    requires letters != "" && SpaceFree(letters)
    requires forall a :: a in args ==> a != "" && SpaceFree(a)
    ensures OpsOf(k, Join([letters] + args, ' ')) == Ops(k, letters, true, args)
  {
    var parts := [letters] + args;
    TrimOfJoin(parts);
    assert forall p :: p in parts ==> ' ' !in p;
    SplitOfJoin(parts, ' ');
  }

  lemma TwoOps(s: ModeSet, ops: seq<ModeOp>)
    requires |ops| == 2
    ensures Run(s, ops) == Step(Step(s, ops[0]), ops[1])
    ensures RunDiff(EMPTY_DIFF, ops) == StepDiff(StepDiff(EMPTY_DIFF, ops[0]), ops[1])
  {
    assert ops[..1] == [ops[0]] && [ops[0]][..0] == [];
    assert Run(s, [ops[0]]) == Step(s, ops[0]);
    assert RunDiff(EMPTY_DIFF, [ops[0]]) == StepDiff(EMPTY_DIFF, ops[0]);
  }

  lemma OpsSign(k: ModeKinds, sign: char, letters: string, adding: bool, args: seq<string>)
    requires sign in "+-"
    ensures Ops(k, [sign] + letters, adding, args) == Ops(k, letters, sign == '+', args)
  {
    assert ([sign] + letters)[1..] == letters;
  }

  lemma OpsLetter(k: ModeKinds, c: char, letters: string, adding: bool, args: seq<string>)
    requires c !in "+-"
    ensures Ops(k, [c] + letters, adding, args) ==
            (var op := OpFor(k, c, adding, args);
             if op.Some? then [op.value] else []) +
            Ops(k, letters, adding, if Consumes(k, c, adding) && args != [] then args[1..] else args)
  {
    assert ([c] + letters)[1..] == letters;
  }

  function TwoLetters(first: char, c: char, second: char): string {
    [first] + ([c] + ([second] + [c]))
  }

  predicate PlainLetter(c: char) {
    !IsSpace(c) && c !in "+-"
  }

  lemma CutPutOps(k: ModeKinds, c: char, arg: string)
    requires k.KindOf(c).ArgsOnset? && PlainLetter(c) && arg != "" && SpaceFree(arg)
    ensures OpsOf(k, Join([TwoLetters('-', c, '+')] + [arg], ' ')) == [UnsetArg(c, "")] + [SetArg(c, arg)]
  {
    var args := [arg];
    OpsOfWords(k, TwoLetters('-', c, '+'), args);
    OpsSign(k, '-', [c] + (['+'] + [c]), true, args);
    OpsLetter(k, c, ['+'] + [c], false, args);
    OpsSign(k, '+', [c], false, args);
    OpsLetter(k, c, [], true, args);
    assert [c] + [] == [c];
  }

  lemma PutCutOps(k: ModeKinds, c: char, arg: string)
    requires k.KindOf(c).ArgsAlways? && PlainLetter(c) && arg != "" && SpaceFree(arg)
    ensures OpsOf(k, Join([TwoLetters('+', c, '-')] + [arg, arg], ' ')) == [SetArg(c, arg)] + [UnsetArg(c, arg)]
  {
    var args := [arg, arg];
    OpsOfWords(k, TwoLetters('+', c, '-'), args);
    OpsSign(k, '+', [c] + (['-'] + [c]), true, args);
    OpsLetter(k, c, ['-'] + [c], true, args);
    OpsSign(k, '-', [c], true, args[1..]);
    OpsLetter(k, c, [], false, args[1..]);
    assert [c] + [] == [c];
  }

  /** `-l+l 10`, for any on-set letter and argument: applied later it takes the mode away
      instead of setting it. */
  lemma PutLost(k: ModeKinds, c: char, arg: string, s: ModeSet, r: ModeSet)
    requires k.KindOf(c).ArgsOnset? && PlainLetter(c) && arg != "" && SpaceFree(arg)
    requires DiffApplied(s, RunDiff(EMPTY_DIFF, OpsOf(k, Join([TwoLetters('-', c, '+')] + [arg], ' '))), r)
    ensures ArgOf(r, c) == None
    ensures ArgOf(Run(s, OpsOf(k, Join([TwoLetters('-', c, '+')] + [arg], ' '))), c) == Some(arg)
  {
    CutPutOps(k, c, arg);
    TwoOps(s, [UnsetArg(c, "")] + [SetArg(c, arg)]);
    assert ArgOf(r, c) == AppliedArg(ArgOf(s, c), Some(arg), Some(""));
  }

  /** `+k-k a a` on a mode that holds another argument: applied later it keeps that argument. */
  lemma CutLost(k: ModeKinds, c: char, arg: string, s: ModeSet, r: ModeSet)
    requires k.KindOf(c).ArgsAlways? && PlainLetter(c) && arg != "" && SpaceFree(arg)
    requires ArgOf(s, c).Some? && ArgOf(s, c).value != arg
    requires DiffApplied(s, RunDiff(EMPTY_DIFF, OpsOf(k, Join([TwoLetters('+', c, '-')] + [arg, arg], ' '))), r)
    ensures ArgOf(r, c) == ArgOf(s, c)
    ensures ArgOf(Run(s, OpsOf(k, Join([TwoLetters('+', c, '-')] + [arg, arg], ' '))), c) == None
  {
    PutCutOps(k, c, arg);
    TwoOps(s, [SetArg(c, arg)] + [UnsetArg(c, arg)]);
    assert ArgOf(r, c) == AppliedArg(ArgOf(s, c), None, Some(arg));
  }
}
