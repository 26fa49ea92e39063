/** What is read from a modestring: which letters become operations, which arguments they get, and what
    that makes of each mode. */
module ModeReading {
  import opened Seqs
  import opened Text
  import opened ModeSets
  import opened ModeParsing
  import opened ModeLaws

  /** A mode letter under the sign last read before it. */
  datatype Signed = Signed(letter: char, adding: bool)

  function SignedLetters(letters: string, adding: bool): seq<Signed> {
    if letters == "" then []
    else if letters[0] in "+-" then SignedLetters(letters[1..], letters[0] == '+')
    else [Signed(letters[0], adding)] + SignedLetters(letters[1..], adding)
  }

  /** A user mode that is no kind of channel mode. */
  predicate NamesMember(k: ModeKinds, letter: char) {
    (k.KindOf(letter).Unlisted? || k.KindOf(letter).ArgsNone?) && k.IsUserMode(letter)
  }

  predicate TakesArgument(k: ModeKinds, s: Signed) {
    match k.KindOf(s.letter)
    case ArgsAlways => true
    case ArgsAddress => true
    case ArgsOnset => s.adding
    case _ => NamesMember(k, s.letter)
  }

  function Takers(k: ModeKinds, letters: seq<Signed>): seq<Signed> {
    if letters == [] then []
    else (if TakesArgument(k, letters[0]) then [letters[0]] else []) + Takers(k, letters[1..])
  }

  /** The letters left when there are arguments for `room` takers only. */
  function Readable(k: ModeKinds, letters: seq<Signed>, room: nat): seq<Signed> {
    if letters == [] then []
    else if !TakesArgument(k, letters[0]) then [letters[0]] + Readable(k, letters[1..], room)
    else if room == 0 then Readable(k, letters[1..], 0)
    else [letters[0]] + Readable(k, letters[1..], room - 1)
  }

  /** Takers and arguments side by side, as far as both go. */
  function Paired(takers: seq<Signed>, args: seq<string>): seq<(Signed, string)> {
    if takers == [] || args == [] then [] else [(takers[0], args[0])] + Paired(takers[1..], args[1..])
  }

  // ---- the operations read -------------------------------------------------------------------

  function MarkOf(op: ModeOp): Signed {
    Signed(op.mode, op.SetMode? || op.SetArg? || op.SetAddress? || op.GiveUserMode?)
  }

  function Marks(ops: seq<ModeOp>): seq<Signed> {
    if ops == [] then [] else [MarkOf(ops[0])] + Marks(ops[1..])
  }

  /** The operations that carry a written argument, with it. */
  function Carried(k: ModeKinds, ops: seq<ModeOp>): seq<(Signed, string)> {
    if ops == [] then []
    else
      var op := ops[0];
      (if TakesArgument(k, MarkOf(op)) && !op.SetMode? && !op.UnsetMode? then [(MarkOf(op), op.arg)] else []) +
      Carried(k, ops[1..])
  }

  lemma CarriedCons(k: ModeKinds, op: ModeOp, ops: seq<ModeOp>)
    ensures Marks([op] + ops) == [MarkOf(op)] + Marks(ops)
    ensures Carried(k, [op] + ops) ==
            (if TakesArgument(k, MarkOf(op)) && !op.SetMode? && !op.UnsetMode? then [(MarkOf(op), op.arg)] else []) +
            Carried(k, ops)
  {
    assert ([op] + ops)[1..] == ops;
  }

  /** What one letter is read as. */
  lemma OneLetter(k: ModeKinds, c: char, adding: bool, args: seq<string>)
    ensures var op, s := OpFor(k, c, adding, args), Signed(c, adding);
            && (op.Some? <==> !TakesArgument(k, s) || args != [])
            && (op.Some? ==> MarkOf(op.value) == s)
            && (op.Some? && TakesArgument(k, s) ==>
                  !op.value.SetMode? && !op.value.UnsetMode? && op.value.arg == args[0])
            && (Consumes(k, c, adding) <==> TakesArgument(k, s))
  {
  }

  /** Every letter becomes an operation under its sign, unless its argument is missing; the arguments are
      handed out in order, one each. */
  lemma {:induction false} LettersRead(k: ModeKinds, letters: string, adding: bool, args: seq<string>)
    ensures var ops, signed := Ops(k, letters, adding, args), SignedLetters(letters, adding);
            && Marks(ops) == Readable(k, signed, |args|)
            && Carried(k, ops) == Paired(Takers(k, signed), args)
    decreases letters, 1
  {
    if letters != "" {
      if letters[0] in "+-" {
        LettersRead(k, letters[1..], letters[0] == '+', args);
      } else {
        LetterRead(k, letters, adding, args);
      }
    }
  }

  lemma {:induction false} LetterRead(k: ModeKinds, letters: string, adding: bool, args: seq<string>)
    requires letters != "" && letters[0] !in "+-"
    ensures var ops, signed := Ops(k, letters, adding, args), SignedLetters(letters, adding);
            && Marks(ops) == Readable(k, signed, |args|)
            && Carried(k, ops) == Paired(Takers(k, signed), args)
    decreases letters, 0
  {
    var c, s := letters[0], Signed(letters[0], adding);
    var op := OpFor(k, c, adding, args);
    var rest := if Consumes(k, c, adding) && args != [] then args[1..] else args;
    var ops := Ops(k, letters[1..], adding, rest);
    OneLetter(k, c, adding, args);
    LettersRead(k, letters[1..], adding, rest);
    SignedCons(k, s, SignedLetters(letters[1..], adding), args);
    if op.Some? {
      CarriedCons(k, op.value, ops);
    } else {
      assert [] + ops == ops;
    }
  }

  lemma SignedCons(k: ModeKinds, s: Signed, letters: seq<Signed>, args: seq<string>)
    ensures var all, rest := [s] + letters, if TakesArgument(k, s) && args != [] then args[1..] else args;
            && Readable(k, all, |args|) ==
               (if TakesArgument(k, s) && args == [] then [] else [s]) + Readable(k, letters, |rest|)
            && Paired(Takers(k, all), args) ==
               (if TakesArgument(k, s) && args != [] then [(s, args[0])] else []) + Paired(Takers(k, letters), rest)
  {
    var all := [s] + letters;
    assert all[1..] == letters;
    if TakesArgument(k, s) {
      assert ([s] + Takers(k, letters))[1..] == Takers(k, letters);
    } else {
      assert [] + Takers(k, letters) == Takers(k, letters);
    }
  }

  lemma {:induction false} PairedAt(takers: seq<Signed>, args: seq<string>)
    ensures var pairs := Paired(takers, args);
            && |pairs| == (if |takers| < |args| then |takers| else |args|)
            && forall i :: 0 <= i < |pairs| ==> pairs[i] == (takers[i], args[i])
  {
    if takers != [] && args != [] {
      PairedAt(takers[1..], args[1..]);
    }
  }

  function LettersIn(modestring: string): seq<Signed> {
    SignedLetters(Split(TrimSpace(modestring), ' ')[0], true)
  }

  function ArgumentsIn(modestring: string): seq<string> {
    Split(TrimSpace(modestring), ' ')[1..]
  }

  /** Of every modestring: the operations are its letters in order under their signs, but for the takers
      that no argument is left for; and those that carry an argument carry the first ones, one each in
      order, as many as there are both takers and arguments. */
  lemma ArgumentsInOrder(k: ModeKinds, modestring: string)
    ensures var ops, letters, args := OpsOf(k, modestring), LettersIn(modestring), ArgumentsIn(modestring);
            var takers, carried := Takers(k, letters), Carried(k, ops);
            && Marks(ops) == Readable(k, letters, |args|)
            && |carried| == (if |takers| < |args| then |takers| else |args|)
            && forall i :: 0 <= i < |carried| ==> carried[i] == (takers[i], args[i])
  {
    LettersRead(k, Split(TrimSpace(modestring), ' ')[0], true, ArgumentsIn(modestring));
    PairedAt(Takers(k, LettersIn(modestring)), ArgumentsIn(modestring));
  }

  /** An operation as it is read: on the map of its letter's kind, a user mode only for other letters. */
  predicate IsRead(k: ModeKinds, op: ModeOp) {
    Fits(k, op) && (op.GiveUserMode? || op.TakeUserMode? ==> NamesMember(k, op.mode))
  }

  lemma OneRead(k: ModeKinds, c: char, adding: bool, args: seq<string>)
    requires c !in "+-"
    ensures OpFor(k, c, adding, args).Some? ==> IsRead(k, OpFor(k, c, adding, args).value)
  {
  }

  lemma {:induction false} AllRead(k: ModeKinds, letters: string, adding: bool, args: seq<string>)
    ensures forall op :: op in Ops(k, letters, adding, args) ==> IsRead(k, op)
  {
    if letters != "" {
      if letters[0] in "+-" {
        AllRead(k, letters[1..], letters[0] == '+', args);
      } else {
        OneRead(k, letters[0], adding, args);
        AllRead(k, letters[1..], adding, if Consumes(k, letters[0], adding) && args != [] then args[1..] else args);
      }
    }
  }

  // ---- the user modes ------------------------------------------------------------------------

  /** Each user mode letter under the sign `adding`, with its argument. */
  function Chosen(k: ModeKinds, pairs: seq<(Signed, string)>, adding: bool): seq<UserMode> {
    if pairs == [] then []
    else
      var (s, arg) := pairs[0];
      (if s.adding == adding && NamesMember(k, s.letter) then [UserMode(s.letter, arg)] else []) +
      Chosen(k, pairs[1..], adding)
  }

  lemma GivenCons(op: ModeOp, ops: seq<ModeOp>)
    ensures Given([op] + ops) == (if op.GiveUserMode? then [UserMode(op.mode, op.arg)] else []) + Given(ops)
    ensures Taken([op] + ops) == (if op.TakeUserMode? then [UserMode(op.mode, op.arg)] else []) + Taken(ops)
  {
    UserModesConcat([op], ops);
    assert [op][..0] == [];
  }

  lemma ChosenConcat(k: ModeKinds, pair: (Signed, string), pairs: seq<(Signed, string)>, adding: bool)
    ensures Chosen(k, [pair] + pairs, adding) ==
            (if pair.0.adding == adding && NamesMember(k, pair.0.letter) then [UserMode(pair.0.letter, pair.1)] else []) +
            Chosen(k, pairs, adding)
  {
    assert ([pair] + pairs)[1..] == pairs;
  }

  lemma CarriedKind(k: ModeKinds, op: ModeOp)
    requires IsRead(k, op)
    ensures op.GiveUserMode? || op.TakeUserMode? <==>
            TakesArgument(k, MarkOf(op)) && !op.SetMode? && !op.UnsetMode? && NamesMember(k, op.mode)
    ensures op.GiveUserMode? ==> MarkOf(op).adding
    ensures op.TakeUserMode? ==> !MarkOf(op).adding
  {
  }

  lemma {:induction false} CarriedUserModes(k: ModeKinds, ops: seq<ModeOp>)
    requires forall op :: op in ops ==> IsRead(k, op)
    ensures Given(ops) == Chosen(k, Carried(k, ops), true)
    ensures Taken(ops) == Chosen(k, Carried(k, ops), false)
  {
    if ops != [] {
      var op, rest := ops[0], ops[1..];
      assert ops == [op] + rest;
      assert op in ops && forall o :: o in rest ==> o in ops;
      CarriedUserModes(k, rest);
      GivenCons(op, rest);
      CarriedCons(k, op, rest);
      CarriedKind(k, op);
      if TakesArgument(k, MarkOf(op)) && !op.SetMode? && !op.UnsetMode? {
        ChosenConcat(k, (MarkOf(op), op.arg), Carried(k, rest), true);
        ChosenConcat(k, (MarkOf(op), op.arg), Carried(k, rest), false);
      } else {
        assert [] + Given(rest) == Given(rest) && [] + Taken(rest) == Taken(rest);
        assert [] + Carried(k, rest) == Carried(k, rest);
      }
    }
  }

  /** What a modestring gives and takes: its user mode letters in order, each with the argument that falls
      to it among all letters that take one. */
  lemma UserModesExactly(k: ModeKinds, modestring: string)
    ensures var written := Paired(Takers(k, LettersIn(modestring)), ArgumentsIn(modestring));
            && Given(OpsOf(k, modestring)) == Chosen(k, written, true)
            && Taken(OpsOf(k, modestring)) == Chosen(k, written, false)
  {
    var letters, args := Split(TrimSpace(modestring), ' ')[0], ArgumentsIn(modestring);
    LettersRead(k, letters, true, args);
    AllRead(k, letters, true, args);
    CarriedUserModes(k, OpsOf(k, modestring));
  }

  /** `+ov alice bob`, for any two user modes and nicks: each nick gets its own mode. */
  lemma TwoGifts(k: ModeKinds, c: char, d: char, a: string, b: string)
    requires NamesMember(k, c) && NamesMember(k, d) && PlainLetter(c) && PlainLetter(d)
    requires a != "" && b != "" && SpaceFree(a) && SpaceFree(b)
    ensures var ops := OpsOf(k, Join(["+" + ([c] + [d])] + [a, b], ' '));
            Given(ops) == [UserMode(c, a), UserMode(d, b)] && Taken(ops) == []
  {
    var letters, args := "+" + ([c] + [d]), [a, b];
    OpsOfWords(k, letters, args);
    OpsSign(k, '+', [c] + [d], true, args);
    OpsLetter(k, c, [d], true, args);
    OpsLetter(k, d, [], true, args[1..]);
    assert [d] + [] == [d];
    var ops := [GiveUserMode(c, a)] + [GiveUserMode(d, b)];
    GivenCons(GiveUserMode(c, a), [GiveUserMode(d, b)]);
    assert [GiveUserMode(d, b)][..0] == [];
  }

  // ---- what is left of each mode -------------------------------------------------------------

  /** The sign of the last writing of a letter. */
  function LastSign(letters: seq<Signed>, c: char): Option<bool> {
    if letters == [] then None
    else
      var later := LastSign(letters[1..], c);
      if later == None && letters[0].letter == c then Some(letters[0].adding) else later
  }

  lemma {:induction false} LastReadable(k: ModeKinds, letters: seq<Signed>, room: nat, c: char)
    requires k.IsFlag(c)
    ensures LastSign(Readable(k, letters, room), c) == LastSign(letters, c)
  {
    if letters != [] {
      var rest := if TakesArgument(k, letters[0]) && room > 0 then room - 1 else room;
      LastReadable(k, letters[1..], rest, c);
      assert ([letters[0]] + Readable(k, letters[1..], rest))[1..] == Readable(k, letters[1..], rest);
    }
  }

  lemma RunStep(s: ModeSet, op: ModeOp)
    ensures Run(s, [op]) == Step(s, op)
  {
    assert [op][..0] == [];
  }

  lemma FlagStep(k: ModeKinds, s: ModeSet, op: ModeOp, c: char)
    requires k.IsFlag(c) && IsRead(k, op)
    ensures c in Step(s, op).flags <==> if op.mode == c then MarkOf(op).adding else c in s.flags
  {
  }

  lemma {:induction false} FlagsRun(k: ModeKinds, s: ModeSet, ops: seq<ModeOp>, c: char)
    requires k.IsFlag(c) && forall op :: op in ops ==> IsRead(k, op)
    ensures c in Run(s, ops).flags <==> match LastSign(Marks(ops), c) case None => c in s.flags case Some(adding) => adding
    decreases |ops|
  {
    if ops != [] {
      var op, rest := ops[0], ops[1..];
      assert ops == [op] + rest;
      assert op in ops && forall o :: o in rest ==> o in ops;
      FlagStep(k, s, op, c);
      FlagsRun(k, Step(s, op), rest, c);
      RunConcat(s, [op], rest);
      RunStep(s, op);
    }
  }

  /** After a modestring a flag is set exactly when its last writing is under a plus, or it was set and is
      not written. */
  lemma FlagsExactly(k: ModeKinds, s: ModeSet, modestring: string, c: char)
    requires k.IsFlag(c)
    ensures c in Run(s, OpsOf(k, modestring)).flags <==>
            match LastSign(LettersIn(modestring), c) case None => c in s.flags case Some(adding) => adding
  {
    var letters, args := Split(TrimSpace(modestring), ' ')[0], ArgumentsIn(modestring);
    AllRead(k, letters, true, args);
    LettersRead(k, letters, true, args);
    LastReadable(k, LettersIn(modestring), |args|, c);
    FlagsRun(k, s, OpsOf(k, modestring), c);
  }

  /** The sign of the last writing of a letter with one argument. */
  function LastWritten(pairs: seq<(Signed, string)>, c: char, arg: string): Option<bool> {
    if pairs == [] then None
    else
      var later := LastWritten(pairs[1..], c, arg);
      if later == None && pairs[0].0.letter == c && pairs[0].1 == arg then Some(pairs[0].0.adding) else later
  }

  lemma {:induction false} AddressesRun(k: ModeKinds, s: ModeSet, ops: seq<ModeOp>, c: char, address: string)
    requires Valid(s) && k.KindOf(c).ArgsAddress? && forall op :: op in ops ==> IsRead(k, op)
    ensures address in AddressesOf(Run(s, ops), c) <==>
            match LastWritten(Carried(k, ops), c, address)
            case None => address in AddressesOf(s, c)
            case Some(adding) => adding
    decreases |ops|
  {
    if ops != [] {
      var op, rest := ops[0], ops[1..];
      assert ops == [op] + rest;
      assert op in ops && forall o :: o in rest ==> o in ops;
      StepKeepsValid(s, op);
      StepAddresses(s, op, c);
      AddressesRun(k, Step(s, op), rest, c, address);
      RunConcat(s, [op], rest);
      RunStep(s, op);
      LastCarried(k, op, rest, c, address);
    }
  }

  lemma LastCarried(k: ModeKinds, op: ModeOp, ops: seq<ModeOp>, c: char, arg: string)
    requires IsRead(k, op) && k.KindOf(c).ArgsAddress?
    ensures LastWritten(Carried(k, [op] + ops), c, arg) ==
            if LastWritten(Carried(k, ops), c, arg) == None && op == SetAddress(c, arg) then Some(true)
            else if LastWritten(Carried(k, ops), c, arg) == None && op == UnsetAddress(c, arg) then Some(false)
            else LastWritten(Carried(k, ops), c, arg)
  {
    CarriedCons(k, op, ops);
    if TakesArgument(k, MarkOf(op)) && !op.SetMode? && !op.UnsetMode? {
      assert ([(MarkOf(op), op.arg)] + Carried(k, ops))[1..] == Carried(k, ops);
    } else {
      assert [] + Carried(k, ops) == Carried(k, ops);
    }
  }

  /** An address is on a list after a modestring exactly when it is last written under a plus, or was on it
      and is not written. */
  lemma AddressesExactly(k: ModeKinds, s: ModeSet, modestring: string, c: char, address: string)
    requires Valid(s) && k.KindOf(c).ArgsAddress?
    ensures address in AddressesOf(Run(s, OpsOf(k, modestring)), c) <==>
            match LastWritten(Paired(Takers(k, LettersIn(modestring)), ArgumentsIn(modestring)), c, address)
            case None => address in AddressesOf(s, c)
            case Some(adding) => adding
  {
    var letters, args := Split(TrimSpace(modestring), ' ')[0], ArgumentsIn(modestring);
    AllRead(k, letters, true, args);
    LettersRead(k, letters, true, args);
    AddressesRun(k, s, OpsOf(k, modestring), c, address);
  }

  /** The argument of the last writing of a letter that carries one. */
  function LastArgument(pairs: seq<(Signed, string)>, c: char): Option<string> {
    if pairs == [] then None
    else
      var later := LastArgument(pairs[1..], c);
      if later == None && pairs[0].0.letter == c then Some(pairs[0].1) else later
  }

  lemma {:induction false} OnsetRun(k: ModeKinds, s: ModeSet, ops: seq<ModeOp>, c: char)
    requires k.KindOf(c).ArgsOnset? && forall op :: op in ops ==> IsRead(k, op)
    ensures LastSign(Marks(ops), c) == None ==> LastArgument(Carried(k, ops), c) == None
    ensures LastSign(Marks(ops), c) == Some(true) ==> LastArgument(Carried(k, ops), c).Some?
    ensures ArgOf(Run(s, ops), c) ==
            match LastSign(Marks(ops), c)
            case None => ArgOf(s, c)
            case Some(adding) => if adding then LastArgument(Carried(k, ops), c) else None
    decreases |ops|
  {
    if ops != [] {
      var op, rest := ops[0], ops[1..];
      assert ops == [op] + rest;
      assert op in ops && forall o :: o in rest ==> o in ops;
      OnsetRun(k, Step(s, op), rest, c);
      RunConcat(s, [op], rest);
      RunStep(s, op);
      OnsetStep(k, s, op, c);
      CarriedCons(k, op, rest);
      LastArgumentCons(k, op, rest, c);
    }
  }

  lemma OnsetStep(k: ModeKinds, s: ModeSet, op: ModeOp, c: char)
    requires k.KindOf(c).ArgsOnset? && IsRead(k, op)
    ensures ArgOf(Step(s, op), c) == if op.mode != c then ArgOf(s, c) else if op.SetArg? then Some(op.arg) else None
    ensures op.mode == c ==> op.SetArg? || op.UnsetArg?
  {
  }

  lemma LastArgumentCons(k: ModeKinds, op: ModeOp, ops: seq<ModeOp>, c: char)
    requires k.KindOf(c).ArgsOnset? && IsRead(k, op)
    ensures LastArgument(Carried(k, [op] + ops), c) ==
            if LastArgument(Carried(k, ops), c) == None && op.SetArg? && op.mode == c then Some(op.arg)
            else LastArgument(Carried(k, ops), c)
  {
    CarriedCons(k, op, ops);
    if TakesArgument(k, MarkOf(op)) && !op.SetMode? && !op.UnsetMode? {
      assert ([(MarkOf(op), op.arg)] + Carried(k, ops))[1..] == Carried(k, ops);
    } else {
      assert [] + Carried(k, ops) == Carried(k, ops);
    }
  }

  /** An on-set mode ends without an argument when it is last written under a minus, with the last argument
      it is given when under a plus, and as it was when it is not written. */
  lemma OnsetExactly(k: ModeKinds, s: ModeSet, modestring: string, c: char)
    requires k.KindOf(c).ArgsOnset?
    ensures var letters, args := LettersIn(modestring), ArgumentsIn(modestring);
            ArgOf(Run(s, OpsOf(k, modestring)), c) ==
            match LastSign(Readable(k, letters, |args|), c)
            case None => ArgOf(s, c)
            case Some(adding) => if adding then LastArgument(Paired(Takers(k, letters), args), c) else None
  {
    var letters, args := Split(TrimSpace(modestring), ' ')[0], ArgumentsIn(modestring);
    AllRead(k, letters, true, args);
    LettersRead(k, letters, true, args);
    OnsetRun(k, s, OpsOf(k, modestring), c);
  }

  /** The edits of one mode among the written letters: a put under a plus, a cut under a minus. */
  function WrittenEdits(pairs: seq<(Signed, string)>, c: char): seq<Edit> {
    if pairs == [] then []
    else
      (if pairs[0].0.letter != c then [] else if pairs[0].0.adding then [Put(pairs[0].1)] else [Cut(pairs[0].1)]) +
      WrittenEdits(pairs[1..], c)
  }

  lemma {:induction false} EditsCarried(k: ModeKinds, ops: seq<ModeOp>, c: char)
    requires k.KindOf(c).ArgsAlways? && forall op :: op in ops ==> IsRead(k, op)
    ensures Edits(ops, c) == WrittenEdits(Carried(k, ops), c)
    decreases |ops|
  {
    if ops != [] {
      var op, rest := ops[0], ops[1..];
      assert ops == [op] + rest;
      assert op in ops && forall o :: o in rest ==> o in ops;
      EditsCarried(k, rest, c);
      EditsConcat([op], rest, c);
      EditOf(k, op, c);
      CarriedCons(k, op, rest);
      if TakesArgument(k, MarkOf(op)) && !op.SetMode? && !op.UnsetMode? {
        assert ([(MarkOf(op), op.arg)] + Carried(k, rest))[1..] == Carried(k, rest);
      } else {
        assert [] + Carried(k, rest) == Carried(k, rest);
        assert [] + Edits(rest, c) == Edits(rest, c);
      }
    }
  }

  lemma EditOf(k: ModeKinds, op: ModeOp, c: char)
    requires k.KindOf(c).ArgsAlways? && IsRead(k, op)
    ensures Edits([op], c) == if op.mode != c then [] else if MarkOf(op).adding then [Put(op.arg)] else [Cut(op.arg)]
    ensures op.mode == c ==> TakesArgument(k, MarkOf(op)) && !op.SetMode? && !op.UnsetMode?
  {
    assert [op][..0] == [];
    assert Edits([], c) == [];
  }

  lemma CutTakenEnds(before: Option<string>, es: seq<Edit>)
    ensures CutTaken(before, es) ==> es != [] && es[|es| - 1].Cut?
  {
    if i: nat :| CutAt(before, es, i) {
      assert es[|es| - 1].Cut?;
    }
  }

  lemma {:induction false} RunArgExactly(before: Option<string>, es: seq<Edit>)
    ensures RunArg(before, es) == if CutTaken(before, es) then None else Held(before, es)
  {
    if es != [] {
      var init, last := es[..|es| - 1], es[|es| - 1];
      RunArgExactly(before, init);
      if last.Cut? {
        CutTakenSnoc(before, es);
      } else {
        CutTakenEnds(before, es);
      }
    }
  }

  lemma CutTakenSnoc(before: Option<string>, es: seq<Edit>)
    requires es != [] && es[|es| - 1].Cut?
    ensures var init, last := es[..|es| - 1], es[|es| - 1];
            CutTaken(before, es) <==>
            CutTaken(before, init) || (Held(before, init).Some? && Unsets(last.arg, Held(before, init).value))
  {
    var init, last := es[..|es| - 1], es[|es| - 1];
    if i: nat :| CutAt(before, init, i) {
      assert es[..i] == init[..i] && es[i] == init[i];
      assert CutAt(before, es, i);
    }
    if Held(before, init).Some? && Unsets(last.arg, Held(before, init).value) {
      assert CutAt(before, es, |init|);
    }
    if i: nat :| CutAt(before, es, i) {
      assert es[..i] == init[..i];
      if i < |init| {
        assert forall j :: i <= j < |init| ==> init[j] == es[j];
        assert CutAt(before, init, i);
      }
    }
  }

  /** A mode that always takes an argument ends with the last one put, or the one it had; without one when
      a later cut names it. */
  lemma AlwaysExactly(k: ModeKinds, s: ModeSet, modestring: string, c: char)
    requires k.KindOf(c).ArgsAlways?
    ensures var es := WrittenEdits(Paired(Takers(k, LettersIn(modestring)), ArgumentsIn(modestring)), c);
            ArgOf(Run(s, OpsOf(k, modestring)), c) ==
            if CutTaken(ArgOf(s, c), es) then None else Held(ArgOf(s, c), es)
  {
    var letters, args := Split(TrimSpace(modestring), ' ')[0], ArgumentsIn(modestring);
    AllRead(k, letters, true, args);
    LettersRead(k, letters, true, args);
    EditsCarried(k, OpsOf(k, modestring), c);
    RunArgs(s, OpsOf(k, modestring), c);
    RunArgExactly(ArgOf(s, c), Edits(OpsOf(k, modestring), c));
  }
}
