/** Mode kinds, and a complex modestring read as a list of operations. */
module ModeParsing {
  import opened Seqs
  import opened Text
  import opened ModeSets

  /** `Unlisted` is what the kind table answers for a letter it does not hold. */
  datatype ModeKind = Unlisted | ArgsNone | ArgsAlways | ArgsOnset | ArgsAddress

  /** The kind table, and the user modes with their display symbols. */
  datatype ModeKinds = ModeKinds(kinds: map<char, ModeKind>, userModes: seq<(char, char)>) {
    function KindOf(mode: char): ModeKind {
      if mode in kinds then kinds[mode] else Unlisted
    }

    predicate IsUserMode(mode: char) {
      exists i :: 0 <= i < |userModes| && userModes[i].0 == mode
    }

    /** The letters that `apply` treats as flags of the channel. */
    predicate IsFlag(mode: char) {
      (KindOf(mode).Unlisted? || KindOf(mode).ArgsNone?) && !IsUserMode(mode)
    }

    predicate TakesKey(mode: char) {
      KindOf(mode).ArgsAlways? || KindOf(mode).ArgsOnset?
    }
  }

  method FillKind(kinds: map<char, ModeKind>, letters: string, kind: ModeKind) returns (filled: map<char, ModeKind>)
    ensures filled.Keys == kinds.Keys + Elements(letters)
    ensures forall m :: m in filled ==> filled[m] == if m in letters then kind else kinds[m]
  {
    filled := kinds;
    for i := 0 to |letters|
      invariant filled.Keys == kinds.Keys + Elements(letters[..i])
      invariant forall m :: m in filled ==> filled[m] == if m in letters[..i] then kind else kinds[m]
    {
      filled := filled[letters[i] := kind];
      assert letters[..i + 1] == letters[..i] + [letters[i]];
    }
    assert letters[..|letters|] == letters;
  }

  /** Every listed letter has the kind of its list; no argument wins over address over on-set over always. */
  ghost predicate KindsListed(kinds: map<char, ModeKind>, address: string, always: string, onset: string, none: string) {
    && kinds.Keys == Elements(address) + Elements(always) + Elements(onset) + Elements(none)
    && (forall m :: m in none ==> kinds[m] == ArgsNone)
    && (forall m :: m in address && m !in none ==> kinds[m] == ArgsAddress)
    && (forall m :: m in onset && m !in none && m !in address ==> kinds[m] == ArgsOnset)
    && (forall m :: m in always && m !in none && m !in address && m !in onset ==> kinds[m] == ArgsAlways)
  }

  method ParseChannelModeKinds(address: string, always: string, onset: string, none: string)
    returns (kinds: map<char, ModeKind>)
    ensures KindsListed(kinds, address, always, onset, none)
  {
    kinds := FillKind(map[], always, ArgsAlways);
    kinds := FillKind(kinds, onset, ArgsOnset);
    kinds := FillKind(kinds, address, ArgsAddress);
    kinds := FillKind(kinds, none, ArgsNone);
  }

  /** A CHANMODES token: four lists, in the order address, always, on-set, no argument. */
  method ParseChannelModeKindsCSV(token: string) returns (kinds: Option<map<char, ModeKind>>)
    ensures kinds.Some? <==> |Split(token, ',')| == 4
    ensures forall address, always, onset, none ::
              Split(token, ',') == [address, always, onset, none] ==>
                kinds.Some? && KindsListed(kinds.value, address, always, onset, none)
  {
    if |token| == 0 {
      return None;
    }
    var splits := Split(token, ',');
    if |splits| != 4 {
      return None;
    }
    var parsed := ParseChannelModeKinds(splits[0], splits[1], splits[2], splits[3]);
    return Some(parsed);
  }

  /** The operation a letter stands for, or none when its argument is missing. */
  function OpFor(k: ModeKinds, mode: char, adding: bool, args: seq<string>): Option<ModeOp> {
    match k.KindOf(mode)
    case ArgsAlways =>
      if args == [] then None else Some(if adding then SetArg(mode, args[0]) else UnsetArg(mode, args[0]))
    case ArgsOnset =>
      if !adding then Some(UnsetArg(mode, "")) else if args == [] then None else Some(SetArg(mode, args[0]))
    case ArgsAddress =>
      if args == [] then None else Some(if adding then SetAddress(mode, args[0]) else UnsetAddress(mode, args[0]))
    case _ =>
      if !k.IsUserMode(mode) then Some(if adding then SetMode(mode) else UnsetMode(mode))
      else if args == [] then None
      else Some(if adding then GiveUserMode(mode, args[0]) else TakeUserMode(mode, args[0]))
  }

  /** Whether that operation uses up an argument. */
  predicate Consumes(k: ModeKinds, mode: char, adding: bool) {
    !k.IsFlag(mode) && (k.KindOf(mode).ArgsOnset? ==> adding)
  }

  function Ops(k: ModeKinds, letters: string, adding: bool, args: seq<string>): seq<ModeOp> {
    if letters == "" then []
    else if letters[0] in "+-" then Ops(k, letters[1..], letters[0] == '+', args)
    else
      var op := OpFor(k, letters[0], adding, args);
      var rest := if Consumes(k, letters[0], adding) && args != [] then args[1..] else args;
      (if op.Some? then [op.value] else []) + Ops(k, letters[1..], adding, rest)
  }

  /** What a complex modestring asks for. */
  function OpsOf(k: ModeKinds, modestring: string): seq<ModeOp> {
    var splits := Split(TrimSpace(modestring), ' ');
    Ops(k, splits[0], true, splits[1..])
  }

  /** A user mode given or taken away, with its target. */
  datatype UserMode = UserMode(mode: char, arg: string)

  function Given(ops: seq<ModeOp>): seq<UserMode> {
    if ops == [] then []
    else
      var op := ops[|ops| - 1];
      Given(ops[..|ops| - 1]) + if op.GiveUserMode? then [UserMode(op.mode, op.arg)] else []
  }

  function Taken(ops: seq<ModeOp>): seq<UserMode> {
    if ops == [] then []
    else
      var op := ops[|ops| - 1];
      Taken(ops[..|ops| - 1]) + if op.TakeUserMode? then [UserMode(op.mode, op.arg)] else []
  }

  lemma {:induction false} UserModesConcat(a: seq<ModeOp>, b: seq<ModeOp>)
    ensures Given(a + b) == Given(a) + Given(b) && Taken(a + b) == Taken(a) + Taken(b)
  {
    if b == [] {
      assert a + b == a;
    } else {
      assert (a + b)[..|a + b| - 1] == a + b[..|b| - 1];
      UserModesConcat(a, b[..|b| - 1]);
    }
  }

  // ---- every operation read from a modestring fits the kinds ----------------------

  /** The letter belongs to the map the operation works on. */
  predicate Placed(k: ModeKinds, op: ModeOp) {
    op.mode !in "+-" &&
    match op
    case SetMode(m) => k.IsFlag(m)
    case UnsetMode(m) => k.IsFlag(m)
    case SetArg(m, _) => k.TakesKey(m)
    case UnsetArg(m, _) => k.TakesKey(m)
    case SetAddress(m, _) => k.KindOf(m).ArgsAddress?
    case UnsetAddress(m, _) => k.KindOf(m).ArgsAddress?
    case GiveUserMode(m, _) => k.IsUserMode(m)
    case TakeUserMode(m, _) => k.IsUserMode(m)
  }

  /** Placed, and an on-set mode is taken away without an argument. */
  predicate Fits(k: ModeKinds, op: ModeOp) {
    Placed(k, op) && (op.UnsetArg? && k.KindOf(op.mode).ArgsOnset? ==> op.arg == "")
  }

  lemma {:induction false} OpsFit(k: ModeKinds, letters: string, adding: bool, args: seq<string>)
    ensures forall op :: op in Ops(k, letters, adding, args) ==> Fits(k, op)
  {
    if letters != "" {
      if letters[0] in "+-" {
        OpsFit(k, letters[1..], letters[0] == '+', args);
      } else {
        var rest := if Consumes(k, letters[0], adding) && args != [] then args[1..] else args;
        OpsFit(k, letters[1..], adding, rest);
      }
    }
  }

  /** Letters sit in the map of their kind, and are not signs. */
  ghost predicate Kinded(k: ModeKinds, s: ModeSet) {
    && (forall m :: m in s.flags ==> k.IsFlag(m) && m !in "+-")
    && (forall m :: m in s.args ==> k.TakesKey(m) && m !in "+-")
    && (forall m :: m in s.addresses ==> k.KindOf(m).ArgsAddress? && m !in "+-")
  }

  lemma StepKeepsKinded(k: ModeKinds, s: ModeSet, op: ModeOp)
    requires Kinded(k, s) && Placed(k, op)
    ensures Kinded(k, Step(s, op))
  {
  }

  lemma {:induction false} RunKeepsKinded(k: ModeKinds, s: ModeSet, ops: seq<ModeOp>)
    requires Kinded(k, s) && forall op :: op in ops ==> Fits(k, op)
    ensures Kinded(k, Run(s, ops))
  {
    if ops != [] {
      RunKeepsKinded(k, s, ops[..|ops| - 1]);
      assert ops[|ops| - 1] in ops;
      StepKeepsKinded(k, Run(s, ops[..|ops| - 1]), ops[|ops| - 1]);
    }
  }

  /** Both halves are kinded, and a removed on-set mode carries no argument. */
  ghost predicate KindedDiff(k: ModeKinds, d: DiffSet) {
    && Kinded(k, d.pos)
    && Kinded(k, d.neg)
    && forall m :: m in d.neg.args && k.KindOf(m).ArgsOnset? ==> d.neg.args[m] == ""
  }

  lemma StepDiffKeepsKinded(k: ModeKinds, d: DiffSet, op: ModeOp)
    requires KindedDiff(k, d) && Fits(k, op)
    ensures KindedDiff(k, StepDiff(d, op))
  {
    StepKeepsKinded(k, d.pos, op);
    StepKeepsKinded(k, d.neg, Opposite(op));
  }

  lemma {:induction false} RunDiffKeepsKinded(k: ModeKinds, d: DiffSet, ops: seq<ModeOp>)
    requires KindedDiff(k, d) && forall op :: op in ops ==> Fits(k, op)
    ensures KindedDiff(k, RunDiff(d, ops))
  {
    if ops != [] {
      RunDiffKeepsKinded(k, d, ops[..|ops| - 1]);
      assert ops[|ops| - 1] in ops;
      StepDiffKeepsKinded(k, RunDiff(d, ops[..|ops| - 1]), ops[|ops| - 1]);
    }
  }
}
