/** Which modes the members of a channel end with after a mode change, and after the same change made
    in the order it is written. */
module MemberModes {
  import opened Seqs
  import opened Text
  import opened ModeSets
  import opened ModeParsing
  import opened ModeLaws
  import opened UserBits
  import opened StateView

  // ---- all gifts, then all removals ----------------------------------------------------------

  ghost predicate Gets(us: seq<UserMode>, nick: string, mode: char) {
    exists u :: u in us && ToLower(u.arg) == nick && u.mode == mode
  }

  lemma GetsSnoc(us: seq<UserMode>, nick: string, mode: char)
    requires us != []
    ensures var u := us[|us| - 1];
            Gets(us, nick, mode) <==> Gets(us[..|us| - 1], nick, mode) || (ToLower(u.arg) == nick && u.mode == mode)
  {
    var init, u := us[..|us| - 1], us[|us| - 1];
    assert us == init + [u];
    assert u in us;
    if Gets(init, nick, mode) {
      var x :| x in init && ToLower(x.arg) == nick && x.mode == mode;
      assert x in us;
    }
  }

  lemma {:induction false} GiveAllExactly(
    info: ModeInfo, ms: Members, ch: string, us: seq<UserMode>, p: (string, string), m: char)
    requires p in ms
    ensures p in GiveAll(info, ms, ch, us)
    ensures m in GiveAll(info, ms, ch, us)[p] <==>
            m in ms[p] || (IsListed(info, m) && p.0 == ch && Gets(us, p.1, m))
  {
    if us != [] {
      GiveAllExactly(info, ms, ch, us[..|us| - 1], p, m);
      GetsSnoc(us, p.1, m);
    }
  }

  lemma {:induction false} TakeAllExactly(ms: Members, ch: string, us: seq<UserMode>, p: (string, string), m: char)
    requires p in ms
    ensures p in TakeAll(ms, ch, us)
    ensures m in TakeAll(ms, ch, us)[p] <==> m in ms[p] && !(p.0 == ch && Gets(us, p.1, m))
  {
    if us != [] {
      TakeAllExactly(ms, ch, us[..|us| - 1], p, m);
      GetsSnoc(us, p.1, m);
    }
  }

  /** After a mode change a member has a mode exactly when it had it or is given it, and is not deprived
      of it: whatever the order in the modestring, taking wins. No other channel's member changes. */
  lemma MemberModesExactly(k: Kinds, ms: Members, ch: string, ops: seq<ModeOp>, p: (string, string), m: char)
    requires p in ms
    ensures p in ApplyMembers(k.userModes, ms, ch, ops)
    ensures m in ApplyMembers(k.userModes, ms, ch, ops)[p] <==>
            && (m in ms[p] || (IsListed(k.userModes, m) && p.0 == ch && Gets(Given(ops), p.1, m)))
            && !(p.0 == ch && Gets(Taken(ops), p.1, m))
  {
    GiveAllExactly(k.userModes, ms, ch, Given(ops), p, m);
    TakeAllExactly(GiveAll(k.userModes, ms, ch, Given(ops)), ch, Taken(ops), p, m);
  }

  // ---- in the order written ------------------------------------------------------------------

  function StepMember(info: ModeInfo, ms: Members, ch: string, op: ModeOp): Members {
    match op
    case GiveUserMode(m, a) => GiveMode(info, ms, (ch, ToLower(a)), m)
    case TakeUserMode(m, a) => TakeMode(ms, (ch, ToLower(a)), m)
    case _ => ms
  }

  /** Each user mode is given or taken when its letter is read. */
  function InOrder(info: ModeInfo, ms: Members, ch: string, ops: seq<ModeOp>): Members {
    if ops == [] then ms else StepMember(info, InOrder(info, ms, ch, ops[..|ops| - 1]), ch, ops[|ops| - 1])
  }

  predicate Concerns(op: ModeOp, nick: string, m: char) {
    (op.GiveUserMode? || op.TakeUserMode?) && op.mode == m && ToLower(op.arg) == nick
  }

  /** The last operation on one nick and mode, if any: true for a gift, false for a removal. */
  function Last(ops: seq<ModeOp>, nick: string, m: char): Option<bool> {
    if ops == [] then None
    else if Concerns(ops[|ops| - 1], nick, m) then Some(ops[|ops| - 1].GiveUserMode?)
    else Last(ops[..|ops| - 1], nick, m)
  }

  lemma {:induction false} InOrderExactly(
    info: ModeInfo, ms: Members, ch: string, ops: seq<ModeOp>, p: (string, string), m: char)
    requires p in ms && IsListed(info, m)
    ensures p in InOrder(info, ms, ch, ops)
    ensures m in InOrder(info, ms, ch, ops)[p] <==>
            if p.0 != ch || Last(ops, p.1, m) == None then m in ms[p] else Last(ops, p.1, m) == Some(true)
  {
    if ops != [] {
      InOrderExactly(info, ms, ch, ops[..|ops| - 1], p, m);
    }
  }

  lemma TakenSnoc(ops: seq<ModeOp>, nick: string, m: char)
    requires ops != []
    ensures var init, op := ops[..|ops| - 1], ops[|ops| - 1];
            && (Gets(Given(ops), nick, m) <==> Gets(Given(init), nick, m) || (Concerns(op, nick, m) && op.GiveUserMode?))
            && (Gets(Taken(ops), nick, m) <==> Gets(Taken(init), nick, m) || (Concerns(op, nick, m) && op.TakeUserMode?))
  {
    var init, op := ops[..|ops| - 1], ops[|ops| - 1];
    if op.GiveUserMode? {
      assert Given(ops)[..|Given(ops)| - 1] == Given(init);
      GetsSnoc(Given(ops), nick, m);
    }
    if op.TakeUserMode? {
      assert Taken(ops)[..|Taken(ops)| - 1] == Taken(init);
      GetsSnoc(Taken(ops), nick, m);
    }
  }

  lemma {:induction false} LastOfEither(ops: seq<ModeOp>, nick: string, m: char)
    ensures Last(ops, nick, m) == None <==> !Gets(Given(ops), nick, m) && !Gets(Taken(ops), nick, m)
    ensures Last(ops, nick, m) == Some(true) ==> Gets(Given(ops), nick, m)
    ensures Last(ops, nick, m) == Some(false) ==> Gets(Taken(ops), nick, m)
  {
    if ops != [] {
      LastOfEither(ops[..|ops| - 1], nick, m);
      TakenSnoc(ops, nick, m);
    }
  }

  /** A nick is last given a mode that the same change also takes from it. */
  ghost predicate GivenBack(ops: seq<ModeOp>, nick: string, m: char) {
    Last(ops, nick, m) == Some(true) && Gets(Taken(ops), nick, m)
  }

  /** For one member and one mode the change is as if made in order exactly when the mode is not given
      back. */
  lemma MemberInOrderExactly(
    k: Kinds, ms: Members, ch: string, ops: seq<ModeOp>, p: (string, string), m: char)
    requires p in ms && IsListed(k.userModes, m)
    ensures p in ApplyMembers(k.userModes, ms, ch, ops) && p in InOrder(k.userModes, ms, ch, ops)
    ensures (m in ApplyMembers(k.userModes, ms, ch, ops)[p] <==> m in InOrder(k.userModes, ms, ch, ops)[p]) <==>
            !(p.0 == ch && GivenBack(ops, p.1, m))
  {
    MemberModesExactly(k, ms, ch, ops, p, m);
    InOrderExactly(k.userModes, ms, ch, ops, p, m);
    LastOfEither(ops, p.1, m);
    match Last(ops, p.1, m)
    case None =>
    case Some(_) =>
  }

  lemma {:induction false} InOrderKeeps(info: ModeInfo, ms: Members, ch: string, ops: seq<ModeOp>)
    ensures InOrder(info, ms, ch, ops).Keys == ms.Keys
  {
    if ops != [] {
      InOrderKeeps(info, ms, ch, ops[..|ops| - 1]);
    }
  }

  /** Only modes with a display symbol are given or taken. */
  ghost predicate AllListed(info: ModeInfo, ops: seq<ModeOp>) {
    forall op :: op in ops && (op.GiveUserMode? || op.TakeUserMode?) ==> IsListed(info, op.mode)
  }

  lemma {:induction false} UnlistedKept(
    info: ModeInfo, ms: Members, ch: string, ops: seq<ModeOp>, p: (string, string), m: char)
    requires p in ms && !IsListed(info, m) && AllListed(info, ops)
    ensures p in InOrder(info, ms, ch, ops) && (m in InOrder(info, ms, ch, ops)[p] <==> m in ms[p])
    ensures !Gets(Given(ops), p.1, m) && !Gets(Taken(ops), p.1, m)
  {
    if ops != [] {
      assert ops[|ops| - 1] in ops;
      UnlistedKept(info, ms, ch, ops[..|ops| - 1], p, m);
      TakenSnoc(ops, p.1, m);
    }
  }

  /** The whole change is as if made in the order written exactly when no member of the channel is given
      back a mode. */
  lemma ModesInOrderExactly(k: Kinds, ms: Members, ch: string, ops: seq<ModeOp>)
    requires AllListed(k.userModes, ops)
    ensures ApplyMembers(k.userModes, ms, ch, ops) == InOrder(k.userModes, ms, ch, ops) <==>
            forall p, m :: p in ms && p.0 == ch && IsListed(k.userModes, m) ==> !GivenBack(ops, p.1, m)
  {
    var now, ordered := ApplyMembers(k.userModes, ms, ch, ops), InOrder(k.userModes, ms, ch, ops);
    GiveAllKeys(k.userModes, ms, ch, Given(ops));
    TakeAllKeys(GiveAll(k.userModes, ms, ch, Given(ops)), ch, Taken(ops));
    InOrderKeeps(k.userModes, ms, ch, ops);
    forall p, m | p in ms
      ensures (m in now[p] <==> m in ordered[p]) <==>
              !(IsListed(k.userModes, m) && p.0 == ch && GivenBack(ops, p.1, m))
    {
      if IsListed(k.userModes, m) {
        MemberInOrderExactly(k, ms, ch, ops, p, m);
      } else {
        MemberModesExactly(k, ms, ch, ops, p, m);
        UnlistedKept(k.userModes, ms, ch, ops, p, m);
      }
    }
    if forall p, m :: p in ms && p.0 == ch && IsListed(k.userModes, m) ==> !GivenBack(ops, p.1, m) {
      forall p | p in ms ensures now[p] == ordered[p] {
        forall m ensures m in now[p] <==> m in ordered[p] {
          assert IsListed(k.userModes, m) && p.0 == ch ==> !GivenBack(ops, p.1, m);
        }
      }
    }
  }

  lemma UserModeListed(k: Kinds, c: char)
    ensures k.IsUserMode(c) <==> IsListed(k.userModes, c)
  {
    var i := Slot(k.userModes, c);
    if i < |k.userModes| {
      assert k.userModes[i].0 == c;
    }
  }

  /** What a modestring asks for is always listed. */
  lemma ModestringListed(k: Kinds, modestring: string)
    ensures AllListed(k.userModes, OpsOf(k, modestring))
  {
    var splits := Split(TrimSpace(modestring), ' ');
    OpsFit(k, splits[0], true, splits[1..]);
    forall op | op in OpsOf(k, modestring) && (op.GiveUserMode? || op.TakeUserMode?)
      ensures IsListed(k.userModes, op.mode)
    {
      UserModeListed(k, op.mode);
    }
  }

  /** A MODE event for a known channel gives and takes user modes as if in the order written exactly when
      no member of the channel is given back a mode. */
  lemma ModeEventInOrder(k: Kinds, v: View, ev: Event)
    requires |ev.args| >= 1 && ev.IsTargetChan() && Target(ev, 0) in v.rooms && ModeAnswerable(k, v, ev)
    ensures var ch, ops := Target(ev, 0), ModeOps(k, ev, 1);
            HandleMode(k, v, ev).members == InOrder(k.userModes, v.members, ch, ops) <==>
            forall p, m :: p in v.members && p.0 == ch && IsListed(k.userModes, m) ==> !GivenBack(ops, p.1, m)
  {
    ModestringListed(k, Join(ev.args[1..], ' '));
    ModesInOrderExactly(k, v.members, Target(ev, 0), ModeOps(k, ev, 1));
  }

  /** A user mode that is no kind of channel mode. */
  predicate IsPlainUserMode(k: Kinds, c: char) {
    k.IsUserMode(c) && (k.KindOf(c).Unlisted? || k.KindOf(c).ArgsNone?) && PlainLetter(c)
  }

  lemma TakeGiveOps(k: Kinds, c: char, nick: string)
    requires IsPlainUserMode(k, c) && nick != "" && SpaceFree(nick)
    ensures OpsOf(k, Join([TwoLetters('-', c, '+')] + [nick, nick], ' ')) ==
            [TakeUserMode(c, nick)] + [GiveUserMode(c, nick)]
  {
    var args := [nick, nick];
    OpsOfWords(k, TwoLetters('-', c, '+'), args);
    OpsSign(k, '-', [c] + (['+'] + [c]), true, args);
    OpsLetter(k, c, ['+'] + [c], false, args);
    OpsSign(k, '+', [c], false, args[1..]);
    OpsLetter(k, c, [], true, args[1..]);
    assert [c] + [] == [c];
  }

  /** `-o+o n n`, for any such mode and member: in order the member ends with the mode, and it is lost. */
  lemma GiftLost(k: Kinds, ms: Members, ch: string, c: char, nick: string)
    requires IsPlainUserMode(k, c) && nick != "" && SpaceFree(nick) && (ch, ToLower(nick)) in ms
    ensures var ops, p := OpsOf(k, Join([TwoLetters('-', c, '+')] + [nick, nick], ' ')), (ch, ToLower(nick));
            && p in ApplyMembers(k.userModes, ms, ch, ops) && c !in ApplyMembers(k.userModes, ms, ch, ops)[p]
            && p in InOrder(k.userModes, ms, ch, ops) && c in InOrder(k.userModes, ms, ch, ops)[p]
  {
    var p := (ch, ToLower(nick));
    var first: seq<ModeOp> := [TakeUserMode(c, nick)];
    var ops := first + [GiveUserMode(c, nick)];
    TakeGiveOps(k, c, nick);
    assert ops[..1] == first && first[..0] == [];
    TakenSnoc(first, p.1, c);
    TakenSnoc(ops, p.1, c);
    UserModeListed(k, c);
    MemberModesExactly(k, ms, ch, ops, p, c);
    InOrderExactly(k.userModes, ms, ch, ops, p, c);
  }
}
