/** What every event keeps, when the bot's own user stays listed, and which modes members end with. */
module StateLaws {
  import opened Seqs
  import opened Text
  import opened ModeParsing
  import opened ModeSets
  import opened ModeLaws
  import opened Hosts
  import opened UserBits
  import opened StateView

  // ---- keys --------------------------------------------------------------------------------

  lemma AddUserKeeps(v: View, host: string)
    requires WellFormed(v)
    ensures WellFormed(AddUser(v, host))
  {
  }

  lemma SeenKeeps(v: View, ev: Event)
    requires WellFormed(v)
    ensures WellFormed(Seen(v, ev))
  {
    AddUserKeeps(v, ev.sender);
  }

  lemma RemoveUserKeeps(v: View, key: string)
    requires WellFormed(v)
    ensures WellFormed(RemoveUser(v, key))
  {
  }

  lemma AddMemberKeeps(v: View, key: string, ch: string)
    requires WellFormed(v)
    ensures WellFormed(AddMember(v, key, ch))
  {
  }

  /** A host made from a nick is stored under that nick's key exactly when the nick holds no delimiter. */
  lemma HostKey(nick: string, rest: string)
    ensures Key(nick + (['!'] + rest)) == ToLower(nick) <==> '!' !in nick && '@' !in nick
  {
    var host := nick + (['!'] + rest);
    if '!' !in nick && '@' !in nick {
      NickOfFull(nick, ['!'] + rest);
    } else {
      var i: nat :| i < |nick| && (nick[i] == '!' || nick[i] == '@');
      assert host[i] == nick[i];
      assert |Nick(host)| <= i;
    }
  }

  lemma RenameHostKey(ev: Event)
    requires |ev.args| >= 1
    ensures Key(RenameHost(ev)) == Target(ev, 0) <==> '!' !in ev.args[0] && '@' !in ev.args[0]
  {
    var parts := SplitHost(ev.sender);
    HostText(ev.args[0], ['!'], parts.user, ['@'], parts.hostname);
    Associate(ev.args[0], ['!'], parts.user + ['@'] + parts.hostname);
    HostKey(ev.args[0], parts.user + ['@'] + parts.hostname);
  }

  lemma RenamePeople(v: View, from: string, to: string, host: string)
    requires WellFormed(v) && from in v.people && (from == to || Covered(v, from, to))
    ensures WellFormed(Rename(v, from, to, host)) <==> from == to || Key(host) == to
  {
    RenamedMembersKnown(v, from, to);
    var moved := Person(host, v.people[from].name);
    MovedKeys(v.people, from, to, moved);
  }

  lemma RenamedMembersKnown(v: View, from: string, to: string)
    requires WellFormed(v) && from in v.people && (from == to || Covered(v, from, to))
    ensures forall p :: p in RenameMembers(v, from, to) ==>
              p.0 in v.rooms && p.1 != from && (p.1 == to || p.1 in v.people)
  {
  }

  ghost predicate Keyed(people: map<string, Person>) {
    forall n :: n in people ==> Key(people[n].host) == n
  }

  lemma MovedKeys(people: map<string, Person>, from: string, to: string, moved: Person)
    requires Keyed(people)
    ensures Keyed(people[to := moved] - {from}) <==> from == to || Key(moved.host) == to
  {
    if from != to {
      assert to in people[to := moved] - {from};
    }
  }

  /** The only event that can leave a user under a key that is not its nick's: a rename to a text
      with `!` or `@` in it. */
  predicate KeepsKeys(v: View, ev: Event)
    requires |ev.args| >= 1
  {
    var from := RenameFrom(ev);
    from !in v.people || from == Target(ev, 0) || ('!' !in ev.args[0] && '@' !in ev.args[0])
  }

  lemma NickKeepsExactly(v: View, ev: Event)
    requires WellFormed(v) && |ev.args| >= 1 && RenameKeeps(v, ev)
    ensures WellFormed(HandleNick(v, ev)) <==> KeepsKeys(v, ev)
  {
    if RenameFrom(ev) in v.people {
      RenamePeople(v, RenameFrom(ev), Target(ev, 0), RenameHost(ev));
      RenameHostKey(ev);
    }
  }

  lemma AddNickKeeps(info: ModeInfo, v: View, channel: string, nick: string, i: nat)
    requires WellFormed(v)
    ensures WellFormed(AddNick(info, v, channel, nick, i)) && AddNick(info, v, channel, nick, i).self == v.self
  {
    AddUserKeeps(v, nick);
    AddMemberKeeps(AddUser(v, nick), Key(nick), ToLower(channel));
  }

  lemma {:induction false} AddNamesKeeps(info: ModeInfo, v: View, channel: string, tokens: seq<string>)
    requires WellFormed(v)
    ensures WellFormed(AddNames(info, v, channel, tokens)) && AddNames(info, v, channel, tokens).self == v.self
  {
    if tokens != [] {
      var init, token := AddNames(info, v, channel, tokens[..|tokens| - 1]), tokens[|tokens| - 1];
      AddNamesKeeps(info, v, channel, tokens[..|tokens| - 1]);
      if token != "" {
        AddNickKeeps(info, init, channel, NickIn(info, token), SymbolSlot(info, token[0]));
      }
    }
  }

  lemma AddWhoKeeps(info: ModeInfo, v: View, host: string, channel: string, symbols: string, name: string)
    requires WellFormed(v)
    ensures var r := AddWho(info, v, host, channel, symbols, name); WellFormed(r) && r.self == v.self
  {
    var key, ch := Key(host), ToLower(channel);
    var w := AddMember(AddUser(v, host), key, ch);
    AddUserKeeps(v, host);
    AddMemberKeeps(AddUser(v, host), key, ch);
    GiveSymbolsKeys(info, w.members, (ch, key), symbols);
    if key in w.people {
      NameKeeps(w, key, name, GiveSymbols(info, w.members, (ch, key), symbols));
    }
  }

  lemma NameKeeps(v: View, key: string, name: string, members: Members)
    requires WellFormed(v) && key in v.people && members.Keys == v.members.Keys
    ensures WellFormed(v.(people := v.people[key := v.people[key].(name := name)], members := members))
  {
  }

  lemma ModeKeeps(k: Kinds, v: View, ev: Event)
    requires WellFormed(v) && |ev.args| >= 1 && ModeAnswerable(k, v, ev)
    ensures WellFormed(HandleMode(k, v, ev)) && HandleMode(k, v, ev).self == v.self
  {
    var ops := ModeOps(k, ev, 1);
    GiveAllKeys(k.userModes, v.members, Target(ev, 0), Given(ops));
    TakeAllKeys(GiveAll(k.userModes, v.members, Target(ev, 0), Given(ops)), Target(ev, 0), Taken(ops));
  }

  lemma JoinKeeps(v: View, ev: Event)
    requires WellFormed(v) && |ev.args| >= 1
    ensures WellFormed(HandleJoin(v, ev)) && HandleJoin(v, ev).self == v.self
  {
    var w := if ev.sender == SelfHost(v) then AddRoom(v, ev.args[0]) else v;
    AddMemberKeeps(w, Key(ev.sender), Target(ev, 0));
  }

  lemma LeaveKeeps(v: View, key: string, ch: string)
    requires WellFormed(v)
    ensures WellFormed(RemoveRoom(v, ch)) && WellFormed(RemoveMember(v, key, ch))
  {
  }

  lemma RoomKeeps(v: View, ch: string, topic: string, ops: seq<ModeOp>)
    requires WellFormed(v)
    ensures WellFormed(SetTopic(v, ch, topic)) && WellFormed(RunRoom(v, ch, ops))
  {
  }

  lemma WhoKeeps(info: ModeInfo, v: View, ev: Event)
    requires WellFormed(v) && |ev.args| >= 8 && ' ' in ev.args[7]
    ensures WellFormed(HandleWho(info, v, ev)) && HandleWho(info, v, ev).self == v.self
  {
    AddWhoKeeps(info, v, WhoHost(ev.args), ev.args[1], ev.args[6], ev.args[7][IndexOf(ev.args[7], ' ') + 1..]);
  }

  /** Everything that does not concern the bot's own user keeps it and the keys. */
  lemma OthersKeep(k: Kinds, v: View, ev: Event)
    requires WellFormed(v) && Answerable(k, v, ev) && Keeps(k, v, ev)
    requires !ev.name.NICK? && !ev.name.QUIT? && !ev.name.RPL_WELCOME?
    ensures WellFormed(Handle(k, v, ev)) && Handle(k, v, ev).self == v.self
  {
    match ev.name
    case JOIN => JoinKeeps(v, ev);
    case PART => LeaveKeeps(v, Key(ev.sender), Target(ev, 0));
    case KICK => LeaveKeeps(v, Key(ev.args[1]), Target(ev, 0));
    case MODE => ModeKeeps(k, v, ev);
    case TOPIC => RoomKeeps(v, Target(ev, 0), if |ev.args| >= 2 then ev.args[1] else "", []);
    case RPL_TOPIC => RoomKeeps(v, Target(ev, 1), ev.args[2], []);
    case PRIVMSG => AddMemberKeeps(v, Key(ev.sender), Target(ev, 0));
    case NOTICE => AddMemberKeeps(v, Key(ev.sender), Target(ev, 0));
    case RPL_NAMREPLY => AddNamesKeeps(k.userModes, v, ev.args[2], Fields(ev.args[3]));
    case RPL_WHOREPLY => WhoKeeps(k.userModes, v, ev);
    case RPL_CHANNELMODEIS => RoomKeeps(v, Target(ev, 1), "", ModeOps(k, ev, 2));
    case RPL_BANLIST => RoomKeeps(v, Target(ev, 1), "", [ModeOp.SetAddress(BAN_MODE, ev.args[2])]);
    case OTHER(_) =>
  }

  lemma HandleKeepsExactly(k: Kinds, v: View, ev: Event)
    requires WellFormed(v) && Answerable(k, v, ev) && Keeps(k, v, ev)
    ensures WellFormed(Handle(k, v, ev)) <==> (ev.name.NICK? ==> KeepsKeys(v, ev))
  {
    match ev.name
    case NICK => NickKeepsExactly(v, ev);
    case QUIT => RemoveUserKeeps(v, Key(ev.sender));
    case RPL_WELCOME =>
    case _ => OthersKeep(k, v, ev);
  }

  /** Every event keeps users under the keys of their nicks, but for the renames above. */
  lemma UpdateKeepsExactly(k: Kinds, v: View, ev: Event)
    requires WellFormed(v) && Accepts(k, v, ev) && Keeps(k, Seen(v, ev), ev)
    ensures WellFormed(Update(k, v, ev)) <==> (ev.name.NICK? ==> KeepsKeys(Seen(v, ev), ev))
  {
    SeenKeeps(v, ev);
    HandleKeepsExactly(k, Seen(v, ev), ev);
  }

  // ---- the bot's own user --------------------------------------------------------------------

  /** The sender is taken for the bot exactly when it has the bot's key, and is a full host (which is
      then noted first) or the host already noted. */
  lemma SenderIsSelfExactly(v: View, ev: Event)
    requires WellFormed(v) && v.self.Listed?
    ensures ev.sender == SelfHost(Seen(v, ev)) <==>
            Key(ev.sender) == v.self.key && (IsFull(ev.sender) || ev.sender == SelfHost(v))
  {
  }

  /** The bot's entry survives a rename that is neither onto its key nor a change of case of its own
      nick, and a quit that is not its own or comes from its full host. */
  predicate SelfSafe(v: View, ev: Event)
    requires v.self.Listed? && (ev.name.NICK? ==> |ev.args| >= 1)
  {
    match ev.name
    case NICK =>
      var from, to := RenameFrom(ev), Target(ev, 0);
      from !in Seen(v, ev).people || to != v.self.key
    case QUIT => Key(ev.sender) != v.self.key || IsFull(ev.sender) || ev.sender == SelfHost(v)
    case _ => true
  }

  lemma NickListed(v: View, ev: Event)
    requires v.self.Listed? && v.self.key in v.people && |ev.args| >= 1 && RenameKeeps(v, ev)
    ensures HandleNick(v, ev).self.Listed? <==> RenameFrom(ev) !in v.people || Target(ev, 0) != v.self.key
  {
  }

  lemma QuitListed(v: View, ev: Event)
    requires v.self.Listed? && v.self.key in v.people
    ensures HandleQuit(v, ev).self.Listed? <==> Key(ev.sender) != v.self.key || ev.sender == SelfHost(v)
  {
  }

  /** The bot's user object stays listed exactly on the safe events. */
  lemma SelfListedExactly(k: Kinds, v: View, ev: Event)
    requires WellFormed(v) && v.self.Listed? && Accepts(k, v, ev) && Keeps(k, Seen(v, ev), ev)
    ensures Update(k, v, ev).self.Listed? <==> SelfSafe(v, ev)
  {
    var seen := Seen(v, ev);
    SeenKeeps(v, ev);
    assert seen.self == v.self;
    match ev.name
    case NICK => NickListed(seen, ev);
    case QUIT =>
      QuitListed(seen, ev);
      SenderIsSelfExactly(v, ev);
    case RPL_WELCOME =>
    case _ => OthersKeep(k, seen, ev);
  }

  /** States one event apart. */
  ghost predicate IsRun(k: Kinds, vs: seq<View>, evs: seq<Event>) {
    && |vs| == |evs| + 1
    && forall i :: 0 <= i < |evs| ==>
         && Accepts(k, vs[i], evs[i]) && Keeps(k, Seen(vs[i], evs[i]), evs[i])
         && vs[i + 1] == Update(k, vs[i], evs[i])
  }

  ghost predicate IsSafeRun(vs: seq<View>, evs: seq<Event>)
    requires |vs| == |evs| + 1
  {
    forall i :: 0 <= i < |evs| ==>
      && (evs[i].name.NICK? ==> |evs[i].args| >= 1 && KeepsKeys(Seen(vs[i], evs[i]), evs[i]))
      && (vs[i].self.Listed? ==> SelfSafe(vs[i], evs[i]))
  }

  /** Over a whole run from the first welcome on, the bot's own user object stays listed under the key
      of its nick. */
  lemma {:induction false} SelfStays(k: Kinds, vs: seq<View>, evs: seq<Event>, n: nat)
    requires IsRun(k, vs, evs) && n <= |evs|
    requires WellFormed(vs[0]) && vs[0].self.Listed?
    requires IsSafeRun(vs, evs)
    ensures WellFormed(vs[n]) && vs[n].self.Listed? && Key(SelfHost(vs[n])) == vs[n].self.key
  {
    if n > 0 {
      SelfStays(k, vs, evs, n - 1);
      UpdateKeepsExactly(k, vs[n - 1], evs[n - 1]);
      SelfListedExactly(k, vs[n - 1], evs[n - 1]);
      assert vs[n - 1 + 1] == Update(k, vs[n - 1], evs[n - 1]);
    }
  }

  predicate IsOwn(v: View, ev: Event)
    requires v.self.Listed?
  {
    Key(ev.sender) == v.self.key && (IsFull(ev.sender) || ev.sender == SelfHost(v))
  }

  lemma JoinOpens(v: View, ev: Event, ch: string)
    requires |ev.args| >= 1
    ensures ch in HandleJoin(v, ev).rooms <==> ch in v.rooms || (ev.sender == SelfHost(v) && ch == Target(ev, 0))
  {
  }

  lemma PartCloses(v: View, ev: Event, ch: string)
    requires |ev.args| >= 1
    ensures ch in HandlePart(v, ev).rooms <==> ch in v.rooms && !(ev.sender == SelfHost(v) && ch == Target(ev, 0))
  {
  }

  lemma HandledRooms(k: Kinds, v: View, ev: Event, ch: string)
    requires Answerable(k, v, ev) && Keeps(k, v, ev)
    ensures ev.name.JOIN? ==>
              (ch in Handle(k, v, ev).rooms <==> ch in v.rooms || (ev.sender == SelfHost(v) && ch == Target(ev, 0)))
    ensures ev.name.PART? ==>
              (ch in Handle(k, v, ev).rooms <==> ch in v.rooms && !(ev.sender == SelfHost(v) && ch == Target(ev, 0)))
  {
    if ev.name.JOIN? {
      JoinOpens(v, ev, ch);
    } else if ev.name.PART? {
      PartCloses(v, ev, ch);
    }
  }

  /** Channels appear when the bot joins them, and go when it parts; no one else's join or part does. */
  lemma OwnEvents(k: Kinds, v: View, ev: Event, ch: string)
    requires WellFormed(v) && v.self.Listed? && Accepts(k, v, ev)
    ensures ev.name.JOIN? ==>
              (ch in Update(k, v, ev).rooms <==> ch in v.rooms || (IsOwn(v, ev) && ch == Target(ev, 0)))
    ensures ev.name.PART? ==>
              (ch in Update(k, v, ev).rooms <==> ch in v.rooms && !(IsOwn(v, ev) && ch == Target(ev, 0)))
  {
    SenderIsSelfExactly(v, ev);
    assert Seen(v, ev).rooms == v.rooms;
    if ev.name.JOIN? || ev.name.PART? {
      HandledRooms(k, Seen(v, ev), ev, ch);
    }
  }

  /** A mode change in the bot's name takes effect exactly when the bot's nick holds no capital letter:
      the target is put in lower case and compared with the nick as it is. */
  lemma OwnModesExactly(k: Kinds, v: View, ev: Event)
    requires ev.name.MODE? && Accepts(k, v, ev) && !ev.IsTargetChan() && |ev.args| >= 2
    requires var w := Seen(v, ev);
             && Target(ev, 0) == Key(SelfHost(w))
             && Run(w.selfModes, OpsOf(SELF_KINDS, ev.args[1])) != w.selfModes
    ensures var w := Seen(v, ev);
            Update(k, v, ev).selfModes == Run(w.selfModes, OpsOf(SELF_KINDS, ev.args[1])) <==>
            ToLower(Nick(SelfHost(w))) == Nick(SelfHost(w))
  {
  }

  /** `MODE Bot +i` for a bot called `Bot`, or any nick with a capital in front. */
  lemma OwnModesLost(k: Kinds, v: View, host: string, letter: char)
    requires v.self.Listed? && v.self.key in v.people && v.people[v.self.key].host == host
    requires host != "" && 'A' <= host[0] <= 'Z' && PlainLetter(letter) && letter !in v.selfModes.flags
    ensures var ev := Event(MODE, "", [Nick(host), [letter]], "");
            Accepts(k, v, ev) && Update(k, v, ev) == v && letter in Run(v.selfModes, OpsOf(SELF_KINDS, [letter])).flags
  {
    var nick := Nick(host);
    assert nick != "" && nick[0] == host[0];
    assert ToLower(nick)[0] == LowerChar(nick[0]);
    assert ToLower(nick) != nick;
    OneFlag(v.selfModes, letter);
  }

  /** A single letter is read as a flag of the bot's own modes. */
  lemma OneFlag(s: ModeSet, letter: char)
    requires PlainLetter(letter)
    ensures letter in Run(s, OpsOf(SELF_KINDS, [letter])).flags
  {
    var args: seq<string> := [];
    OpsOfWords(SELF_KINDS, [letter], args);
    assert [letter] == [letter] + "";
    OpsLetter(SELF_KINDS, letter, "", true, args);
    assert Join([[letter]] + args, ' ') == [letter];
    assert [ModeOp.SetMode(letter)][..0] == [];
    assert Run(s, [ModeOp.SetMode(letter)]) == Step(s, ModeOp.SetMode(letter));
  }

  // ---- renames -------------------------------------------------------------------------------

  /** The person has moved: it stands under the new nick's key with the new host, and no longer under
      the sender's key. */
  ghost predicate HasMoved(r: View, ev: Event)
    requires |ev.args| >= 1
  {
    && Target(ev, 0) in r.people && r.people[Target(ev, 0)].host == RenameHost(ev)
    && Key(ev.sender) !in r.people
  }

  /** The key a rename starts from: the sender's, if it parses. */
  lemma RenameFromKey(ev: Event)
    ensures RenameFrom(ev) == if SplitHost(ev.sender) != NO_PARTS then Key(ev.sender) else ""
  {
    SplitNick(ev.sender);
  }

  lemma HandledExactly(v: View, ev: Event)
    requires |ev.args| >= 1 && RenameKeeps(v, ev) && Key(ev.sender) in v.people
    ensures HasMoved(HandleNick(v, ev), ev) <==>
            RenameFrom(ev) == Key(ev.sender) && Key(ev.sender) != Target(ev, 0)
  {
    MovedExactly(v, RenameFrom(ev), Target(ev, 0), RenameHost(ev), Key(ev.sender));
  }

  lemma MovedExactly(v: View, from: string, to: string, host: string, key: string)
    requires key in v.people && (from !in v.people || from == to || Covered(v, from, to))
    ensures var r := if from in v.people then Rename(v, from, to, host) else v;
            to in r.people && r.people[to].host == host && key !in r.people <==> from == key && key != to
  {
  }

  /** A rename from a full host is carried out exactly when the sender parses, or has the empty key, and
      the new nick has another key. */
  lemma RenamedExactly(k: Kinds, v: View, ev: Event)
    requires ev.name.NICK? && IsFull(ev.sender) && Accepts(k, v, ev) && Keeps(k, Seen(v, ev), ev)
    ensures HasMoved(Update(k, v, ev), ev) <==>
            (SplitHost(ev.sender) != NO_PARTS || Key(ev.sender) == "") && Key(ev.sender) != Target(ev, 0)
  {
    RenameFromKey(ev);
    HandledExactly(Seen(v, ev), ev);
  }

  /** A nick may hold `-`, `{`, `|` or `}`, and a sender with such a nick does not parse. */
  lemma OddNickUnparsed(nick: string, rest: string, c: char)
    requires c in nick && (c == '-' || '{' <= c <= '}') && '!' !in nick
    ensures SplitHost(nick + (['!'] + rest)) == NO_PARTS
  {
    var host := nick + (['!'] + rest);
    IndexAfter(nick, ['!'] + rest, '!');
    assert host[..|nick|] == nick;
    assert CutHost(host).nick == nick && !IsNickChar(c);
  }

  /** The rename of someone called, say, `a-b` is not seen: only the sender is noted. */
  lemma OddNickKept(k: Kinds, nick: string, rest: string, c: char, to: string)
    requires c in nick && (c == '-' || '{' <= c <= '}') && '!' !in nick && '@' !in nick && '@' in rest
    ensures var ev := Event(NICK, nick + (['!'] + rest), [to], "");
            && Accepts(k, EMPTY_VIEW, ev) && Keeps(k, Seen(EMPTY_VIEW, ev), ev)
            && Update(k, EMPTY_VIEW, ev).people == map[ToLower(nick) := Person(ev.sender, "")]
  {
    var ev := Event(NICK, nick + (['!'] + rest), [to], "");
    OddNickUnparsed(nick, rest, c);
    RenameFromKey(ev);
    FullHost(nick, rest);
    NickOfFull(nick, ['!'] + rest);
    assert |ToLower(nick)| == |nick|;
    OnlyNoted(k, ev, ToLower(nick));
  }

  lemma FullHost(nick: string, rest: string)
    requires '@' in rest
    ensures nick + (['!'] + rest) != "" && IsFull(nick + (['!'] + rest))
  {
    var host := nick + (['!'] + rest);
    assert host[|nick|] == '!';
    var i :| 0 <= i < |rest| && rest[i] == '@';
    assert host[|nick| + 1 + i] == '@';
  }

  lemma OnlyNoted(k: Kinds, ev: Event, key: string)
    requires ev.name.NICK? && |ev.args| >= 1 && ev.sender != "" && IsFull(ev.sender)
    requires Key(ev.sender) == key != RenameFrom(ev)
    ensures Accepts(k, EMPTY_VIEW, ev) && Keeps(k, Seen(EMPTY_VIEW, ev), ev)
    ensures Update(k, EMPTY_VIEW, ev).people == map[key := Person(ev.sender, "")]
  {
    FirstNoted(ev);
    UnknownRename(k, Seen(EMPTY_VIEW, ev), ev);
  }

  lemma FirstNoted(ev: Event)
    requires ev.sender != "" && IsFull(ev.sender)
    ensures Enterable(EMPTY_VIEW, ev.sender)
    ensures Seen(EMPTY_VIEW, ev).people == map[Key(ev.sender) := Person(ev.sender, "")]
  {
  }

  lemma UnknownRename(k: Kinds, v: View, ev: Event)
    requires ev.name.NICK? && |ev.args| >= 1 && RenameFrom(ev) !in v.people
    ensures Answerable(k, v, ev) && Keeps(k, v, ev) && Handle(k, v, ev) == v
  {
  }

  // ---- name lists --------------------------------------------------------------------------

  ghost predicate Named(info: ModeInfo, tokens: seq<string>, key: string) {
    exists t :: t in tokens && t != "" && Key(NickIn(info, t)) == key
  }

  lemma NamedSnoc(info: ModeInfo, tokens: seq<string>, key: string)
    requires tokens != []
    ensures var t := tokens[|tokens| - 1];
            Named(info, tokens, key) <==>
            Named(info, tokens[..|tokens| - 1], key) || (t != "" && Key(NickIn(info, t)) == key)
  {
    var init, t := tokens[..|tokens| - 1], tokens[|tokens| - 1];
    assert tokens == init + [t];
    assert t in tokens;
    if Named(info, init, key) {
      var x :| x in init && x != "" && Key(NickIn(info, x)) == key;
      assert x in tokens;
    }
  }

  /** `p` is an old membership, or one of a named user on a known channel. */
  ghost predicate Explained(v: View, r: View, ch: string, p: (string, string), named: bool) {
    p in v.members || (p.0 == ch && p.0 in v.rooms && p.1 in r.people && named)
  }

  lemma NamesStep(info: ModeInfo, v: View, w: View, channel: string, t: string, p: (string, string), named: bool)
    requires t != "" && w.rooms == v.rooms
    requires p in w.members <==> Explained(v, w, ToLower(channel), p, named)
    ensures var r := AddName(info, w, channel, t);
            p in r.members <==> Explained(v, r, ToLower(channel), p, named || Key(NickIn(info, t)) == p.1)
  {
    AddNickMembers(info, w, channel, NickIn(info, t), SymbolSlot(info, t[0]));
  }

  /** After a name list the members of a known channel are the old ones and the named users. */
  lemma {:induction false} NamesExactly(info: ModeInfo, v: View, channel: string, tokens: seq<string>, p: (string, string))
    ensures var r := AddNames(info, v, channel, tokens);
            p in r.members <==> Explained(v, r, ToLower(channel), p, Named(info, tokens, p.1))
  {
    if tokens != [] {
      var init, t := tokens[..|tokens| - 1], tokens[|tokens| - 1];
      var w := AddNames(info, v, channel, init);
      NamesExactly(info, v, channel, init, p);
      AddNamesGrows(info, v, channel, init);
      NamedSnoc(info, tokens, p.1);
      if t != "" {
        NamesStep(info, v, w, channel, t, p, Named(info, init, p.1));
      }
    }
  }
}
