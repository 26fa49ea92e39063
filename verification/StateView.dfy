/** The state database as one plain value, and what each event does to it. */
module StateView {
  import opened Seqs
  import opened Text
  import opened ModeSets
  import opened ModeParsing
  import opened Hosts
  import opened UserBits

  datatype Person = Person(host: string, name: string)
  datatype Room = Room(name: string, topic: string, modes: ModeSet)

  /** The bot's own user: not known yet, one of the listed users, or an object no longer listed. */
  datatype SelfView = NoSelf | Listed(key: string) | Detached(person: Person)

  /** The modes of a user on a channel, under the keys of the channel and of the user. */
  type Members = map<(string, string), set<char>>

  datatype View = View(
    people: map<string, Person>,
    rooms: map<string, Room>,
    members: Members,
    self: SelfView,
    selfModes: ModeSet)

  const EMPTY_VIEW := View(map[], map[], map[], NoSelf, EMPTY_SET)

  type Kinds = k: ModeKinds | |k.userModes| <= BITS_IN_BYTE witness ModeKinds(map[], [])

  /** The modes of the bot itself have no kinds: every letter is a flag. */
  const SELF_KINDS: Kinds := ModeKinds(map[], [])

  /** Letter of the ban list, whatever the kinds say of it. */
  const BAN_MODE := 'b'

  datatype Command =
    | NICK | JOIN | PART | QUIT | KICK | MODE | TOPIC | PRIVMSG | NOTICE
    | RPL_WELCOME | RPL_TOPIC | RPL_NAMREPLY | RPL_WHOREPLY | RPL_CHANNELMODEIS | RPL_BANLIST
    | OTHER(name: string)

  datatype Event = Event(name: Command, sender: string, args: seq<string>, chantypes: string) {
    predicate IsTargetChan()
      requires |args| > 0
    {
      args[0] != "" && args[0][0] in chantypes
    }
  }

  // ---- empty names -------------------------------------------------------------------------
  //
  // For an empty text the program stores a nil user or channel, under the empty key. It shows as a
  // person without a host or a room without a name. What asks such an entry for a field fails.

  predicate NoNilUser(v: View, key: string) {
    key in v.people ==> v.people[key].host != ""
  }

  predicate NoNilRoom(v: View, ch: string) {
    ch in v.rooms ==> v.rooms[ch].name != ""
  }

  /** Noting a full host compares it with the host already stored. */
  predicate Enterable(v: View, host: string) {
    IsFull(host) ==> NoNilUser(v, Key(host))
  }

  // ---- the operations ----------------------------------------------------------------------

  function AddUser(v: View, host: string): View {
    var key := Key(host);
    if IsServer(host) || (key in v.people && !IsFull(host)) then v
    else v.(people := v.people[key := Person(host, if key in v.people then v.people[key].name else "")])
  }

  function RemoveUser(v: View, key: string): View {
    View(v.people - {key}, v.rooms,
         map p | p in v.members && p.1 != key :: v.members[p],
         if v.self == Listed(key) && key in v.people then Detached(v.people[key]) else v.self,
         v.selfModes)
  }

  function AddRoom(v: View, name: string): View {
    if ToLower(name) in v.rooms then v
    else v.(rooms := v.rooms[ToLower(name) := Room(name, "", EMPTY_SET)])
  }

  function RemoveRoom(v: View, ch: string): View {
    v.(rooms := v.rooms - {ch}, members := map p | p in v.members && p.0 != ch :: v.members[p])
  }

  function AddMember(v: View, key: string, ch: string): View {
    if key in v.people && ch in v.rooms && (ch, key) !in v.members then v.(members := v.members[(ch, key) := {}])
    else v
  }

  function RemoveMember(v: View, key: string, ch: string): View {
    v.(members := v.members - {(ch, key)})
  }

  function GiveMode(info: ModeInfo, ms: Members, p: (string, string), mode: char): Members {
    if p in ms then ms[p := ms[p] + KnownLetter(info, mode)] else ms
  }

  function TakeMode(ms: Members, p: (string, string), mode: char): Members {
    if p in ms then ms[p := ms[p] - {mode}] else ms
  }

  function GiveAll(info: ModeInfo, ms: Members, ch: string, us: seq<UserMode>): Members {
    if us == [] then ms
    else
      var u := us[|us| - 1];
      GiveMode(info, GiveAll(info, ms, ch, us[..|us| - 1]), (ch, ToLower(u.arg)), u.mode)
  }

  function TakeAll(ms: Members, ch: string, us: seq<UserMode>): Members {
    if us == [] then ms
    else
      var u := us[|us| - 1];
      TakeMode(TakeAll(ms, ch, us[..|us| - 1]), (ch, ToLower(u.arg)), u.mode)
  }

  lemma {:induction false} GiveAllKeys(info: ModeInfo, ms: Members, ch: string, us: seq<UserMode>)
    ensures GiveAll(info, ms, ch, us).Keys == ms.Keys
  {
    if us != [] {
      GiveAllKeys(info, ms, ch, us[..|us| - 1]);
    }
  }

  lemma GiveAllSnoc(info: ModeInfo, ms: Members, ch: string, us: seq<UserMode>, i: nat)
    requires i < |us|
    ensures GiveAll(info, ms, ch, us[..i]).Keys == ms.Keys
    ensures GiveAll(info, ms, ch, us[..i + 1]) ==
            GiveMode(info, GiveAll(info, ms, ch, us[..i]), (ch, ToLower(us[i].arg)), us[i].mode)
  {
    GiveAllKeys(info, ms, ch, us[..i]);
    assert us[..i + 1][..i] == us[..i];
  }

  lemma TakeAllSnoc(ms: Members, ch: string, us: seq<UserMode>, i: nat)
    requires i < |us|
    ensures TakeAll(ms, ch, us[..i]).Keys == ms.Keys
    ensures TakeAll(ms, ch, us[..i + 1]) == TakeMode(TakeAll(ms, ch, us[..i]), (ch, ToLower(us[i].arg)), us[i].mode)
  {
    TakeAllKeys(ms, ch, us[..i]);
    assert us[..i + 1][..i] == us[..i];
  }

  lemma {:induction false} TakeAllKeys(ms: Members, ch: string, us: seq<UserMode>)
    ensures TakeAll(ms, ch, us).Keys == ms.Keys
  {
    if us != [] {
      TakeAllKeys(ms, ch, us[..|us| - 1]);
    }
  }

  function SetTopic(v: View, ch: string, topic: string): View {
    if ch in v.rooms then v.(rooms := v.rooms[ch := v.rooms[ch].(topic := topic)]) else v
  }

  function RunRoom(v: View, ch: string, ops: seq<ModeOp>): View {
    if ch in v.rooms && NoNilRoom(v, ch) then
      v.(rooms := v.rooms[ch := v.rooms[ch].(modes := Run(v.rooms[ch].modes, ops))])
    else v
  }

  /** Every channel of the nick that is taken over is also one of the renamed nick's. */
  predicate Covered(v: View, from: string, to: string) {
    forall p :: p in v.members && p.1 == to ==> (p.0, from) in v.members
  }

  function RenameMembers(v: View, from: string, to: string): Members
    requires from == to || Covered(v, from, to)
  {
    map p | p in (set q | q in v.members :: (q.0, if q.1 == from then to else q.1)) && p.1 != from ::
      v.members[if p.1 == to then (p.0, from) else p]
  }

  lemma RenameMembersAt(v: View, from: string, to: string, p: (string, string))
    requires from != to && Covered(v, from, to)
    ensures p in RenameMembers(v, from, to) <==>
              p.1 != from && (p in v.members || (p.1 == to && (p.0, from) in v.members))
  {
    if p in v.members && p.1 != from {
      assert p == (p.0, if p.1 == from then to else p.1);
    }
    if p.1 == to && (p.0, from) in v.members {
      var q := (p.0, from);
      assert p == (q.0, if q.1 == from then to else q.1);
    }
  }

  function RenameSelf(v: View, from: string, to: string, moved: Person): SelfView {
    if v.self == Listed(from) then if from == to then Detached(moved) else Listed(to)
    else if v.self == Listed(to) && to in v.people then Detached(v.people[to])
    else v.self
  }

  /** The key is on no channel. */
  predicate Free(v: View, key: string) {
    forall p :: p in v.members ==> p.1 != key
  }

  /** With equal keys the user is dropped. */
  function Rename(v: View, from: string, to: string, host: string): View
    requires from == to || Covered(v, from, to)
  {
    if from !in v.people then v
    else
      var moved := Person(host, v.people[from].name);
      View(v.people[to := moved] - {from}, v.rooms, RenameMembers(v, from, to), RenameSelf(v, from, to, moved), v.selfModes)
  }

  function Welcome(v: View, host: string): View {
    v.(people := v.people[Key(host) := Person(host, "")], self := Listed(Key(host)))
  }

  /** A nick that is or becomes known is on a known channel after it is entered there. */
  lemma EnteredIsMember(v: View, host: string, ch: string)
    requires (!IsServer(host) || Key(host) in v.people) && ch in v.rooms
    ensures (ch, Key(host)) in AddMember(AddUser(v, host), Key(host), ch).members
  {
  }

  /** A nick is entered on a channel, and gets the mode of entry `i` if there is one. */
  function AddNick(info: ModeInfo, v: View, channel: string, nick: string, i: nat): View {
    var w := AddMember(AddUser(v, nick), Key(nick), ToLower(channel));
    if i < |info| then w.(members := GiveMode(info, w.members, (ToLower(channel), Key(nick)), info[i].0)) else w
  }

  /** The nick in a token of a name list. */
  function NickIn(info: ModeInfo, token: string): string {
    if token != "" && SymbolSlot(info, token[0]) < |info| then token[1..] else token
  }

  /** A name with the symbol of a user mode in front is a nick with that mode. */
  function AddName(info: ModeInfo, v: View, channel: string, token: string): View {
    if token == "" then v
    else AddNick(info, v, channel, NickIn(info, token), SymbolSlot(info, token[0]))
  }

  function AddNames(info: ModeInfo, v: View, channel: string, tokens: seq<string>): View {
    if tokens == [] then v
    else AddName(info, AddNames(info, v, channel, tokens[..|tokens| - 1]), channel, tokens[|tokens| - 1])
  }

  lemma AddNickMembers(info: ModeInfo, v: View, channel: string, nick: string, i: nat)
    ensures var r := AddNick(info, v, channel, nick, i);
            && r.rooms == v.rooms && r.people == AddUser(v, nick).people
            && r.members.Keys ==
               v.members.Keys + (if Key(nick) in r.people && ToLower(channel) in v.rooms then {(ToLower(channel), Key(nick))} else {})
  {
  }

  /** Names add users and memberships, and leave the channels alone. */
  lemma {:induction false} AddNamesGrows(info: ModeInfo, v: View, channel: string, tokens: seq<string>)
    ensures var r := AddNames(info, v, channel, tokens);
            r.rooms == v.rooms && v.people.Keys <= r.people.Keys && v.members.Keys <= r.members.Keys
  {
    if tokens != [] {
      AddNamesGrows(info, v, channel, tokens[..|tokens| - 1]);
      var init, t := AddNames(info, v, channel, tokens[..|tokens| - 1]), tokens[|tokens| - 1];
      if t != "" {
        AddNickMembers(info, init, channel, NickIn(info, t), SymbolSlot(info, t[0]));
      }
    }
  }

  lemma {:induction false} GiveSymbolsKeys(info: ModeInfo, ms: Members, p: (string, string), symbols: string)
    ensures GiveSymbols(info, ms, p, symbols).Keys == ms.Keys
  {
    if symbols != "" {
      GiveSymbolsKeys(info, ms, p, symbols[..|symbols| - 1]);
    }
  }

  function GiveSymbols(info: ModeInfo, ms: Members, p: (string, string), symbols: string): Members {
    if symbols == "" then ms
    else
      var rest := GiveSymbols(info, ms, p, symbols[..|symbols| - 1]);
      var mode := ModeOf(info, symbols[|symbols| - 1]);
      if mode != '\0' then GiveMode(info, rest, p, mode) else rest
  }

  lemma GiveSymbolsSnoc(info: ModeInfo, ms: Members, p: (string, string), symbols: string, i: nat)
    requires i < |symbols|
    ensures var rest, mode := GiveSymbols(info, ms, p, symbols[..i]), ModeOf(info, symbols[i]);
            GiveSymbols(info, ms, p, symbols[..i + 1]) == if mode != '\0' then GiveMode(info, rest, p, mode) else rest
  {
    assert symbols[..i + 1][..i] == symbols[..i];
  }

  /** The host text a who reply describes. */
  function WhoHost(args: seq<string>): string
    requires |args| >= 6
  {
    args[5] + ['!'] + args[2] + ['@'] + args[3]
  }

  function AddWho(info: ModeInfo, v: View, host: string, channel: string, symbols: string, name: string): View {
    var key := Key(host);
    var w := AddMember(AddUser(v, host), key, ToLower(channel));
    if key !in w.people then w
    else
      w.(people := w.people[key := w.people[key].(name := name)],
         members := GiveSymbols(info, w.members, (ToLower(channel), key), symbols))
  }

  // ---- the handlers ------------------------------------------------------------------------

  /** The host text of the bot's own user. */
  function SelfHost(v: View): string {
    match v.self
    case NoSelf => ""
    case Listed(k) => if k in v.people then v.people[k].host else ""
    case Detached(p) => p.host
  }

  /** The state the handlers see: the sender is noted first. */
  function Seen(v: View, ev: Event): View {
    if ev.sender == "" then v else AddUser(v, ev.sender)
  }

  function Target(ev: Event, i: nat): string
    requires i < |ev.args|
  {
    ToLower(ev.args[i])
  }

  function ModeOps(k: Kinds, ev: Event, i: nat): seq<ModeOp>
    requires i <= |ev.args|
  {
    OpsOf(k, Join(ev.args[i..], ' '))
  }

  function WelcomeHost(ev: Event): string
    requires |ev.args| >= 2 && Fields(ev.args[1]) != []
  {
    var splits := Fields(ev.args[1]);
    var host := splits[|splits| - 1];
    if IsFull(host) then host else ev.args[0]
  }

  /** A name with a symbol holds a nick that is or becomes known, on a known channel. */
  predicate NickAnswerable(info: ModeInfo, v: View, ch: string, nick: string, i: nat) {
    && Enterable(v, nick)
    && (i < |info| ==> (!IsServer(nick) || Key(nick) in v.people) && ch in v.rooms)
  }

  predicate NameAnswerable(info: ModeInfo, v: View, ch: string, token: string) {
    token != "" ==> NickAnswerable(info, v, ch, NickIn(info, token), SymbolSlot(info, token[0]))
  }

  predicate NamesAnswerable(info: ModeInfo, v: View, channel: string, tokens: seq<string>) {
    forall i :: 0 <= i < |tokens| ==>
      NameAnswerable(info, AddNames(info, v, channel, tokens[..i]), ToLower(channel), tokens[i])
  }

  predicate ModeAnswerable(k: Kinds, v: View, ev: Event)
    requires |ev.args| >= 1
  {
    if ev.IsTargetChan() then
      Target(ev, 0) in v.rooms ==>
        && NoNilRoom(v, Target(ev, 0))
        && forall u :: u in Given(ModeOps(k, ev, 1)) + Taken(ModeOps(k, ev, 1)) ==> (Target(ev, 0), ToLower(u.arg)) in v.members
    else
      v.self != NoSelf && (Target(ev, 0) == Nick(SelfHost(v)) ==> |ev.args| >= 2)
  }

  function RenameFrom(ev: Event): string {
    ToLower(SplitHost(ev.sender).nick)
  }

  /** The handler gets through: no missing argument, no missing user or membership and no nil entry
      asked for anything. `v` is the state after the sender is noted. */
  predicate Answerable(k: Kinds, v: View, ev: Event) {
    match ev.name
    case NICK => |ev.args| >= 1 && NoNilUser(v, RenameFrom(ev))
    case JOIN => |ev.args| >= 1 && v.self != NoSelf
    case PART => |ev.args| >= 1 && v.self != NoSelf
    case QUIT => v.self != NoSelf
    case KICK => |ev.args| >= 2 && v.self != NoSelf
    case MODE => |ev.args| >= 1 && ModeAnswerable(k, v, ev)
    case TOPIC => |ev.args| >= 1 && NoNilRoom(v, Target(ev, 0))
    case PRIVMSG => |ev.args| >= 1
    case NOTICE => |ev.args| >= 1
    case RPL_WELCOME => |ev.args| >= 2 && Fields(ev.args[1]) != [] && WelcomeHost(ev) != ""
    case RPL_TOPIC => |ev.args| >= 3 && NoNilRoom(v, Target(ev, 1))
    case RPL_NAMREPLY => |ev.args| >= 4 && NamesAnswerable(k.userModes, v, ev.args[2], Fields(ev.args[3]))
    case RPL_WHOREPLY => |ev.args| >= 8 && ' ' in ev.args[7] && Enterable(v, WhoHost(ev.args))
    case RPL_CHANNELMODEIS => |ev.args| >= 2
    case RPL_BANLIST => |ev.args| >= 3
    case OTHER(_) => true
  }

  function RenameHost(ev: Event): string
    requires |ev.args| >= 1
  {
    var parts := SplitHost(ev.sender);
    ev.args[0] + ['!'] + parts.user + ['@'] + parts.hostname
  }

  /** The links survive the rename: the sender is unknown, the key stays the same and the user is
      dropped, or every channel of the key taken over is also one of the sender's. */
  predicate RenameKeeps(v: View, ev: Event)
    requires |ev.args| >= 1
  {
    RenameFrom(ev) !in v.people || RenameFrom(ev) == Target(ev, 0) || Covered(v, RenameFrom(ev), Target(ev, 0))
  }

  /** The events that keep the two indices inverse: all but some renames, and the welcome of a nick
      that is already on a channel. */
  predicate Keeps(k: Kinds, v: View, ev: Event)
    requires Answerable(k, v, ev)
  {
    (ev.name.NICK? ==> RenameKeeps(v, ev)) &&
    (ev.name.RPL_WELCOME? ==> Free(v, Key(WelcomeHost(ev))))
  }

  function HandleNick(v: View, ev: Event): View
    requires |ev.args| >= 1 && RenameKeeps(v, ev)
  {
    if RenameFrom(ev) in v.people then Rename(v, RenameFrom(ev), Target(ev, 0), RenameHost(ev)) else v
  }

  function HandleJoin(v: View, ev: Event): View
    requires |ev.args| >= 1
  {
    var w := if ev.sender == SelfHost(v) then AddRoom(v, ev.args[0]) else v;
    AddMember(w, Key(ev.sender), Target(ev, 0))
  }

  function HandlePart(v: View, ev: Event): View
    requires |ev.args| >= 1
  {
    if ev.sender == SelfHost(v) then RemoveRoom(v, Target(ev, 0)) else RemoveMember(v, Key(ev.sender), Target(ev, 0))
  }

  function HandleQuit(v: View, ev: Event): View {
    if ev.sender != SelfHost(v) then RemoveUser(v, Key(ev.sender)) else v
  }

  function HandleKick(v: View, ev: Event): View
    requires |ev.args| >= 2
  {
    if ev.args[1] == Nick(SelfHost(v)) then RemoveRoom(v, Target(ev, 0))
    else RemoveMember(v, Key(ev.args[1]), Target(ev, 0))
  }

  function ApplyMembers(info: ModeInfo, ms: Members, ch: string, ops: seq<ModeOp>): Members {
    TakeAll(GiveAll(info, ms, ch, Given(ops)), ch, Taken(ops))
  }

  function HandleMode(k: Kinds, v: View, ev: Event): View
    requires |ev.args| >= 1 && ModeAnswerable(k, v, ev)
  {
    if ev.IsTargetChan() then
      if Target(ev, 0) !in v.rooms then v
      else
        RunRoom(v, Target(ev, 0), ModeOps(k, ev, 1)).(
          members := ApplyMembers(k.userModes, v.members, Target(ev, 0), ModeOps(k, ev, 1)))
    else if Target(ev, 0) == Nick(SelfHost(v)) then
      v.(selfModes := Run(v.selfModes, OpsOf(SELF_KINDS, ev.args[1])))
    else v
  }

  function HandleMsg(v: View, ev: Event): View
    requires |ev.args| >= 1
  {
    if ev.IsTargetChan() then AddMember(v, Key(ev.sender), Target(ev, 0)) else v
  }

  function HandleWho(info: ModeInfo, v: View, ev: Event): View
    requires |ev.args| >= 8 && ' ' in ev.args[7]
  {
    AddWho(info, v, WhoHost(ev.args), ev.args[1], ev.args[6], ev.args[7][IndexOf(ev.args[7], ' ') + 1..])
  }

  function Handle(k: Kinds, v: View, ev: Event): View
    requires Answerable(k, v, ev) && Keeps(k, v, ev)
  {
    match ev.name
    case NICK => HandleNick(v, ev)
    case JOIN => HandleJoin(v, ev)
    case PART => HandlePart(v, ev)
    case QUIT => HandleQuit(v, ev)
    case KICK => HandleKick(v, ev)
    case MODE => HandleMode(k, v, ev)
    case TOPIC => SetTopic(v, Target(ev, 0), if |ev.args| >= 2 then ev.args[1] else "")
    case RPL_TOPIC => SetTopic(v, Target(ev, 1), ev.args[2])
    case PRIVMSG => HandleMsg(v, ev)
    case NOTICE => HandleMsg(v, ev)
    case RPL_WELCOME => Welcome(v, WelcomeHost(ev))
    case RPL_NAMREPLY => AddNames(k.userModes, v, ev.args[2], Fields(ev.args[3]))
    case RPL_WHOREPLY => HandleWho(k.userModes, v, ev)
    case RPL_CHANNELMODEIS => RunRoom(v, Target(ev, 1), ModeOps(k, ev, 2))
    case RPL_BANLIST => RunRoom(v, Target(ev, 1), [ModeOp.SetAddress(BAN_MODE, ev.args[2])])
    case OTHER(_) => v
  }

  /** The event does not end in a failure. */
  predicate Accepts(k: Kinds, v: View, ev: Event) {
    (ev.sender != "" ==> Enterable(v, ev.sender)) && Answerable(k, Seen(v, ev), ev)
  }

  function Update(k: Kinds, v: View, ev: Event): View
    requires Accepts(k, v, ev) && Keeps(k, Seen(v, ev), ev)
  {
    Handle(k, Seen(v, ev), ev)
  }

  /** Every user is stored under the key of its host, members are users and channels that are known,
      and a listed bot is one of the users. */
  ghost predicate WellFormed(v: View) {
    && (forall n :: n in v.people ==> Key(v.people[n].host) == n)
    && (forall p :: p in v.members ==> p.0 in v.rooms && p.1 in v.people)
    && (v.self.Listed? ==> v.self.key in v.people)
  }
}
