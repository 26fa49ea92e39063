/** The state database as it is kept: two inverse indices over shared objects, refining `StateView`. */
module IrcState {
  import opened Seqs
  import opened Text
  import opened ModeSets
  import opened ModeParsing
  import opened Modes
  import opened Hosts
  import opened UserBits
  import opened StateView
  import D = StateDb
  import T = StateTables

  class User {
    var host: string
    var name: string

    constructor (nickorhost: string)
      ensures host == nickorhost && name == ""
    {
      host := nickorhost;
      name := "";
    }
  }

  class Channel {
    const name: string
    const modes: ChannelModes
    var topic: string

    constructor (name: string, kinds: Kinds)
      ensures this.name == name && topic == ""
      ensures fresh(modes) && modes.Ok() && modes.Value() == EMPTY_SET && modes.kinds == kinds
    {
      this.name := name;
      topic := "";
      modes := new ChannelModes(kinds);
    }
  }

  lemma RunOne(s: ModeSet, op: ModeOp)
    ensures Run(s, [op]) == Step(s, op)
  {
    assert Run(s, [op][..0]) == s;
  }

  type Index<T> = map<string, map<string, T>>
  type ChannelUser = D.ChannelUser<User?, UserModes>
  type UserChannel = D.UserChannel<Channel?, UserModes>

  /** `delete` of one key from every inner map. */
  method EraseEverywhere<T>(index: Index<T>, key: string) returns (r: Index<T>)
    ensures r == D.Without(index, key)
  {
    r := index;
    var todo := index.Keys;
    while todo != {}
      invariant todo <= index.Keys && r.Keys == index.Keys
      invariant forall k :: k in index ==> r[k] == if k in todo then index[k] else index[k] - {key}
      decreases todo
    {
      var k :| k in todo;
      r := r[k := r[k] - {key}];
      todo := todo - {k};
    }
  }

  /** Every entry under one key is moved to another: assigned there, then deleted. */
  method MoveEverywhere<T>(index: Index<T>, from: string, to: string) returns (r: Index<T>)
    ensures r == map k | k in index :: D.Moved(index[k], from, to)
  {
    r := index;
    var todo := index.Keys;
    while todo != {}
      invariant todo <= index.Keys && r.Keys == index.Keys
      invariant forall k :: k in index ==> r[k] == if k in todo then index[k] else D.Moved(index[k], from, to)
      decreases todo
    {
      var k :| k in todo;
      if from in r[k] {
        r := r[k := r[k][to := r[k][from]]];
        r := r[k := r[k] - {from}];
      }
      todo := todo - {k};
    }
  }

  class State {
    const kinds: Kinds
    const selfModes: ChannelModes
    var self: User?
    var channels: map<string, Channel?>
    var users: map<string, User?>
    var channelUsers: Index<ChannelUser>
    var userChannels: Index<UserChannel>

    /** The value the state stands for. */
    ghost var view: View

    // What the objects hold, and the objects themselves. Nil entries count as objects that hold nothing.
    ghost var persons: map<User?, Person>
    ghost var held: map<Channel?, Room>
    ghost var bits: map<UserModes, set<char>>
    ghost var Repr: set<object>

    ghost function Tables(): T.Tables<User?, Channel?, UserModes>
      reads `channels, `users, `channelUsers, `userChannels, `persons, `held, `bits, `self
    {
      T.Tables(D.Db(channels, users, channelUsers, userChannels), persons, held, bits,
               if self == null then None else Some(self))
    }

    ghost predicate Contained()
      reads `persons, `bits, `held, `Repr
    {
      && bits.Keys <= Repr && selfModes in Repr && this !in Repr
      && (forall u :: u in persons && u != null ==> u in Repr)
      && forall c :: c in held && c != null ==> c in Repr && c.modes in Repr
    }

    ghost predicate UsersMirrored()
      reads this`persons, persons.Keys
    {
      && null in persons && persons[null] == Person("", "")
      && forall u :: u in persons && u != null ==> persons[u] == Person(u.host, u.name)
    }

    ghost predicate BitsMirrored()
      reads this`bits, bits.Keys
    {
      forall m :: m in bits ==> bits[m] == m.Held() && m.info == kinds.userModes
    }

    /** Every channel has a mode set of its own, apart from the bot's. */
    ghost predicate RoomsMirrored()
      reads this`held, held.Keys, set c | c in held.Keys && c != null :: c.modes
    {
      && null in held && held[null] == Room("", "", EMPTY_SET)
      && (forall c :: c in held && c != null ==>
           && c.name != "" && held[c] == Room(c.name, c.topic, c.modes.Value())
           && c.modes.Ok() && c.modes.kinds == kinds && c.modes != selfModes)
      && forall c, d :: c in held && d in held && c != null && d != null && c.modes == d.modes ==> c == d
    }

    ghost predicate SelfMirrored()
      reads this`view, selfModes
    {
      view.selfModes == selfModes.Value() && selfModes.Ok() && selfModes.kinds == SELF_KINDS
    }

    /** Nil entries stand under the empty key alone. */
    ghost predicate NilsEmpty()
      reads `users, `channels
    {
      && (forall n :: n in users && users[n] == null ==> n == "")
      && (forall c :: c in channels && channels[c] == null ==> c == "")
    }

    ghost predicate Mirrored()
      reads this, Repr
    {
      NilsEmpty() && Contained() && UsersMirrored() && BitsMirrored() && RoomsMirrored() && SelfMirrored()
    }

    ghost predicate Valid()
      reads this, Repr
    {
      Mirrored() && T.Shows(Tables(), view)
    }

    constructor (kinds: Kinds)
      ensures Valid() && fresh(Repr) && view == EMPTY_VIEW && this.kinds == kinds
    {
      this.kinds := kinds;
      selfModes := new ChannelModes(SELF_KINDS);
      self := null;
      channels, users, channelUsers, userChannels := map[], map[], map[], map[];
      view, bits := EMPTY_VIEW, map[];
      persons, held := map[null := Person("", "")], map[null := Room("", "", EMPTY_SET)];
      new;
      Repr := {selfModes};
    }

    // ---- one object at a time --------------------------------------------------------------

    /** There is no user for an empty text. */
    method NewUser(host: string) returns (u: User?)
      requires Contained() && UsersMirrored()
      modifies this`persons, this`Repr
      ensures Contained() && UsersMirrored() && fresh(Repr - old(Repr))
      ensures if host == "" then u == null else fresh(u) && u !in old(persons)
      ensures persons == old(persons)[u := Person(host, "")]
    {
      if |host| == 0 {
        return null;
      }
      u := new User(host);
      persons := persons[u := Person(host, "")];
      Repr := Repr + {u};
    }

    method SetHost(u: User, host: string)
      requires UsersMirrored() && u in persons
      modifies u`host, this`persons
      ensures UsersMirrored() && persons == old(persons)[u := Person(host, old(persons[u].name))]
    {
      u.host := host;
      persons := persons[u := Person(host, u.name)];
    }

    method SetRealname(u: User, name: string)
      requires UsersMirrored() && u in persons
      modifies u`name, this`persons
      ensures UsersMirrored() && persons == old(persons)[u := Person(old(persons[u].host), name)]
    {
      u.name := name;
      persons := persons[u := Person(u.host, name)];
    }

    /** There is no channel without a name. */
    method NewChannel(name: string) returns (c: Channel?)
      requires Contained() && RoomsMirrored()
      modifies this`held, this`Repr
      ensures Contained() && RoomsMirrored() && fresh(Repr - old(Repr))
      ensures if name == "" then c == null else c != null && c !in old(held)
      ensures held == old(held)[c := Room(name, "", EMPTY_SET)]
    {
      if |name| == 0 {
        return null;
      }
      c := new Channel(name, kinds);
      held := held[c := Room(name, "", EMPTY_SET)];
      Repr := Repr + {c, c.modes};
    }

    method SetTopic(c: Channel, topic: string)
      requires RoomsMirrored() && c in held
      modifies c`topic, this`held
      ensures RoomsMirrored() && held == old(held)[c := old(held[c]).(topic := topic)]
    {
      c.topic := topic;
      held := held[c := held[c].(topic := topic)];
    }

    method ApplyRoom(c: Channel, modestring: string) returns (given: seq<UserMode>, taken: seq<UserMode>)
      requires RoomsMirrored() && c in held
      modifies c.modes, this`held
      ensures RoomsMirrored()
      ensures held == old(held)[c := old(held[c]).(modes := Run(old(held[c]).modes, OpsOf(kinds, modestring)))]
      ensures given == Given(OpsOf(kinds, modestring)) && taken == Taken(OpsOf(kinds, modestring))
    {
      given, taken := c.modes.Apply(modestring);
      held := held[c := Room(c.name, c.topic, c.modes.Value())];
    }

    method AddBan(c: Channel, ban: string)
      requires RoomsMirrored() && c in held
      modifies c.modes, this`held
      ensures RoomsMirrored()
      ensures held == old(held)[c := old(held[c]).(modes := Step(old(held[c]).modes, ModeOp.SetAddress(BAN_MODE, ban)))]
    {
      c.modes.SetAddress(BAN_MODE, ban);
      held := held[c := Room(c.name, c.topic, c.modes.Value())];
    }

    method NewUserModes(ghost after: View) returns (m: UserModes)
      requires Mirrored() && after.selfModes == view.selfModes
      modifies this`bits, this`Repr, this`view
      ensures Mirrored() && m !in old(bits) && fresh(Repr - old(Repr)) && bits == old(bits)[m := {}] && view == after
    {
      view := after;
      m := new UserModes(kinds.userModes);
      bits := bits[m := {}];
      Repr := Repr + {m};
    }

    method SetBit(m: UserModes, mode: char)
      requires BitsMirrored() && m in bits
      modifies m, this`bits
      ensures BitsMirrored() && bits == old(bits)[m := old(bits[m]) + KnownLetter(kinds.userModes, mode)]
    {
      m.SetMode(mode);
      bits := bits[m := m.Held()];
    }

    method UnsetBit(m: UserModes, mode: char)
      requires BitsMirrored() && m in bits
      modifies m, this`bits
      ensures BitsMirrored() && bits == old(bits)[m := old(bits[m]) - {mode}]
    {
      m.UnsetMode(mode);
      bits := bits[m := m.Held()];
    }

    // ---- users and channels ----------------------------------------------------------------
    //
    // Each operation comes in two layers. The `Store` and `Drop` methods change the maps and objects and
    // say what that does to the tables; the operation adds the lemma of `StateTables` by which the tables
    // then show the new value.

    method Scan(host: string) returns (excl: bool, at: bool, per: bool)
      ensures excl == ('!' in host) && at == ('@' in host) && per == ('.' in host)
    {
      excl, at, per := false, false, false;
      for i := 0 to |host|
        invariant excl == ('!' in host[..i]) && at == ('@' in host[..i]) && per == ('.' in host[..i])
      {
        assert host[..i + 1] == host[..i] + [host[i]];
        match host[i]
        case '!' => excl := true;
        case '@' => at := true;
        case '.' => per := true;
        case _ =>
      }
      assert host[..|host|] == host;
    }

    method StoreUser(nick: string, host: string, ghost after: View) returns (user: User?)
      requires Mirrored() && after.selfModes == view.selfModes && (host == "" ==> nick == "")
      modifies this`users, this`persons, this`Repr, this`view
      ensures Mirrored() && fresh(Repr - old(Repr)) && view == after
      ensures if host == "" then user == null else user != null && user !in old(persons)
      ensures Tables() == T.PutUser(old(Tables()), nick, user, Person(host, ""))
    {
      view := after;
      user := NewUser(host);
      users := users[nick := user];
    }

    method PutUser(nick: string, host: string)
      requires Valid() && nick !in users && (host == "" ==> nick == "")
      modifies this, Repr
      ensures Valid() && fresh(Repr - old(Repr)) && self == old(self)
      ensures view == old(view).(people := old(view).people[nick := Person(host, "")])
    {
      ghost var t, v := Tables(), view;
      var user := StoreUser(nick, host, v.(people := v.people[nick := Person(host, "")]));
      T.PutUserShows(t, v, nick, user, Person(host, ""));
    }

    method StoreHost(nick: string, host: string, ghost after: View)
      requires Mirrored() && nick in users && users[nick] != null && users[nick] in persons && after.selfModes == view.selfModes
      modifies users[nick], this`persons, this`view
      ensures Mirrored() && view == after
      ensures Tables() == old(Tables()).(
                persons := old(persons)[users[nick] := Person(host, old(persons[users[nick]].name))])
    {
      view := after;
      SetHost(users[nick], host);
    }

    method Rehost(nick: string, host: string)
      requires Valid() && nick in users && users[nick] != null
      modifies this, Repr
      ensures Valid() && Repr == old(Repr) && self == old(self)
      ensures view == old(view).(people := old(view).people[nick := Person(host, old(view).people[nick].name)])
    {
      ghost var t, v, p := Tables(), view, Person(host, view.people[nick].name);
      StoreHost(nick, host, v.(people := v.people[nick := p]));
      T.StorePersonShows(t, v, nick, p);
    }

    method AddUser(nickorhost: string)
      requires Valid() && Enterable(view, nickorhost)
      modifies this, Repr
      ensures Valid() && fresh(Repr - old(Repr)) && self == old(self)
      ensures view == StateView.AddUser(old(view), nickorhost)
    {
      var excl, at, per := Scan(nickorhost);
      if per && !(excl && at) {
        return;
      }
      var nick := Key(nickorhost);
      if nick in users {
        if excl && at && users[nick].host != nickorhost {
          Rehost(nick, nickorhost);
        }
      } else {
        PutUser(nick, nickorhost);
      }
    }

    method DropUser(nick: string, ghost after: View)
      requires Mirrored() && after.selfModes == view.selfModes
      modifies this`channelUsers, this`userChannels, this`users, this`view
      ensures Mirrored() && view == after
      ensures Tables() == old(Tables()).(db := D.RemoveUser(old(Tables()).db, nick))
    {
      view := after;
      channelUsers := EraseEverywhere(channelUsers, nick);
      userChannels := userChannels - {nick};
      users := users - {nick};
    }

    method RemoveUser(nickorhost: string)
      requires Valid()
      modifies this, Repr
      ensures Valid() && Repr == old(Repr) && self == old(self)
      ensures view == StateView.RemoveUser(old(view), Key(nickorhost))
    {
      ghost var t, v := Tables(), view;
      DropUser(Key(nickorhost), StateView.RemoveUser(v, Key(nickorhost)));
      T.RemoveUserShows(t, v, Key(nickorhost));
    }

    method StoreChannel(chankey: string, channel: string, ghost after: View) returns (ch: Channel?)
      requires Mirrored() && after.selfModes == view.selfModes && chankey == ToLower(channel)
      modifies this`channels, this`held, this`Repr, this`view
      ensures Mirrored() && fresh(Repr - old(Repr)) && view == after
      ensures if channel == "" then ch == null && chankey == "" else ch != null && ch !in old(held)
      ensures Tables() == T.PutChannel(old(Tables()), chankey, ch, Room(channel, "", EMPTY_SET))
    {
      view := after;
      ch := NewChannel(channel);
      channels := channels[chankey := ch];
    }

    method AddChannel(channel: string)
      requires Valid()
      modifies this, Repr
      ensures Valid() && fresh(Repr - old(Repr)) && self == old(self)
      ensures view == AddRoom(old(view), channel)
    {
      var chankey := ToLower(channel);
      if chankey !in channels {
        ghost var t, v := Tables(), view;
        var ch := StoreChannel(chankey, channel, AddRoom(v, channel));
        T.PutChannelShows(t, v, chankey, ch, Room(channel, "", EMPTY_SET));
      }
    }

    method DropChannel(channel: string, ghost after: View)
      requires Mirrored() && after.selfModes == view.selfModes
      modifies this`channelUsers, this`userChannels, this`channels, this`view
      ensures Mirrored() && view == after
      ensures Tables() == old(Tables()).(db := D.RemoveChannel(old(Tables()).db, channel))
    {
      view := after;
      userChannels := EraseEverywhere(userChannels, channel);
      channelUsers := channelUsers - {channel};
      channels := channels - {channel};
    }

    method RemoveChannel(channel: string)
      requires Valid()
      modifies this, Repr
      ensures Valid() && Repr == old(Repr) && self == old(self)
      ensures view == RemoveRoom(old(view), ToLower(channel))
    {
      ghost var t, v := Tables(), view;
      DropChannel(ToLower(channel), RemoveRoom(v, ToLower(channel)));
      T.RemoveChannelShows(t, v, ToLower(channel));
    }

    /** Enters a membership in the maps of the channel and of the user, empty when they have none yet. */
    method Link(nick: string, channel: string, modes: UserModes)
      requires Mirrored() && D.CanJoin(Tables().db, nick, channel)
      modifies this`channelUsers, this`userChannels
      ensures Mirrored()
      ensures Tables() == old(Tables()).(db := D.AddTo(old(Tables()).db, nick, channel, modes))
    {
      var cu := if channel in channelUsers then channelUsers[channel] else map[];
      var uc := if nick in userChannels then userChannels[nick] else map[];
      channelUsers := channelUsers[channel := cu[nick := D.ChannelUser(users[nick], modes)]];
      userChannels := userChannels[nick := uc[channel := D.UserChannel(channels[channel], modes)]];
    }

    method StoreMember(nick: string, channel: string, ghost after: View) returns (modes: UserModes)
      requires Mirrored() && after.selfModes == view.selfModes
      requires D.CanJoin(Tables().db, nick, channel)
      modifies this`channelUsers, this`userChannels, this`bits, this`Repr, this`view
      ensures Mirrored() && fresh(Repr - old(Repr)) && modes !in old(bits) && view == after
      ensures var t := old(Tables());
              Tables() == t.(db := D.AddTo(t.db, nick, channel, modes), bits := t.bits[modes := {}])
    {
      modes := NewUserModes(after);
      Link(nick, channel, modes);
    }

    method AddToChannel(nickorhost: string, channelName: string)
      requires Valid()
      modifies this, Repr
      ensures Valid() && fresh(Repr - old(Repr)) && self == old(self)
      ensures view == AddMember(old(view), Key(nickorhost), ToLower(channelName))
    {
      var nick, channel := Key(nickorhost), ToLower(channelName);
      ghost var t, v := Tables(), view;
      T.JoinAllowed(t, v, nick, channel);
      if nick !in users || channel !in channels {
        return;
      }
      var cuhas := channel in channelUsers && nick in channelUsers[channel];
      var uchas := nick in userChannels && channel in userChannels[nick];
      if cuhas || uchas {
        return;
      }
      var modes := StoreMember(nick, channel, AddMember(v, nick, channel));
      T.AddToShows(t, v, nick, channel, modes);
    }

    method DropMember(nick: string, channel: string, ghost after: View)
      requires Mirrored() && after.selfModes == view.selfModes
      modifies this`channelUsers, this`userChannels, this`view
      ensures Mirrored() && view == after
      ensures Tables() == old(Tables()).(db := D.RemoveFrom(old(Tables()).db, nick, channel))
    {
      view := after;
      if channel in channelUsers {
        channelUsers := channelUsers[channel := channelUsers[channel] - {nick}];
      }
      if nick in userChannels {
        userChannels := userChannels[nick := userChannels[nick] - {channel}];
      }
    }

    method RemoveFromChannel(nickorhost: string, channel: string)
      requires Valid()
      modifies this, Repr
      ensures Valid() && Repr == old(Repr) && self == old(self)
      ensures view == RemoveMember(old(view), Key(nickorhost), ToLower(channel))
    {
      ghost var t, v := Tables(), view;
      DropMember(Key(nickorhost), ToLower(channel), RemoveMember(v, Key(nickorhost), ToLower(channel)));
      T.RemoveFromShows(t, v, Key(nickorhost), ToLower(channel));
    }

    // ---- modes and topics ------------------------------------------------------------------

    method StoreMode(m: UserModes, mode: char, give: bool, ghost after: View)
      requires Mirrored() && m in bits && after.selfModes == view.selfModes
      modifies m, this`bits, this`view
      ensures Mirrored() && view == after && Repr == old(Repr)
      ensures Tables() == old(Tables()).(bits := old(bits)[m :=
                if give then old(bits[m]) + KnownLetter(kinds.userModes, mode) else old(bits[m]) - {mode}])
    {
      view := after;
      if give {
        SetBit(m, mode);
      } else {
        UnsetBit(m, mode);
      }
    }

    method SetMemberMode(nick: string, channel: string, mode: char)
      requires Valid() && (channel, nick) in view.members
      modifies this, Repr
      ensures Valid() && Repr == old(Repr) && self == old(self)
      ensures view == old(view).(members := GiveMode(kinds.userModes, old(view).members, (channel, nick), mode))
    {
      ghost var t, v := Tables(), view;
      ghost var modes := v.members[(channel, nick)] + KnownLetter(kinds.userModes, mode);
      assert T.In(channelUsers, channel, nick);
      StoreMode(channelUsers[channel][nick].modes, mode, true, v.(members := v.members[(channel, nick) := modes]));
      T.StoreBitsShows(t, v, channel, nick, modes);
    }

    method UnsetMemberMode(nick: string, channel: string, mode: char)
      requires Valid() && (channel, nick) in view.members
      modifies this, Repr
      ensures Valid() && Repr == old(Repr) && self == old(self)
      ensures view == old(view).(members := TakeMode(old(view).members, (channel, nick), mode))
    {
      ghost var t, v := Tables(), view;
      ghost var modes := v.members[(channel, nick)] - {mode};
      assert T.In(channelUsers, channel, nick);
      StoreMode(channelUsers[channel][nick].modes, mode, false, v.(members := v.members[(channel, nick) := modes]));
      T.StoreBitsShows(t, v, channel, nick, modes);
    }

    method GiveNext(channel: string, given: seq<UserMode>, i: nat, ghost before: View)
      requires Valid() && i < |given| && (channel, ToLower(given[i].arg)) in before.members
      requires view == before.(members := GiveAll(kinds.userModes, before.members, channel, given[..i]))
      modifies this, Repr
      ensures Valid() && Repr == old(Repr) && self == old(self)
      ensures view == before.(members := GiveAll(kinds.userModes, before.members, channel, given[..i + 1]))
    {
      GiveAllSnoc(kinds.userModes, before.members, channel, given, i);
      SetMemberMode(ToLower(given[i].arg), channel, given[i].mode);
    }

    method GiveModes(channel: string, given: seq<UserMode>)
      requires Valid() && forall u :: u in given ==> (channel, ToLower(u.arg)) in view.members
      modifies this, Repr
      ensures Valid() && Repr == old(Repr) && self == old(self)
      ensures view == old(view).(members := GiveAll(kinds.userModes, old(view).members, channel, given))
    {
      ghost var before := view;
      for i := 0 to |given|
        invariant Valid() && Repr == old(Repr) && self == old(self)
        invariant view == before.(members := GiveAll(kinds.userModes, before.members, channel, given[..i]))
      {
        assert given[i] in given;
        GiveNext(channel, given, i, before);
      }
      assert given[..|given|] == given;
    }

    method TakeNext(channel: string, taken: seq<UserMode>, i: nat, ghost before: View)
      requires Valid() && i < |taken| && (channel, ToLower(taken[i].arg)) in before.members
      requires view == before.(members := TakeAll(before.members, channel, taken[..i]))
      modifies this, Repr
      ensures Valid() && Repr == old(Repr) && self == old(self)
      ensures view == before.(members := TakeAll(before.members, channel, taken[..i + 1]))
    {
      TakeAllSnoc(before.members, channel, taken, i);
      UnsetMemberMode(ToLower(taken[i].arg), channel, taken[i].mode);
    }

    method TakeModes(channel: string, taken: seq<UserMode>)
      requires Valid() && forall u :: u in taken ==> (channel, ToLower(u.arg)) in view.members
      modifies this, Repr
      ensures Valid() && Repr == old(Repr) && self == old(self)
      ensures view == old(view).(members := TakeAll(old(view).members, channel, taken))
    {
      ghost var before := view;
      for i := 0 to |taken|
        invariant Valid() && Repr == old(Repr) && self == old(self)
        invariant view == before.(members := TakeAll(before.members, channel, taken[..i]))
      {
        assert taken[i] in taken;
        TakeNext(channel, taken, i, before);
      }
      assert taken[..|taken|] == taken;
    }

    method StoreTopic(ch: Channel, topic: string, ghost after: View)
      requires Mirrored() && ch in held && after.selfModes == view.selfModes
      modifies ch, this`held, this`view
      ensures Mirrored() && view == after && Repr == old(Repr)
      ensures Tables() == old(Tables()).(rooms := old(held)[ch := old(held[ch]).(topic := topic)])
    {
      view := after;
      SetTopic(ch, topic);
    }

    method PutTopic(chname: string, topic: string)
      requires Valid() && NoNilRoom(view, chname)
      modifies this, Repr
      ensures Valid() && Repr == old(Repr) && self == old(self)
      ensures view == StateView.SetTopic(old(view), chname, topic)
    {
      if chname in channels {
        ghost var t, v := Tables(), view;
        StoreTopic(channels[chname], topic, StateView.SetTopic(v, chname, topic));
        T.StoreRoomShows(t, v, chname, v.rooms[chname].(topic := topic));
      }
    }

    method StoreApplied(ch: Channel, modestring: string, ghost after: View)
      returns (given: seq<UserMode>, taken: seq<UserMode>)
      requires Mirrored() && ch in held && after.selfModes == view.selfModes
      modifies ch.modes, this`held, this`view
      ensures Mirrored() && view == after && Repr == old(Repr)
      ensures Tables() == old(Tables()).(
                rooms := old(held)[ch := old(held[ch]).(modes := Run(old(held[ch]).modes, OpsOf(kinds, modestring)))])
      ensures given == Given(OpsOf(kinds, modestring)) && taken == Taken(OpsOf(kinds, modestring))
    {
      view := after;
      given, taken := ApplyRoom(ch, modestring);
    }

    method ApplyChannel(channel: string, modestring: string) returns (given: seq<UserMode>, taken: seq<UserMode>)
      requires Valid() && channel in channels && NoNilRoom(view, channel)
      modifies this, Repr
      ensures Valid() && Repr == old(Repr) && self == old(self)
      ensures view == RunRoom(old(view), channel, OpsOf(kinds, modestring))
      ensures given == Given(OpsOf(kinds, modestring)) && taken == Taken(OpsOf(kinds, modestring))
    {
      ghost var t, v := Tables(), view;
      given, taken := StoreApplied(channels[channel], modestring, RunRoom(v, channel, OpsOf(kinds, modestring)));
      T.StoreRoomShows(t, v, channel, v.rooms[channel].(modes := Run(v.rooms[channel].modes, OpsOf(kinds, modestring))));
    }

    method StoreBan(ch: Channel, ban: string, ghost after: View)
      requires Mirrored() && ch in held && after.selfModes == view.selfModes
      modifies ch.modes, this`held, this`view
      ensures Mirrored() && view == after && Repr == old(Repr)
      ensures Tables() == old(Tables()).(
                rooms := old(held)[ch := old(held[ch]).(modes := Run(old(held[ch]).modes, [ModeOp.SetAddress(BAN_MODE, ban)]))])
    {
      view := after;
      RunOne(held[ch].modes, ModeOp.SetAddress(BAN_MODE, ban));
      AddBan(ch, ban);
    }

    method PutBan(channel: string, ban: string)
      requires Valid()
      modifies this, Repr
      ensures Valid() && Repr == old(Repr) && self == old(self)
      ensures view == RunRoom(old(view), channel, [ModeOp.SetAddress(BAN_MODE, ban)])
    {
      if channel in channels && channels[channel] != null {
        ghost var t, v, ops := Tables(), view, [ModeOp.SetAddress(BAN_MODE, ban)];
        StoreBan(channels[channel], ban, RunRoom(v, channel, ops));
        T.StoreRoomShows(t, v, channel, v.rooms[channel].(modes := Run(v.rooms[channel].modes, ops)));
      }
    }

    method ApplySelf(modestring: string)
      requires Valid()
      modifies this, Repr
      ensures Valid() && Repr == old(Repr) && self == old(self)
      ensures view == old(view).(selfModes := Run(old(view).selfModes, OpsOf(SELF_KINDS, modestring)))
    {
      var given, taken := selfModes.Apply(modestring);
      view := view.(selfModes := selfModes.Value());
    }

    // ---- the bot's own user, and renames ---------------------------------------------------

    method StoreSelf(nick: string, host: string, ghost after: View)
      requires Mirrored() && after.selfModes == view.selfModes && host != ""
      modifies this`users, this`persons, this`Repr, this`view, this`self
      ensures Mirrored() && fresh(Repr - old(Repr)) && view == after && self != null && self !in old(persons)
      ensures Tables() == T.PutUser(old(Tables()), nick, self, Person(host, "")).(self := Some(self))
    {
      var user := StoreUser(nick, host, after);
      self := user;
    }

    /** The new user object replaces any other under its key. */
    method PutSelf(host: string)
      requires Valid() && host != ""
      modifies this, Repr
      ensures Mirrored() && fresh(Repr - old(Repr)) && self != null
      ensures Valid() <==> Free(old(view), Key(host))
      ensures Valid() ==> view == Welcome(old(view), host)
    {
      ghost var t, v := Tables(), view;
      StoreSelf(Key(host), host, Welcome(v, host));
      T.WelcomeShows(t, v, Key(host), self, Person(host, ""));
    }

    method MoveUser(from: string, to: string)
      requires Mirrored() && from in users && users[from] != null
      modifies this`channelUsers, this`userChannels, this`users
      ensures Mirrored() && Tables() == old(Tables()).(db := D.Rename(old(Tables()).db, from, to))
    {
      channelUsers := MoveEverywhere(channelUsers, from, to);
      if from in userChannels {
        userChannels := userChannels[to := userChannels[from]];
        userChannels := userChannels - {from};
      }
      users := users[to := users[from]];
      users := users - {from};
    }

    method StoreRenamed(from: string, to: string, host: string, ghost after: View)
      requires Mirrored() && from in users && users[from] != null && users[from] in persons && after.selfModes == view.selfModes
      modifies users[from], this`channelUsers, this`userChannels, this`users, this`persons, this`view
      ensures Mirrored() && view == after && Repr == old(Repr)
      ensures var t := old(Tables());
              Tables() == t.(db := D.Rename(t.db, from, to),
                             persons := t.persons[t.db.users[from] := Person(host, t.persons[t.db.users[from]].name)])
    {
      StoreHost(from, host, after);
      MoveUser(from, to);
    }

    method RenameUser(from: string, to: string, host: string)
      requires Valid() && from in users && users[from] != null
      modifies this, Repr
      ensures Mirrored() && Repr == old(Repr) && self == old(self)
      ensures Valid() <==> from == to || Covered(old(view), from, to)
      ensures Valid() ==> view == Rename(old(view), from, to, host)
    {
      ghost var t, v := Tables(), view;
      StoreRenamed(from, to, host, if from == to || Covered(v, from, to) then Rename(v, from, to, host) else v);
      T.RenameShows(t, v, from, to, host);
    }

    // ---- the handlers ----------------------------------------------------------------------

    lemma SelfSeen()
      requires Valid()
      ensures view.self == NoSelf <==> self == null
      ensures self != null ==> self.host == SelfHost(view)
    {
    }

    method OnNick(ev: Event)
      requires Valid() && |ev.args| >= 1 && NoNilUser(view, RenameFrom(ev))
      modifies this, Repr
      ensures Mirrored() && fresh(Repr - old(Repr)) && self == old(self)
      ensures Valid() <==> RenameKeeps(old(view), ev)
      ensures Valid() ==> view == HandleNick(old(view), ev)
    {
      var parts := SplitHost(ev.sender);
      var nick, newnick := ToLower(parts.nick), ToLower(ev.args[0]);
      var newuser := ev.args[0] + ['!'] + parts.user + ['@'] + parts.hostname;
      if nick in users {
        RenameUser(nick, newnick, newuser);
      }
    }

    /** The bot's own join makes the channel known. */
    method OpenOwn(sender: string, channel: string)
      requires Valid() && self != null
      modifies this, Repr
      ensures Valid() && fresh(Repr - old(Repr)) && self == old(self)
      ensures view == if sender == SelfHost(old(view)) then AddRoom(old(view), channel) else old(view)
    {
      SelfSeen();
      if sender == self.host {
        AddChannel(channel);
      }
    }

    method OnJoin(ev: Event)
      requires Valid() && |ev.args| >= 1 && self != null
      modifies this, Repr
      ensures Valid() && fresh(Repr - old(Repr)) && self == old(self)
      ensures view == HandleJoin(old(view), ev)
    {
      OpenOwn(ev.sender, ev.args[0]);
      AddToChannel(ev.sender, ev.args[0]);
    }

    method OnPart(ev: Event)
      requires Valid() && |ev.args| >= 1 && self != null
      modifies this, Repr
      ensures Valid() && fresh(Repr - old(Repr)) && self == old(self)
      ensures view == HandlePart(old(view), ev)
    {
      SelfSeen();
      if ev.sender == self.host {
        RemoveChannel(ev.args[0]);
      } else {
        RemoveFromChannel(ev.sender, ev.args[0]);
      }
    }

    method OnQuit(ev: Event)
      requires Valid() && self != null
      modifies this, Repr
      ensures Valid() && fresh(Repr - old(Repr)) && self == old(self)
      ensures view == HandleQuit(old(view), ev)
    {
      SelfSeen();
      if ev.sender != self.host {
        RemoveUser(ev.sender);
      }
    }

    method OnKick(ev: Event)
      requires Valid() && |ev.args| >= 2 && self != null
      modifies this, Repr
      ensures Valid() && fresh(Repr - old(Repr)) && self == old(self)
      ensures view == HandleKick(old(view), ev)
    {
      SelfSeen();
      if ev.args[1] == Nick(self.host) {
        RemoveChannel(ev.args[0]);
      } else {
        RemoveFromChannel(ev.args[1], ev.args[0]);
      }
    }

    method ApplyTarget(target: string, modestring: string)
      requires Valid() && target in channels && NoNilRoom(view, target)
      requires forall u :: u in Given(OpsOf(kinds, modestring)) + Taken(OpsOf(kinds, modestring)) ==>
                 (target, ToLower(u.arg)) in view.members
      modifies this, Repr
      ensures Valid() && fresh(Repr - old(Repr)) && self == old(self)
      ensures view == RunRoom(old(view), target, OpsOf(kinds, modestring)).(
                members := ApplyMembers(kinds.userModes, old(view).members, target, OpsOf(kinds, modestring)))
    {
      ghost var ops := OpsOf(kinds, modestring);
      GiveAllKeys(kinds.userModes, view.members, target, Given(ops));
      var pos, neg := ApplyChannel(target, modestring);
      assert forall u :: u in pos ==> u in Given(ops) + Taken(ops);
      GiveModes(target, pos);
      assert forall u :: u in neg ==> u in Given(ops) + Taken(ops);
      TakeModes(target, neg);
    }

    method OnMode(ev: Event)
      requires Valid() && |ev.args| >= 1 && ModeAnswerable(kinds, view, ev)
      modifies this, Repr
      ensures Valid() && fresh(Repr - old(Repr)) && self == old(self)
      ensures view == HandleMode(kinds, old(view), ev)
    {
      SelfSeen();
      var target := ToLower(ev.args[0]);
      if ev.IsTargetChan() {
        if target in channels {
          ApplyTarget(target, Join(ev.args[1..], ' '));
        }
      } else if target == Nick(self.host) {
        ApplySelf(ev.args[1]);
      }
    }

    method OnModeIs(ev: Event)
      requires Valid() && |ev.args| >= 2
      modifies this, Repr
      ensures Valid() && fresh(Repr - old(Repr)) && self == old(self)
      ensures view == RunRoom(old(view), Target(ev, 1), ModeOps(kinds, ev, 2))
    {
      var channel := ToLower(ev.args[1]);
      if channel in channels && channels[channel] != null {
        var given, taken := ApplyChannel(channel, Join(ev.args[2..], ' '));
      }
    }

    method OnMsg(ev: Event)
      requires Valid() && |ev.args| >= 1
      modifies this, Repr
      ensures Valid() && fresh(Repr - old(Repr)) && self == old(self)
      ensures view == HandleMsg(old(view), ev)
    {
      if ev.IsTargetChan() {
        AddToChannel(ev.sender, ev.args[0]);
      }
    }

    method OnWelcome(ev: Event)
      requires Valid() && |ev.args| >= 2 && Fields(ev.args[1]) != [] && WelcomeHost(ev) != ""
      modifies this, Repr
      ensures Mirrored() && fresh(Repr - old(Repr)) && self != null
      ensures Valid() <==> Free(old(view), Key(WelcomeHost(ev)))
      ensures Valid() ==> view == Welcome(old(view), WelcomeHost(ev))
    {
      var splits := Fields(ev.args[1]);
      var host := splits[|splits| - 1];
      if '!' !in host || '@' !in host {
        host := ev.args[0];
      }
      assert host == WelcomeHost(ev);
      PutSelf(host);
    }

    method Enter(nickorhost: string, channel: string)
      requires Valid() && Enterable(view, nickorhost)
      modifies this, Repr
      ensures Valid() && fresh(Repr - old(Repr)) && self == old(self)
      ensures view == AddMember(StateView.AddUser(old(view), nickorhost), Key(nickorhost), ToLower(channel))
    {
      AddUser(nickorhost);
      AddToChannel(nickorhost, channel);
    }

    method AddNick(channel: string, nick: string, j: nat)
      requires Valid() && NickAnswerable(kinds.userModes, view, ToLower(channel), nick, j)
      modifies this, Repr
      ensures Valid() && fresh(Repr - old(Repr)) && self == old(self)
      ensures view == StateView.AddNick(kinds.userModes, old(view), channel, nick, j)
    {
      if j < |kinds.userModes| {
        EnteredIsMember(view, nick, ToLower(channel));
        Enter(nick, channel);
        SetMemberMode(Key(nick), ToLower(channel), kinds.userModes[j].0);
      } else {
        Enter(nick, channel);
      }
    }

    /** The nick in a token, and the entry of the user mode whose symbol stands in front. */
    method SplitName(token: string) returns (nick: string, j: nat)
      requires token != ""
      ensures j == SymbolSlot(kinds.userModes, token[0]) && nick == NickIn(kinds.userModes, token)
    {
      j := FindSymbol(kinds.userModes, token[0]);
      nick := if j < |kinds.userModes| then token[1..] else token;
    }

    method AddName(channel: string, token: string)
      requires Valid() && token != "" && NameAnswerable(kinds.userModes, view, ToLower(channel), token)
      modifies this, Repr
      ensures Valid() && fresh(Repr - old(Repr)) && self == old(self)
      ensures view == StateView.AddName(kinds.userModes, old(view), channel, token)
    {
      var nick, j := SplitName(token);
      AddNick(channel, nick, j);
    }

    method AddNext(channel: string, tokens: seq<string>, i: nat, ghost before: View)
      requires Valid() && i < |tokens| && tokens[i] != ""
      requires NamesAnswerable(kinds.userModes, before, channel, tokens)
      requires view == AddNames(kinds.userModes, before, channel, tokens[..i])
      modifies this, Repr
      ensures Valid() && fresh(Repr - old(Repr)) && self == old(self)
      ensures view == AddNames(kinds.userModes, before, channel, tokens[..i + 1])
    {
      assert tokens[..i + 1][..i] == tokens[..i];
      AddName(channel, tokens[i]);
    }

    method OnNames(ev: Event)
      requires Valid() && |ev.args| >= 4 && NamesAnswerable(kinds.userModes, view, ev.args[2], Fields(ev.args[3]))
      modifies this, Repr
      ensures Valid() && fresh(Repr - old(Repr)) && self == old(self)
      ensures view == AddNames(kinds.userModes, old(view), ev.args[2], Fields(ev.args[3]))
    {
      var names := Fields(ev.args[3]);
      FieldsFacts(ev.args[3]);
      ghost var before := view;
      for i := 0 to |names|
        invariant Valid() && fresh(Repr - old(Repr)) && self == old(self)
        invariant view == AddNames(kinds.userModes, before, ev.args[2], names[..i])
      {
        assert names[i] in names;
        AddNext(ev.args[2], names, i, before);
      }
      assert names[..|names|] == names;
    }

    method StoreRealname(nick: string, name: string, ghost after: View)
      requires Mirrored() && nick in users && users[nick] != null && users[nick] in persons && after.selfModes == view.selfModes
      modifies users[nick], this`persons, this`view
      ensures Mirrored() && view == after && Repr == old(Repr)
      ensures Tables() == old(Tables()).(
                persons := old(persons)[users[nick] := Person(old(persons[users[nick]].host), name)])
    {
      view := after;
      SetRealname(users[nick], name);
    }

    method PutRealname(nick: string, name: string)
      requires Valid() && nick in users && NoNilUser(view, nick)
      modifies this, Repr
      ensures Valid() && Repr == old(Repr) && self == old(self)
      ensures view == old(view).(people := old(view).people[nick := old(view).people[nick].(name := name)])
    {
      ghost var t, v, p := Tables(), view, view.people[nick].(name := name);
      StoreRealname(nick, name, v.(people := v.people[nick := p]));
      T.StorePersonShows(t, v, nick, p);
    }

    /** Gives a mode to a member; others have no modes to set. */
    method GiveIfMember(nick: string, channel: string, mode: char)
      requires Valid()
      modifies this, Repr
      ensures Valid() && Repr == old(Repr) && self == old(self)
      ensures view == old(view).(members := GiveMode(kinds.userModes, old(view).members, (channel, nick), mode))
    {
      assert T.In(channelUsers, channel, nick) <==> (channel, nick) in view.members;
      if channel in channelUsers && nick in channelUsers[channel] {
        SetMemberMode(nick, channel, mode);
      }
    }

    method GiveSymbol(nick: string, channel: string, symbols: string, i: nat, ghost before: View)
      requires Valid() && i < |symbols|
      requires view == before.(members := GiveSymbols(kinds.userModes, before.members, (channel, nick), symbols[..i]))
      modifies this, Repr
      ensures Valid() && Repr == old(Repr) && self == old(self)
      ensures view == before.(members := GiveSymbols(kinds.userModes, before.members, (channel, nick), symbols[..i + 1]))
    {
      GiveSymbolsSnoc(kinds.userModes, before.members, (channel, nick), symbols, i);
      var mode := GetMode(kinds.userModes, symbols[i]);
      if mode != '\0' {
        GiveIfMember(nick, channel, mode);
      }
    }

    method GiveAllSymbols(nick: string, channel: string, symbols: string)
      requires Valid()
      modifies this, Repr
      ensures Valid() && Repr == old(Repr) && self == old(self)
      ensures view ==
              old(view).(members := GiveSymbols(kinds.userModes, old(view).members, (channel, nick), symbols))
    {
      ghost var before := view;
      for i := 0 to |symbols|
        invariant Valid() && Repr == old(Repr) && self == old(self)
        invariant view == before.(members := GiveSymbols(kinds.userModes, before.members, (channel, nick), symbols[..i]))
      {
        GiveSymbol(nick, channel, symbols, i, before);
      }
      assert symbols[..|symbols|] == symbols;
    }

    method AddWho(fullhost: string, channel: string, modes: string, realname: string)
      requires Valid() && IsFull(fullhost) && Enterable(view, fullhost)
      modifies this, Repr
      ensures Valid() && fresh(Repr - old(Repr)) && self == old(self)
      ensures view == StateView.AddWho(kinds.userModes, old(view), fullhost, channel, modes, realname)
    {
      Enter(fullhost, channel);
      PutRealname(Key(fullhost), realname);
      GiveAllSymbols(Key(fullhost), ToLower(channel), modes);
    }

    method OnWho(ev: Event)
      requires Valid() && |ev.args| >= 8 && ' ' in ev.args[7] && Enterable(view, WhoHost(ev.args))
      modifies this, Repr
      ensures Valid() && fresh(Repr - old(Repr)) && self == old(self)
      ensures view == HandleWho(kinds.userModes, old(view), ev)
    {
      var fullhost := WhoHost(ev.args);
      assert IsFull(fullhost) by {
        assert fullhost[|ev.args[5]|] == '!';
        assert fullhost[|ev.args[5]| + 1 + |ev.args[2]|] == '@';
      }
      AddWho(fullhost, ev.args[1], ev.args[6], ev.args[7][IndexOf(ev.args[7], ' ') + 1..]);
    }

    // ---- events ----------------------------------------------------------------------------

    method Dispatch(ev: Event)
      requires Valid() && Answerable(kinds, view, ev)
      modifies this, Repr
      ensures Mirrored() && fresh(Repr - old(Repr)) && (ev.name.RPL_WELCOME? || self == old(self))
      ensures Valid() <==> Keeps(kinds, old(view), ev)
      ensures Valid() ==> view == Handle(kinds, old(view), ev)
    {
      match ev.name
      case NICK => OnNick(ev);
      case JOIN => OnJoin(ev);
      case PART => OnPart(ev);
      case QUIT => OnQuit(ev);
      case KICK => OnKick(ev);
      case MODE => OnMode(ev);
      case TOPIC => PutTopic(ToLower(ev.args[0]), if |ev.args| >= 2 then ev.args[1] else "");
      case RPL_TOPIC => PutTopic(ToLower(ev.args[1]), ev.args[2]);
      case PRIVMSG => OnMsg(ev);
      case NOTICE => OnMsg(ev);
      case RPL_WELCOME => OnWelcome(ev);
      case RPL_NAMREPLY => OnNames(ev);
      case RPL_WHOREPLY => OnWho(ev);
      case RPL_CHANNELMODEIS => OnModeIs(ev);
      case RPL_BANLIST => PutBan(ToLower(ev.args[1]), ev.args[2]);
      case OTHER(_) =>
    }

    method Note(sender: string)
      requires Valid() && (sender != "" ==> Enterable(view, sender))
      modifies this, Repr
      ensures Valid() && fresh(Repr - old(Repr)) && self == old(self)
      ensures view == if sender == "" then old(view) else StateView.AddUser(old(view), sender)
    {
      if sender != "" {
        AddUser(sender);
      }
    }

    /** Notes the sender, then handles the event. The state stays consistent exactly on the events
        that `Keeps` allows, and then stands for what `StateView.Update` says. */
    method Update(ev: Event)
      requires Valid() && Accepts(kinds, view, ev)
      modifies this, Repr
      ensures Mirrored() && fresh(Repr - old(Repr)) && (ev.name.RPL_WELCOME? || self == old(self))
      ensures Valid() <==> Keeps(kinds, Seen(old(view), ev), ev)
      ensures Valid() ==> view == StateView.Update(kinds, old(view), ev)
    {
      Note(ev.sender);
      Dispatch(ev);
    }
  }
}
