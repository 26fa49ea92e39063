/** What each event leaves behind, said of the state before and after it. */
module EventLaws {
  import opened Seqs
  import opened Text
  import opened ModeSets
  import opened ModeParsing
  import opened ModeLaws
  import opened ModeReading
  import opened MemberModes
  import opened Hosts
  import opened UserBits
  import opened StateView
  import opened StateLaws

  /** An event that the program survives and that keeps its indices inverse. */
  ghost predicate Occurs(k: Kinds, v: View, ev: Event, name: Command) {
    ev.name == name && Accepts(k, v, ev) && Keeps(k, Seen(v, ev), ev)
  }

  // ---- the sender ----------------------------------------------------------------------------

  /** The sender is noted: anyone but a server is known under the key of its nick. A full host replaces the
      one held, and the real name stays. */
  lemma SenderNoted(v: View, ev: Event, n: string)
    ensures var w := Seen(v, ev);
            var isFull := '!' in ev.sender && '@' in ev.sender;
            var isNoted := ev.sender != "" && n == Key(ev.sender) && ('.' in ev.sender ==> isFull);
            && w.rooms == v.rooms && w.members == v.members && w.self == v.self && w.selfModes == v.selfModes
            && (n in w.people <==> n in v.people || isNoted)
            && (n in w.people ==>
                  && w.people[n].host == (if isNoted && (n !in v.people || isFull) then ev.sender else v.people[n].host)
                  && w.people[n].name == if n in v.people then v.people[n].name else "")
  {
  }

  /** Other events do nothing else. */
  lemma OthersOnlyNote(k: Kinds, v: View, ev: Event)
    requires ev.name.OTHER? && Accepts(k, v, ev)
    ensures Update(k, v, ev) == Seen(v, ev)
  {
  }

  // ---- joins and messages --------------------------------------------------------------------

  /** The members after an event that may add one: the old ones with their modes, and `p` without any. */
  ghost predicate MembersGrown(before: Members, after: Members, p: (string, string), entered: bool) {
    && (forall q :: q in after <==> q in before || (entered && q == p))
    && (forall q :: q in after ==> after[q] == if q in before then before[q] else {})
  }

  lemma AddMemberGrows(w: View, n: string, ch: string)
    ensures var r := AddMember(w, n, ch);
            MembersGrown(w.members, r.members, (ch, n), n in w.people && ch in w.rooms) && r == w.(members := r.members)
  {
  }

  /** Channels already known stay as they are; a new one has neither topic nor modes. */
  ghost predicate RoomsGrown(before: map<string, Room>, after: map<string, Room>, name: string, isNew: bool) {
    && (forall c :: c in after <==> c in before || (isNew && c == ToLower(name)))
    && forall c :: c in after ==> after[c] == if c in before then before[c] else Room(name, "", EMPTY_SET)
  }

  lemma AddRoomGrows(w: View, name: string)
    ensures var r := AddRoom(w, name); RoomsGrown(w.rooms, r.rooms, name, true) && r == w.(rooms := r.rooms)
  {
  }

  /** A join enters the sender on the channel, if both are known then. The bot's own join makes the channel
      known. */
  lemma JoinExactly(k: Kinds, v: View, ev: Event)
    requires Occurs(k, v, ev, JOIN)
    ensures var w, r, p := Seen(v, ev), Update(k, v, ev), (Target(ev, 0), Key(ev.sender));
            && MembersGrown(w.members, r.members, p, p.1 in w.people && p.0 in r.rooms)
            && RoomsGrown(w.rooms, r.rooms, ev.args[0], ev.sender == SelfHost(w))
            && r == w.(members := r.members, rooms := r.rooms)
  {
    var w := Seen(v, ev);
    AddRoomGrows(w, ev.args[0]);
    AddMemberGrows(if ev.sender == SelfHost(w) then AddRoom(w, ev.args[0]) else w, Key(ev.sender), Target(ev, 0));
  }

  /** A message to a channel enters its sender there, if both are known. */
  lemma MessageExactly(k: Kinds, v: View, ev: Event)
    requires Occurs(k, v, ev, PRIVMSG) || Occurs(k, v, ev, NOTICE)
    ensures var w, r, p := Seen(v, ev), Update(k, v, ev), (Target(ev, 0), Key(ev.sender));
            && MembersGrown(w.members, r.members, p,
                            ev.args[0] != "" && ev.args[0][0] in ev.chantypes && p.1 in w.people && p.0 in w.rooms)
            && r == w.(members := r.members)
  {
    AddMemberGrows(Seen(v, ev), Key(ev.sender), Target(ev, 0));
  }

  // ---- leaving -------------------------------------------------------------------------------

  ghost predicate MembersLeft(before: Members, after: Members, gone: set<(string, string)>) {
    && after.Keys == before.Keys - gone
    && forall p :: p in after ==> after[p] == before[p]
  }

  ghost function OnChannel(ms: Members, ch: string): set<(string, string)> {
    set p | p in ms && p.0 == ch
  }

  ghost function OfUser(ms: Members, n: string): set<(string, string)> {
    set p | p in ms && p.1 == n
  }

  /** The channel goes, with its members. */
  ghost predicate RoomGone(w: View, r: View, ch: string) {
    && MembersLeft(w.members, r.members, OnChannel(w.members, ch))
    && r.rooms == w.rooms - {ch}
    && r.people == w.people && r.self == w.self && r.selfModes == w.selfModes
  }

  ghost predicate UserGone(w: View, r: View, n: string) {
    && r.people == w.people - {n}
    && MembersLeft(w.members, r.members, OfUser(w.members, n))
    && r.rooms == w.rooms && r.selfModes == w.selfModes
    && if w.self == Listed(n) && n in w.people then r.self.Detached? else r.self == w.self
  }

  /** One member leaves one channel. */
  ghost predicate MemberGone(w: View, r: View, p: (string, string)) {
    MembersLeft(w.members, r.members, {p}) && r == w.(members := r.members)
  }

  /** The bot's own part closes the channel, another's takes that member off it. */
  lemma PartExactly(k: Kinds, v: View, ev: Event)
    requires Occurs(k, v, ev, PART)
    ensures var w, r := Seen(v, ev), Update(k, v, ev);
            if ev.sender == SelfHost(w) then RoomGone(w, r, Target(ev, 0))
            else MemberGone(w, r, (Target(ev, 0), Key(ev.sender)))
  {
  }

  /** A kick of the bot closes the channel, a kick of another takes that member off it. */
  lemma KickExactly(k: Kinds, v: View, ev: Event)
    requires Occurs(k, v, ev, KICK)
    ensures var w, r := Seen(v, ev), Update(k, v, ev);
            if ev.args[1] == Nick(SelfHost(w)) then RoomGone(w, r, Target(ev, 0))
            else MemberGone(w, r, (Target(ev, 0), Key(ev.args[1])))
  {
  }

  /** A quit removes the user from everywhere; the bot's own changes nothing. */
  lemma QuitExactly(k: Kinds, v: View, ev: Event)
    requires Occurs(k, v, ev, QUIT)
    ensures var w, r := Seen(v, ev), Update(k, v, ev);
            if ev.sender == SelfHost(w) then r == w
            else UserGone(w, r, Key(ev.sender))
  {
  }

  // ---- renames -------------------------------------------------------------------------------

  /** The user and each membership with its modes have moved to the new key; one found there is replaced. */
  ghost predicate UserMoved(w: View, r: View, from: string, to: string, host: string)
    requires from in w.people
  {
    && r.people == w.people[to := Person(host, w.people[from].name)] - {from}
    && r.rooms == w.rooms && r.selfModes == w.selfModes
    && MembersMoved(w.members, r.members, from, to)
    && (w.self == Listed(from) ==> r.self == Listed(to))
    && (w.self != Listed(from) && w.self != Listed(to) ==> r.self == w.self)
  }

  ghost predicate MembersMoved(before: Members, after: Members, from: string, to: string) {
    && (forall p :: p in after <==> p.1 != from && (p in before || (p.1 == to && (p.0, from) in before)))
    && (forall p :: p in after && p.1 != to ==> after[p] == before[p])
    && forall p :: p in after && p.1 == to ==> (p.0, from) in before && after[p] == before[(p.0, from)]
  }

  lemma RenameMoves(w: View, from: string, to: string, host: string)
    requires from in w.people && from != to && Covered(w, from, to)
    ensures UserMoved(w, Rename(w, from, to, host), from, to, host)
  {
    forall p ensures p in RenameMembers(w, from, to) <==>
                     p.1 != from && (p in w.members || (p.1 == to && (p.0, from) in w.members)) {
      RenameMembersAt(w, from, to, p);
    }
  }

  lemma RenameDrops(w: View, key: string, host: string)
    requires key in w.people
    ensures UserGone(w, Rename(w, key, key, host), key)
  {
  }

  /** A rename of a known user to another key moves the user and each membership with its modes. To the
      same key it removes the user. Of an unknown user it does nothing. */
  lemma NickExactly(k: Kinds, v: View, ev: Event)
    requires Occurs(k, v, ev, NICK)
    ensures var w, r := Seen(v, ev), Update(k, v, ev);
            var from, to := if SplitHost(ev.sender) == NO_PARTS then "" else Key(ev.sender), Target(ev, 0);
            if from !in w.people then r == w
            else if from == to then UserGone(w, r, from)
            else
              var parts := SplitHost(ev.sender);
              UserMoved(w, r, from, to, ev.args[0] + ['!'] + parts.user + ['@'] + parts.hostname)
  {
    var w, to := Seen(v, ev), Target(ev, 0);
    RenameFromKey(ev);
    var from := RenameFrom(ev);
    if from in w.people {
      if from == to {
        RenameDrops(w, from, RenameHost(ev));
      } else {
        RenameMoves(w, from, to, RenameHost(ev));
      }
    }
  }

  // ---- topics, modes and bans ----------------------------------------------------------------

  /** One known channel is changed, and nothing else. */
  ghost predicate RoomChanged(w: View, r: View, ch: string) {
    && r.rooms.Keys == w.rooms.Keys
    && (forall c :: c in w.rooms && c != ch ==> r.rooms[c] == w.rooms[c])
    && r == w.(rooms := r.rooms)
  }

  lemma TopicSet(w: View, ch: string, topic: string)
    ensures var r := SetTopic(w, ch, topic);
            RoomChanged(w, r, ch) && (ch in w.rooms ==> r.rooms[ch] == w.rooms[ch].(topic := topic))
  {
  }

  /** A topic is stored on its channel, none as the empty one. */
  lemma TopicExactly(k: Kinds, v: View, ev: Event)
    requires Occurs(k, v, ev, TOPIC) || Occurs(k, v, ev, RPL_TOPIC)
    ensures var w, r := Seen(v, ev), Update(k, v, ev);
            var ch := if ev.name.TOPIC? then Target(ev, 0) else Target(ev, 1);
            var topic := if ev.name.RPL_TOPIC? then ev.args[2] else if |ev.args| >= 2 then ev.args[1] else "";
            RoomChanged(w, r, ch) && (ch in w.rooms ==> r.rooms[ch] == w.rooms[ch].(topic := topic))
  {
    var w := Seen(v, ev);
    if ev.name.TOPIC? {
      TopicSet(w, Target(ev, 0), if |ev.args| >= 2 then ev.args[1] else "");
    } else {
      TopicSet(w, Target(ev, 1), ev.args[2]);
    }
  }

  /** The flags, arguments and addresses that a modestring leaves, letter by letter. */
  ghost predicate ModesRead(k: Kinds, before: ModeSet, after: ModeSet, modestring: string) {
    var letters, args := LettersIn(modestring), ArgumentsIn(modestring);
    var written := Paired(Takers(k, letters), args);
    && (forall c :: k.IsFlag(c) ==>
          (c in after.flags <==>
             match LastSign(letters, c) case None => c in before.flags case Some(adding) => adding))
    && (forall c :: k.KindOf(c).ArgsOnset? ==>
          ArgOf(after, c) ==
            match LastSign(Readable(k, letters, |args|), c)
            case None => ArgOf(before, c)
            case Some(adding) => if adding then LastArgument(written, c) else None)
    && (forall c :: k.KindOf(c).ArgsAlways? ==>
          ArgOf(after, c) ==
            if CutTaken(ArgOf(before, c), WrittenEdits(written, c)) then None
            else Held(ArgOf(before, c), WrittenEdits(written, c)))
    && (Valid(before) ==>
          forall c, a :: k.KindOf(c).ArgsAddress? ==>
            (a in AddressesOf(after, c) <==>
               match LastWritten(written, c, a) case None => a in AddressesOf(before, c) case Some(adding) => adding))
  }

  lemma RunRead(k: Kinds, s: ModeSet, modestring: string)
    ensures ModesRead(k, s, Run(s, OpsOf(k, modestring)), modestring)
  {
    forall c | k.IsFlag(c)
      ensures c in Run(s, OpsOf(k, modestring)).flags <==>
              match LastSign(LettersIn(modestring), c) case None => c in s.flags case Some(adding) => adding
    {
      FlagsExactly(k, s, modestring, c);
    }
    RunOnset(k, s, modestring);
    RunAlways(k, s, modestring);
    if Valid(s) {
      RunAddresses(k, s, modestring);
    }
  }

  lemma RunOnset(k: Kinds, s: ModeSet, modestring: string)
    ensures var letters, args := LettersIn(modestring), ArgumentsIn(modestring);
            forall c :: k.KindOf(c).ArgsOnset? ==>
              ArgOf(Run(s, OpsOf(k, modestring)), c) ==
                match LastSign(Readable(k, letters, |args|), c)
                case None => ArgOf(s, c)
                case Some(adding) => if adding then LastArgument(Paired(Takers(k, letters), args), c) else None
  {
    forall c | k.KindOf(c).ArgsOnset?
      ensures var letters, args := LettersIn(modestring), ArgumentsIn(modestring);
              ArgOf(Run(s, OpsOf(k, modestring)), c) ==
                match LastSign(Readable(k, letters, |args|), c)
                case None => ArgOf(s, c)
                case Some(adding) => if adding then LastArgument(Paired(Takers(k, letters), args), c) else None
    {
      OnsetExactly(k, s, modestring, c);
    }
  }

  lemma RunAlways(k: Kinds, s: ModeSet, modestring: string)
    ensures var written := Paired(Takers(k, LettersIn(modestring)), ArgumentsIn(modestring));
            forall c :: k.KindOf(c).ArgsAlways? ==>
              ArgOf(Run(s, OpsOf(k, modestring)), c) ==
                if CutTaken(ArgOf(s, c), WrittenEdits(written, c)) then None else Held(ArgOf(s, c), WrittenEdits(written, c))
  {
    forall c | k.KindOf(c).ArgsAlways?
      ensures var es := WrittenEdits(Paired(Takers(k, LettersIn(modestring)), ArgumentsIn(modestring)), c);
              ArgOf(Run(s, OpsOf(k, modestring)), c) ==
                if CutTaken(ArgOf(s, c), es) then None else Held(ArgOf(s, c), es)
    {
      AlwaysExactly(k, s, modestring, c);
    }
  }

  lemma RunAddresses(k: Kinds, s: ModeSet, modestring: string)
    requires Valid(s)
    ensures var written := Paired(Takers(k, LettersIn(modestring)), ArgumentsIn(modestring));
            forall c, a :: k.KindOf(c).ArgsAddress? ==>
              (a in AddressesOf(Run(s, OpsOf(k, modestring)), c) <==>
                 match LastWritten(written, c, a) case None => a in AddressesOf(s, c) case Some(adding) => adding)
  {
    forall c, a | k.KindOf(c).ArgsAddress?
      ensures a in AddressesOf(Run(s, OpsOf(k, modestring)), c) <==>
              match LastWritten(Paired(Takers(k, LettersIn(modestring)), ArgumentsIn(modestring)), c, a)
              case None => a in AddressesOf(s, c)
              case Some(adding) => adding
    {
      AddressesExactly(k, s, modestring, c, a);
    }
  }

  /** The channel's own modes are read from the words after its name, and name and topic stay. */
  ghost predicate RoomModes(k: Kinds, w: View, r: View, ch: string, words: seq<string>) {
    ch in w.rooms && ch in r.rooms &&
    r.rooms[ch] == w.rooms[ch].(modes := r.rooms[ch].modes) &&
    ModesRead(k, w.rooms[ch].modes, r.rooms[ch].modes, Join(words, ' '))
  }

  /** A list of a known channel's modes changes the channel as it reads. */
  lemma ModeListExactly(k: Kinds, v: View, ev: Event)
    requires Occurs(k, v, ev, RPL_CHANNELMODEIS)
    ensures var w, r, ch := Seen(v, ev), Update(k, v, ev), Target(ev, 1);
            RoomChanged(w, r, ch) &&
            (ch in w.rooms && w.rooms[ch].name != "" ==> RoomModes(k, w, r, ch, ev.args[2..]))
  {
    var w, ch := Seen(v, ev), Target(ev, 1);
    if ch in w.rooms {
      RunRead(k, w.rooms[ch].modes, Join(ev.args[2..], ' '));
    }
  }

  /** A mode change of a known channel changes its modes as it reads, and its members' as `MemberModes` says
      of the user modes written; users and other channels stay. */
  lemma ModeChangeExactly(k: Kinds, v: View, ev: Event)
    requires Occurs(k, v, ev, MODE) && ev.args[0] != "" && ev.args[0][0] in ev.chantypes
    ensures var w, r, ch := Seen(v, ev), Update(k, v, ev), Target(ev, 0);
            && RoomChanged(w, r.(members := w.members), ch)
            && r.members.Keys == w.members.Keys
            && (ch in w.rooms ==> RoomModes(k, w, r, ch, ev.args[1..]))
            && (ch !in w.rooms ==> r == w)
  {
    var w, ch, ops := Seen(v, ev), Target(ev, 0), ModeOps(k, ev, 1);
    if ch in w.rooms {
      RunRead(k, w.rooms[ch].modes, Join(ev.args[1..], ' '));
      GiveAllKeys(k.userModes, w.members, ch, Given(ops));
      TakeAllKeys(GiveAll(k.userModes, w.members, ch, Given(ops)), ch, Taken(ops));
    }
  }

  /** A user mode letter is written for a nick under the sign `adding`. */
  ghost predicate WrittenFor(k: Kinds, written: seq<(Signed, string)>, nick: string, m: char, adding: bool) {
    NamesMember(k, m) && exists x :: x in written && x.0 == Signed(m, adding) && ToLower(x.1) == nick
  }

  lemma {:induction false} ChosenFor(k: Kinds, written: seq<(Signed, string)>, nick: string, m: char, adding: bool)
    ensures Gets(Chosen(k, written, adding), nick, m) <==> WrittenFor(k, written, nick, m, adding)
  {
    if written != [] {
      var x, rest := written[0], written[1..];
      assert written == [x] + rest;
      ChosenFor(k, rest, nick, m, adding);
      var first := if x.0.adding == adding && NamesMember(k, x.0.letter) then [UserMode(x.0.letter, x.1)] else [];
      assert Chosen(k, written, adding) == first + Chosen(k, rest, adding);
      GetsEither(first, Chosen(k, rest, adding), nick, m);
      if NamesMember(k, m) {
        if WrittenFor(k, rest, nick, m, adding) {
          var y :| y in rest && y.0 == Signed(m, adding) && ToLower(y.1) == nick;
          assert y in written;
        }
        if x.0 == Signed(m, adding) && ToLower(x.1) == nick {
          assert x in written && UserMode(m, x.1) in first;
        }
      }
    }
  }

  lemma GetsEither(a: seq<UserMode>, b: seq<UserMode>, nick: string, m: char)
    ensures Gets(a + b, nick, m) <==> Gets(a, nick, m) || Gets(b, nick, m)
  {
    if Gets(a, nick, m) {
      var u :| u in a && ToLower(u.arg) == nick && u.mode == m;
      assert u in a + b;
    }
    if Gets(b, nick, m) {
      var u :| u in b && ToLower(u.arg) == nick && u.mode == m;
      assert u in a + b;
    }
  }

  /** After a mode change a member holds a user mode exactly when it held it or the mode is written for its
      nick under a plus, and it is not written for its nick under a minus. */
  lemma MembersChangedExactly(k: Kinds, v: View, ev: Event, p: (string, string), m: char)
    requires Occurs(k, v, ev, MODE) && ev.args[0] != "" && ev.args[0][0] in ev.chantypes
    requires p in v.members && Target(ev, 0) in v.rooms
    ensures var r, modestring, here := Update(k, v, ev), Join(ev.args[1..], ' '), p.0 == Target(ev, 0);
            var written := Paired(Takers(k, LettersIn(modestring)), ArgumentsIn(modestring));
            p in r.members &&
            (m in r.members[p] <==>
               && (m in v.members[p] || (here && WrittenFor(k, written, p.1, m, true)))
               && !(here && WrittenFor(k, written, p.1, m, false)))
  {
    var modestring := Join(ev.args[1..], ' ');
    var written := Paired(Takers(k, LettersIn(modestring)), ArgumentsIn(modestring));
    MemberModesExactly(k, v.members, Target(ev, 0), OpsOf(k, modestring), p, m);
    UserModesExactly(k, modestring);
    ChosenFor(k, written, p.1, m, true);
    ChosenFor(k, written, p.1, m, false);
    UserModeListed(k, m);
  }

  /** `MODE #c +ov alice bob`: each member gets its own mode, and no one else any. */
  lemma TwoGiven(k: Kinds, v: View, ch: string, c: char, d: char, a: string, b: string, types: string)
    requires NamesMember(k, c) && NamesMember(k, d) && PlainLetter(c) && PlainLetter(d)
    requires a != "" && b != "" && SpaceFree(a) && SpaceFree(b) && ToLower(a) != ToLower(b)
    requires ch != "" && ch[0] in types && ToLower(ch) in v.rooms && NoNilRoom(v, ToLower(ch))
    requires (ToLower(ch), ToLower(a)) in v.members && (ToLower(ch), ToLower(b)) in v.members
    ensures var ev := Event(MODE, "", [ch, "+" + ([c] + [d]), a, b], types);
            var pa, pb := (ToLower(ch), ToLower(a)), (ToLower(ch), ToLower(b));
            && Accepts(k, v, ev) && Keeps(k, v, ev)
            && Update(k, v, ev).members == v.members[pa := v.members[pa] + {c}][pb := v.members[pb] + {d}]
  {
    var ev := Event(MODE, "", [ch, "+" + ([c] + [d]), a, b], types);
    var given := [UserMode(c, a), UserMode(d, b)];
    TwoGifts(k, c, d, a, b);
    assert ev.args[1..] == ["+" + ([c] + [d])] + [a, b];
    assert given + [] == given;
    TwoGivenAll(k, v.members, ToLower(ch), c, d, a, b);
  }

  lemma TwoGivenAll(k: Kinds, ms: Members, ch: string, c: char, d: char, a: string, b: string)
    requires NamesMember(k, c) && NamesMember(k, d) && ToLower(a) != ToLower(b)
    requires (ch, ToLower(a)) in ms && (ch, ToLower(b)) in ms
    ensures var pa, pb := (ch, ToLower(a)), (ch, ToLower(b));
            GiveAll(k.userModes, ms, ch, [UserMode(c, a), UserMode(d, b)]) ==
            ms[pa := ms[pa] + {c}][pb := ms[pb] + {d}]
  {
    var one, both := [UserMode(c, a)], [UserMode(c, a), UserMode(d, b)];
    UserModeListed(k, c);
    UserModeListed(k, d);
    assert both[..1] == one && one[..0] == [];
    assert GiveAll(k.userModes, ms, ch, one) == GiveMode(k.userModes, ms, (ch, ToLower(a)), c);
  }

  /** A mode change aimed at the bot's nick changes the bot's modes as it reads, every letter a flag; one
      aimed at any other nick changes nothing. */
  lemma OwnChangeExactly(k: Kinds, v: View, ev: Event)
    requires Occurs(k, v, ev, MODE) && !(ev.args[0] != "" && ev.args[0][0] in ev.chantypes)
    ensures var w, r := Seen(v, ev), Update(k, v, ev);
            if Target(ev, 0) == Nick(SelfHost(w)) then
              && |ev.args| >= 2 && r == w.(selfModes := r.selfModes)
              && ModesRead(SELF_KINDS, w.selfModes, r.selfModes, ev.args[1])
            else r == w
  {
    var w := Seen(v, ev);
    if Target(ev, 0) == Nick(SelfHost(w)) {
      RunRead(SELF_KINDS, w.selfModes, ev.args[1]);
    }
  }

  /** A ban is added to the channel's list, and nothing else changes. */
  lemma BanExactly(k: Kinds, v: View, ev: Event, m: char)
    requires Occurs(k, v, ev, RPL_BANLIST)
    ensures var w, r, ch := Seen(v, ev), Update(k, v, ev), Target(ev, 1);
            RoomChanged(w, r, ch) &&
            (ch in w.rooms && w.rooms[ch].name != "" ==>
               var before, after := w.rooms[ch], r.rooms[ch];
               && after == before.(modes := after.modes)
               && after.modes == before.modes.(addresses := after.modes.addresses)
               && (Valid(before.modes) ==>
                     AddressesOf(after.modes, m) ==
                     AddressesOf(before.modes, m) + if m == 'b' then {ev.args[2]} else {}))
  {
    var w, ch := Seen(v, ev), Target(ev, 1);
    if ch in w.rooms && w.rooms[ch].name != "" {
      var op := ModeOp.SetAddress(BAN_MODE, ev.args[2]);
      RunStep(w.rooms[ch].modes, op);
      if Valid(w.rooms[ch].modes) {
        StepAddresses(w.rooms[ch].modes, op, m);
      }
    }
  }

  // ---- who is there ----------------------------------------------------------------------------

  /** The display symbol of a user mode: the first entry with it counts. */
  ghost predicate Displays(info: ModeInfo, symbol: char, m: char) {
    exists i :: 0 <= i < |info| && info[i] == (m, symbol) && forall j :: 0 <= j < i ==> info[j].1 != symbol
  }

  lemma DisplaysSlot(info: ModeInfo, symbol: char, m: char)
    ensures Displays(info, symbol, m) <==> SymbolSlot(info, symbol) < |info| && info[SymbolSlot(info, symbol)].0 == m
    ensures Displays(info, symbol, m) ==> IsListed(info, m)
  {
    var i := SymbolSlot(info, symbol);
    if i < |info| {
      assert info[i] == (info[i].0, symbol);
      if Displays(info, symbol, m) {
        var j :| 0 <= j < |info| && info[j] == (m, symbol) && forall h :: 0 <= h < j ==> info[h].1 != symbol;
        assert j == i;
      }
    }
  }

  /** The nick in a token: a symbol in front is left out. */
  ghost function NameIn(info: ModeInfo, token: string): string
    requires token != ""
  {
    if exists i :: 0 <= i < |info| && info[i].1 == token[0] then token[1..] else token
  }

  lemma NameIsNick(info: ModeInfo, token: string)
    requires token != ""
    ensures NameIn(info, token) == NickIn(info, token)
  {
    var i := SymbolSlot(info, token[0]);
    if i < |info| {
      assert info[i].1 == token[0];
    }
  }

  /** A token names the nick with the symbol of the mode in front. */
  ghost predicate NamedWith(info: ModeInfo, tokens: seq<string>, n: string, m: char) {
    exists t :: t in tokens && t != "" && Key(NameIn(info, t)) == n && Displays(info, t[0], m)
  }

  /** A token names the nick, and is not a server's name. */
  ghost predicate Introduced(info: ModeInfo, tokens: seq<string>, n: string) {
    exists t :: t in tokens && t != "" && Key(NameIn(info, t)) == n && !IsServer(NameIn(info, t))
  }

  lemma NamedWithSnoc(info: ModeInfo, tokens: seq<string>, n: string, m: char)
    requires tokens != []
    ensures var init, t := tokens[..|tokens| - 1], tokens[|tokens| - 1];
            NamedWith(info, tokens, n, m) <==>
            NamedWith(info, init, n, m) || (t != "" && Key(NameIn(info, t)) == n && Displays(info, t[0], m))
  {
    var init, t := tokens[..|tokens| - 1], tokens[|tokens| - 1];
    assert tokens == init + [t];
    assert t in tokens;
    if NamedWith(info, init, n, m) {
      var x :| x in init && x != "" && Key(NameIn(info, x)) == n && Displays(info, x[0], m);
      assert x in tokens;
    }
  }

  lemma IntroducedSnoc(info: ModeInfo, tokens: seq<string>, n: string)
    requires tokens != []
    ensures var init, t := tokens[..|tokens| - 1], tokens[|tokens| - 1];
            Introduced(info, tokens, n) <==>
            Introduced(info, init, n) || (t != "" && Key(NameIn(info, t)) == n && !IsServer(NameIn(info, t)))
  {
    var init, t := tokens[..|tokens| - 1], tokens[|tokens| - 1];
    assert tokens == init + [t];
    assert t in tokens;
    if Introduced(info, init, n) {
      var x :| x in init && x != "" && Key(NameIn(info, x)) == n && !IsServer(NameIn(info, x));
      assert x in tokens;
    }
  }

  /** After a name list the old users are known and those it names. */
  lemma {:induction false} NamesIntroduce(info: ModeInfo, v: View, channel: string, tokens: seq<string>, n: string)
    ensures n in AddNames(info, v, channel, tokens).people <==> n in v.people || Introduced(info, tokens, n)
  {
    if tokens != [] {
      var init, t := tokens[..|tokens| - 1], tokens[|tokens| - 1];
      NamesIntroduce(info, v, channel, init, n);
      IntroducedSnoc(info, tokens, n);
      if t != "" {
        NameIsNick(info, t);
        AddNickMembers(info, AddNames(info, v, channel, init), channel, NickIn(info, t), SymbolSlot(info, t[0]));
      }
    }
  }

  lemma NameGives(info: ModeInfo, w: View, channel: string, t: string, p: (string, string), m: char)
    requires t != "" && NameAnswerable(info, w, ToLower(channel), t)
    ensures var r := AddName(info, w, channel, t);
            p in r.members ==>
              (m in r.members[p] <==>
                 (p in w.members && m in w.members[p]) ||
                 (p == (ToLower(channel), Key(NameIn(info, t))) && Displays(info, t[0], m)))
    ensures Displays(info, t[0], m) ==> (ToLower(channel), Key(NameIn(info, t))) in AddName(info, w, channel, t).members
  {
    NameIsNick(info, t);
    DisplaysSlot(info, t[0], m);
    var i := SymbolSlot(info, t[0]);
    if i < |info| {
      EnteredIsMember(w, NickIn(info, t), ToLower(channel));
      DisplaysSlot(info, t[0], info[i].0);
      assert info[i] == (info[i].0, t[0]);
    }
  }

  lemma AnswerablePrefix(info: ModeInfo, v: View, channel: string, tokens: seq<string>)
    requires tokens != [] && NamesAnswerable(info, v, channel, tokens)
    ensures var init := tokens[..|tokens| - 1];
            && NamesAnswerable(info, v, channel, init)
            && NameAnswerable(info, AddNames(info, v, channel, init), ToLower(channel), tokens[|init|])
  {
    var init := tokens[..|tokens| - 1];
    forall i | 0 <= i < |init|
      ensures NameAnswerable(info, AddNames(info, v, channel, init[..i]), ToLower(channel), init[i])
    {
      assert init[..i] == tokens[..i] && init[i] == tokens[i];
    }
  }

  /** After a name list a member holds the modes it held, and those whose symbols the list puts in front of
      its nick. */
  lemma {:induction false} NamesGive(
    info: ModeInfo, v: View, channel: string, tokens: seq<string>, p: (string, string), m: char)
    requires NamesAnswerable(info, v, channel, tokens)
    ensures var r := AddNames(info, v, channel, tokens);
            && (NamedWith(info, tokens, p.1, m) && p.0 == ToLower(channel) ==> p in r.members)
            && (p in r.members ==>
                  (m in r.members[p] <==>
                     (p in v.members && m in v.members[p]) ||
                     (p.0 == ToLower(channel) && NamedWith(info, tokens, p.1, m))))
  {
    if tokens != [] {
      var init, t := tokens[..|tokens| - 1], tokens[|tokens| - 1];
      AnswerablePrefix(info, v, channel, tokens);
      NamesGive(info, v, channel, init, p, m);
      NamedWithSnoc(info, tokens, p.1, m);
      AddNamesGrows(info, v, channel, init);
      if t != "" {
        NameGives(info, AddNames(info, v, channel, init), channel, t, p, m);
        NameIsNick(info, t);
        AddNickMembers(info, AddNames(info, v, channel, init), channel, NickIn(info, t), SymbolSlot(info, t[0]));
      }
    }
  }

  /** What a list of names leaves of user `p.1`, of its membership `p` and of one mode there. */
  ghost predicate NamesEntered(
    info: ModeInfo, w: View, r: View, ch: string, tokens: seq<string>, p: (string, string), m: char)
  {
    && r.rooms == w.rooms
    && (p.1 in r.people <==> p.1 in w.people || Introduced(info, tokens, p.1))
    && (p in r.members <==> Explained(w, r, ch, p, Named(info, tokens, p.1)))
    && (p in r.members ==>
          (m in r.members[p] <==>
             (p in w.members && m in w.members[p]) || (p.0 == ch && NamedWith(info, tokens, p.1, m))))
  }

  lemma NamesAll(info: ModeInfo, w: View, channel: string, tokens: seq<string>, p: (string, string), m: char)
    requires NamesAnswerable(info, w, channel, tokens)
    ensures NamesEntered(info, w, AddNames(info, w, channel, tokens), ToLower(channel), tokens, p, m)
  {
    NamesGive(info, w, channel, tokens, p, m);
    NamesIntroduce(info, w, channel, tokens, p.1);
    NamesExactly(info, w, channel, tokens, p);
    AddNamesGrows(info, w, channel, tokens);
  }

  /** A list of names enters the named users on the channel, with the modes of their symbols. */
  lemma NameListExactly(k: Kinds, v: View, ev: Event, p: (string, string), m: char)
    requires Occurs(k, v, ev, RPL_NAMREPLY)
    ensures NamesEntered(k.userModes, Seen(v, ev), Update(k, v, ev), Target(ev, 2), Fields(ev.args[3]), p, m)
  {
    NamesAll(k.userModes, Seen(v, ev), ev.args[2], Fields(ev.args[3]), p, m);
  }

  lemma {:induction false} SymbolsGive(info: ModeInfo, ms: Members, p: (string, string), symbols: string, m: char)
    requires p in ms
    ensures var r := GiveSymbols(info, ms, p, symbols);
            && r.Keys == ms.Keys && (forall q :: q in ms && q != p ==> r[q] == ms[q])
            && (m in r[p] <==> m in ms[p] || (m != '\0' && exists c :: c in symbols && Displays(info, c, m)))
  {
    if symbols != "" {
      var init, c := symbols[..|symbols| - 1], symbols[|symbols| - 1];
      assert symbols == init + [c];
      SymbolsGive(info, ms, p, init, m);
      DisplaysSlot(info, c, m);
      var i := SymbolSlot(info, c);
      if i < |info| {
        DisplaysSlot(info, c, info[i].0);
        assert info[i] == (info[i].0, c);
      }
      SymbolsEither(info, init, c, m);
    }
  }

  lemma SymbolsEither(info: ModeInfo, init: string, last: char, m: char)
    ensures (exists c :: c in init + [last] && Displays(info, c, m)) <==>
            (exists c :: c in init && Displays(info, c, m)) || Displays(info, last, m)
  {
    if c :| c in init && Displays(info, c, m) {
      assert c in init + [last];
    }
    if Displays(info, last, m) {
      assert last in init + [last];
    }
  }

  lemma {:induction false} SymbolsLost(info: ModeInfo, ms: Members, p: (string, string), symbols: string)
    requires p !in ms
    ensures GiveSymbols(info, ms, p, symbols) == ms
  {
    if symbols != "" {
      SymbolsLost(info, ms, p, symbols[..|symbols| - 1]);
    }
  }

  /** A who reply makes the user known with its host and real name, enters it on the channel if that is
      known, and gives it the modes of the symbols. */
  lemma WhoExactly(k: Kinds, v: View, ev: Event, m: char)
    requires Occurs(k, v, ev, RPL_WHOREPLY)
    ensures var w, r, host := Seen(v, ev), Update(k, v, ev), ev.args[5] + ['!'] + ev.args[2] + ['@'] + ev.args[3];
            var n, name := Key(host), ev.args[7][IndexOf(ev.args[7], ' ') + 1..];
            var p := (Target(ev, 1), n);
            && r == w.(people := w.people[n := Person(host, name)], members := r.members)
            && r.members.Keys == w.members.Keys + (if p.0 in w.rooms then {p} else {})
            && (forall q :: q in w.members && q != p ==> r.members[q] == w.members[q])
            && (p in r.members ==>
                  (m in r.members[p] <==>
                     (p in w.members && m in w.members[p]) ||
                     (m != '\0' && exists c :: c in ev.args[6] && Displays(k.userModes, c, m))))
  {
    WhoEnters(k.userModes, Seen(v, ev), WhoHost(ev.args), ev.args[1], ev.args[6],
              ev.args[7][IndexOf(ev.args[7], ' ') + 1..], m);
  }

  lemma WhoEnters(info: ModeInfo, w: View, host: string, channel: string, symbols: string, name: string, m: char)
    requires '!' in host && '@' in host
    ensures var r, n := AddWho(info, w, host, channel, symbols, name), Key(host);
            var p := (ToLower(channel), n);
            && r == w.(people := w.people[n := Person(host, name)], members := r.members)
            && r.members.Keys == w.members.Keys + (if p.0 in w.rooms then {p} else {})
            && (forall q :: q in w.members && q != p ==> r.members[q] == w.members[q])
            && (p in r.members ==>
                  (m in r.members[p] <==>
                     (p in w.members && m in w.members[p]) ||
                     (m != '\0' && exists c :: c in symbols && Displays(info, c, m))))
  {
    var n, ch := Key(host), ToLower(channel);
    var u := AddMember(AddUser(w, host), n, ch);
    AddMemberGrows(AddUser(w, host), n, ch);
    if (ch, n) in u.members {
      SymbolsGive(info, u.members, (ch, n), symbols, m);
    } else {
      SymbolsLost(info, u.members, (ch, n), symbols);
    }
  }

  lemma WelcomeText(ev: Event)
    requires |ev.args| >= 2 && Fields(ev.args[1]) != []
    ensures var words := Fields(ev.args[1]);
            var last := words[|words| - 1];
            WelcomeHost(ev) == if '!' in last && '@' in last then last else ev.args[0]
  {
  }

  lemma WelcomeHandled(k: Kinds, w: View, ev: Event)
    requires ev.name.RPL_WELCOME? && Answerable(k, w, ev) && Keeps(k, w, ev)
    ensures var host := WelcomeHost(ev);
            Handle(k, w, ev) == w.(people := w.people[Key(host) := Person(host, "")], self := Listed(Key(host)))
  {
  }

  /** The bot is whom the welcome names: by the last word of the text if that is a full host, and else by
      the target. Its entry is new, and it is listed. */
  lemma WelcomeExactly(k: Kinds, v: View, ev: Event)
    requires Occurs(k, v, ev, RPL_WELCOME)
    ensures var w, r, words := Seen(v, ev), Update(k, v, ev), Fields(ev.args[1]);
            var last := words[|words| - 1];
            var host := if '!' in last && '@' in last then last else ev.args[0];
            r == w.(people := w.people[Key(host) := Person(host, "")], self := Listed(Key(host)))
  {
    WelcomeText(ev);
    WelcomeHandled(k, Seen(v, ev), ev);
  }
}
