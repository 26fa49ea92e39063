/** The four maps together with what the objects in them hold, and the plain value they stand for. */
module StateTables {
  import opened Seqs
  import opened Hosts
  import opened UserBits
  import opened StateView
  import D = StateDb

  /** `persons`, `rooms` and `bits` say what the user, channel and mode objects hold. */
  datatype Tables<U(==), C(==), M(==)> = Tables(
    db: D.Db<U, C, M>,
    persons: map<U, Person>,
    rooms: map<C, Room>,
    bits: map<M, set<char>>,
    self: Option<U>)

  /** No two keys share an object. */
  ghost predicate Apart<T>(m: map<string, T>) {
    forall a, b :: a in m && b in m && m[a] == m[b] ==> a == b
  }

  ghost predicate PeopleShown<U>(users: map<string, U>, persons: map<U, Person>, people: map<string, Person>) {
    && people.Keys == users.Keys
    && forall n :: n in users ==> users[n] in persons && people[n] == persons[users[n]]
  }

  ghost predicate RoomsShown<C>(channels: map<string, C>, held: map<C, Room>, rooms: map<string, Room>) {
    && rooms.Keys == channels.Keys
    && forall c :: c in channels ==> channels[c] in held && rooms[c] == held[channels[c]]
  }

  predicate In<T>(index: map<string, map<string, T>>, key: string, inner: string) {
    key in index && inner in index[key]
  }

  ghost predicate MembersShown<U, M>(
    index: map<string, map<string, D.ChannelUser<U, M>>>, bits: map<M, set<char>>, members: Members)
  {
    && (forall ch, n :: In(index, ch, n) <==> (ch, n) in members)
    && forall ch, n :: In(index, ch, n) ==>
         index[ch][n].modes in bits && members[(ch, n)] == bits[index[ch][n].modes]
  }

  ghost predicate SelfShown<U>(users: map<string, U>, persons: map<U, Person>, self: Option<U>, shown: SelfView) {
    match shown
    case NoSelf => self.None?
    case Listed(k) => k in users && self == Some(users[k])
    case Detached(p) =>
      && self.Some? && self.value in persons && persons[self.value] == p
      && forall n :: n in users ==> users[n] != self.value
  }

  /** The maps are linked, and they show the value. */
  ghost predicate Shows<U, C, M>(t: Tables<U, C, M>, v: View) {
    && D.Linked(t.db)
    && Apart(t.db.users) && Apart(t.db.channels)
    && PeopleShown(t.db.users, t.persons, v.people)
    && RoomsShown(t.db.channels, t.rooms, v.rooms)
    && MembersShown(t.db.channelUsers, t.bits, v.members)
    && SelfShown(t.db.users, t.persons, t.self, v.self)
  }

  function PutUser<U, C, M>(t: Tables<U, C, M>, n: string, u: U, p: Person): Tables<U, C, M> {
    t.(db := D.PutUser(t.db, n, u), persons := t.persons[u := p])
  }

  /** An object not in use as a user, whose contents are as given if they are known at all. */
  ghost predicate Unused<U>(users: map<string, U>, persons: map<U, Person>, self: Option<U>, u: U, p: Person) {
    u in persons ==> persons[u] == p && self != Some(u) && forall n :: n in users ==> users[n] != u
  }

  /** A user object under a key that is not in use. */
  lemma PutUserShows<U, C, M>(t: Tables<U, C, M>, v: View, n: string, u: U, p: Person)
    requires Shows(t, v) && n !in t.db.users && Unused(t.db.users, t.persons, t.self, u, p)
    ensures Shows(PutUser(t, n, u, p), v.(people := v.people[n := p]))
  {
    D.NoLists(t.db, n);
    D.PutUserExactly(t.db, n, u);
  }

  /** What one user object holds changes. */
  lemma StorePersonShows<U, C, M>(t: Tables<U, C, M>, v: View, n: string, p: Person)
    requires Shows(t, v) && n in t.db.users
    ensures Shows(t.(persons := t.persons[t.db.users[n] := p]), v.(people := v.people[n := p]))
  {
  }

  /** Memberships that are kept keep their bits. */
  lemma KeptMembers<U, M>(
    index: map<string, map<string, D.ChannelUser<U, M>>>, kept: map<string, map<string, D.ChannelUser<U, M>>>,
    bits: map<M, set<char>>, members: Members, rest: Members)
    requires MembersShown(index, bits, members)
    requires forall ch, n :: In(kept, ch, n) ==> In(index, ch, n) && kept[ch][n] == index[ch][n]
    requires forall ch, n :: (ch, n) in rest <==> In(kept, ch, n)
    requires forall p :: p in rest ==> p in members && rest[p] == members[p]
    ensures MembersShown(kept, bits, rest)
  {
  }

  lemma WithoutUser<U, M>(
    index: map<string, map<string, D.ChannelUser<U, M>>>, bits: map<M, set<char>>, v: View, n: string)
    requires MembersShown(index, bits, v.members)
    ensures MembersShown(D.Without(index, n), bits, RemoveUser(v, n).members)
  {
    KeptMembers(index, D.Without(index, n), bits, v.members, RemoveUser(v, n).members);
  }

  lemma WithoutChannel<U, M>(
    index: map<string, map<string, D.ChannelUser<U, M>>>, bits: map<M, set<char>>, v: View, ch: string)
    requires MembersShown(index, bits, v.members)
    ensures MembersShown(index - {ch}, bits, RemoveRoom(v, ch).members)
  {
    KeptMembers(index, index - {ch}, bits, v.members, RemoveRoom(v, ch).members);
  }

  lemma RemoveUserShows<U, C, M>(t: Tables<U, C, M>, v: View, n: string)
    requires Shows(t, v)
    ensures Shows(t.(db := D.RemoveUser(t.db, n)), RemoveUser(v, n))
  {
    D.RemoveUserLinked(t.db, n);
    WithoutUser(t.db.channelUsers, t.bits, v, n);
  }

  function PutChannel<U, C, M>(t: Tables<U, C, M>, ch: string, c: C, room: Room): Tables<U, C, M> {
    t.(db := D.PutChannel(t.db, ch, c), rooms := t.rooms[c := room])
  }

  lemma PutChannelShows<U, C, M>(t: Tables<U, C, M>, v: View, ch: string, c: C, room: Room)
    requires Shows(t, v) && ch !in t.db.channels
    requires c in t.rooms ==> t.rooms[c] == room && forall k :: k in t.db.channels ==> t.db.channels[k] != c
    ensures Shows(PutChannel(t, ch, c, room), v.(rooms := v.rooms[ch := room]))
  {
    D.PutChannelLinked(t.db, ch, c);
  }

  lemma StoreRoomShows<U, C, M>(t: Tables<U, C, M>, v: View, ch: string, room: Room)
    requires Shows(t, v) && ch in t.db.channels
    ensures Shows(t.(rooms := t.rooms[t.db.channels[ch] := room]), v.(rooms := v.rooms[ch := room]))
  {
  }

  lemma RemoveChannelShows<U, C, M>(t: Tables<U, C, M>, v: View, ch: string)
    requires Shows(t, v)
    ensures Shows(t.(db := D.RemoveChannel(t.db, ch)), RemoveRoom(v, ch))
  {
    D.RemoveChannelLinked(t.db, ch);
    WithoutChannel(t.db.channelUsers, t.bits, v, ch);
  }

  lemma JoinMembers<U, C, M>(t: Tables<U, C, M>, members: Members, n: string, ch: string, m: M)
    requires MembersShown(t.db.channelUsers, t.bits, members) && m !in t.bits && D.CanJoin(t.db, n, ch)
    ensures MembersShown(D.AddTo(t.db, n, ch, m).channelUsers, t.bits[m := {}], members[(ch, n) := {}])
  {
    var r := D.AddTo(t.db, n, ch, m);
    D.JoinLists(t.db, n, ch, m);
    assert forall c, k :: In(r.channelUsers, c, k) <==> D.Lists(r, c, k);
    assert forall c, k :: In(t.db.channelUsers, c, k) <==> D.Lists(t.db, c, k);
    forall c, k | D.Lists(r, c, k)
      ensures r.channelUsers[c][k].modes == if c == ch && k == n then m else t.db.channelUsers[c][k].modes
    {
      D.JoinEntries(t.db, n, ch, m, c, k);
    }
  }

  lemma JoinAllowed<U, C, M>(t: Tables<U, C, M>, v: View, n: string, ch: string)
    requires Shows(t, v)
    ensures D.CanJoin(t.db, n, ch) <==> n in v.people && ch in v.rooms && (ch, n) !in v.members
  {
    assert D.Lists(t.db, ch, n) <==> D.IsOn(t.db, n, ch);
  }

  /** A membership is added with mode bits of its own. */
  lemma AddToShows<U, C, M>(t: Tables<U, C, M>, v: View, n: string, ch: string, m: M)
    requires Shows(t, v) && m !in t.bits
    ensures D.CanJoin(t.db, n, ch) ==>
              Shows(t.(db := D.AddTo(t.db, n, ch, m), bits := t.bits[m := {}]), AddMember(v, n, ch))
    ensures !D.CanJoin(t.db, n, ch) ==> AddMember(v, n, ch) == v
  {
    JoinAllowed(t, v, n, ch);
    if D.CanJoin(t.db, n, ch) {
      D.JoinLinked(t.db, n, ch, m);
      JoinMembers(t, v.members, n, ch, m);
    }
  }

  lemma RemoveFromShows<U, C, M>(t: Tables<U, C, M>, v: View, n: string, ch: string)
    requires Shows(t, v)
    ensures Shows(t.(db := D.RemoveFrom(t.db, n, ch)), RemoveMember(v, n, ch))
  {
    D.RemoveFromLinked(t.db, n, ch);
    KeptMembers(t.db.channelUsers, D.Dropped(t.db.channelUsers, ch, n), t.bits, v.members, RemoveMember(v, n, ch).members);
  }

  /** The bits of one membership change, and no other membership's. */
  lemma StoreBitsShows<U, C, M>(t: Tables<U, C, M>, v: View, ch: string, n: string, b: set<char>)
    requires Shows(t, v) && D.Lists(t.db, ch, n)
    ensures Shows(t.(bits := t.bits[t.db.channelUsers[ch][n].modes := b]), v.(members := v.members[(ch, n) := b]))
  {
  }

  lemma FreeAlike<U, C, M>(t: Tables<U, C, M>, v: View, n: string)
    requires MembersShown(t.db.channelUsers, t.bits, v.members)
    ensures Free(v, n) <==> forall ch :: !D.Lists(t.db, ch, n)
  {
    assert forall ch :: D.Lists(t.db, ch, n) <==> (ch, n) in v.members;
    if forall ch :: !D.Lists(t.db, ch, n) {
      forall p | p in v.members ensures p.1 != n {
        assert !D.Lists(t.db, p.0, n);
      }
    }
  }

  /** A new user object takes a key over: what it shows is the new person. */
  lemma ReplacedShown<U>(users: map<string, U>, persons: map<U, Person>, people: map<string, Person>, n: string, u: U, p: Person)
    requires Apart(users) && PeopleShown(users, persons, people) && u !in persons
    ensures Apart(users[n := u]) && PeopleShown(users[n := u], persons[u := p], people[n := p])
  {
  }

  /** The bot's own new user object takes a key over: the links hold exactly when the key is on no
      channel. */
  lemma WelcomeShows<U, C, M>(t: Tables<U, C, M>, v: View, n: string, u: U, p: Person)
    requires Shows(t, v) && u !in t.persons
    ensures D.Linked(D.PutUser(t.db, n, u)) <==> Free(v, n)
    ensures Free(v, n) ==>
              Shows(PutUser(t, n, u, p).(self := Some(u)), v.(people := v.people[n := p], self := Listed(n)))
  {
    assert n in t.db.users ==> t.db.users[n] in t.persons;
    D.PutUserExactly(t.db, n, u);
    FreeAlike(t, v, n);
    ReplacedShown(t.db.users, t.persons, v.people, n, u, p);
  }

  lemma CoveredAlike<U, C, M>(t: Tables<U, C, M>, v: View, from: string, to: string)
    requires MembersShown(t.db.channelUsers, t.bits, v.members)
    ensures D.AllShared(t.db, from, to) <==> Covered(v, from, to)
  {
    assert forall ch, n :: D.Lists(t.db, ch, n) <==> (ch, n) in v.members;
    if D.AllShared(t.db, from, to) {
      forall p | p in v.members && p.1 == to ensures (p.0, from) in v.members {
        assert D.Lists(t.db, p.0, to);
      }
    }
    if Covered(v, from, to) {
      forall ch | D.Lists(t.db, ch, to) ensures D.Lists(t.db, ch, from) {
        assert (ch, to) in v.members;
      }
    }
  }

  lemma RenameMembersShown<U, C, M>(t: Tables<U, C, M>, v: View, from: string, to: string)
    requires MembersShown(t.db.channelUsers, t.bits, v.members)
    requires from in t.db.users && from != to && Covered(v, from, to)
    ensures MembersShown(D.Rename(t.db, from, to).channelUsers, t.bits, RenameMembers(v, from, to))
  {
    var r := D.Rename(t.db, from, to).channelUsers;
    D.RenameLists(t.db, from, to);
    forall ch, n
      ensures In(r, ch, n) <==> (ch, n) in RenameMembers(v, from, to)
      ensures In(r, ch, n) ==> r[ch][n] == t.db.channelUsers[ch][if n == to then from else n]
    {
      assert In(r, ch, n) <==> D.Lists(D.Rename(t.db, from, to), ch, n);
      assert In(t.db.channelUsers, ch, n) <==> D.Lists(t.db, ch, n);
      assert In(t.db.channelUsers, ch, from) <==> D.Lists(t.db, ch, from);
      RenameMembersAt(v, from, to, (ch, n));
    }
  }

  lemma MovedShown<U>(users: map<string, U>, persons: map<U, Person>, people: map<string, Person>, from: string, to: string)
    requires Apart(users) && PeopleShown(users, persons, people) && from in users && from != to
    ensures Apart(D.Moved(users, from, to))
    ensures PeopleShown(D.Moved(users, from, to), persons, people[to := people[from]] - {from})
  {
  }

  lemma MovedSelf<U>(
    users: map<string, U>, persons: map<U, Person>, self: Option<U>, v: View, from: string, to: string)
    requires Apart(users) && PeopleShown(users, persons, v.people) && SelfShown(users, persons, self, v.self)
    requires from in users && from != to
    ensures SelfShown(D.Moved(users, from, to), persons, self, RenameSelf(v, from, to, v.people[from]))
  {
  }

  /** The host of the renamed user is stored, then its key changes: the links hold exactly when the key
      stays the same or every channel of the key taken over is also one of the renamed nick's. */
  lemma RenameShows<U, C, M>(t: Tables<U, C, M>, v: View, from: string, to: string, host: string)
    requires Shows(t, v) && from in t.db.users
    ensures var moved := Person(host, v.people[from].name);
            var r := t.(db := D.Rename(t.db, from, to), persons := t.persons[t.db.users[from] := moved]);
            && (D.Linked(r.db) <==> from == to || Covered(v, from, to))
            && (D.Linked(r.db) ==> Shows(r, Rename(v, from, to, host)))
  {
    var moved := Person(host, v.people[from].name);
    var held := t.(persons := t.persons[t.db.users[from] := moved]);
    var seen := v.(people := v.people[from := moved]);
    StorePersonShows(t, v, from, moved);
    CoveredAlike(t, v, from, to);
    D.RenameExactly(t.db, from, to);
    if from == to {
      D.RenameSameKey(t.db, from);
      RemoveUserShows(held, seen, from);
      RenameToSame(v, from, host);
    } else if Covered(v, from, to) {
      RenameMembersShown(held, seen, from, to);
      MovedShown(t.db.users, held.persons, seen.people, from, to);
      MovedSelf(t.db.users, held.persons, t.self, seen, from, to);
      RenameToOther(v, from, to, host);
    }
  }

  /** A rename to the same key removes the user. */
  lemma RenameToSame(v: View, key: string, host: string)
    requires key in v.people
    ensures Rename(v, key, key, host) ==
            RemoveUser(v.(people := v.people[key := Person(host, v.people[key].name)]), key)
  {
  }

  lemma RenameToOther(v: View, from: string, to: string, host: string)
    requires from in v.people && from != to && Covered(v, from, to)
    ensures var seen := v.(people := v.people[from := Person(host, v.people[from].name)]);
            var r := Rename(v, from, to, host);
            && r.people == seen.people[to := seen.people[from]] - {from}
            && r.members == RenameMembers(seen, from, to)
            && r.self == RenameSelf(seen, from, to, seen.people[from])
  {
  }
}
