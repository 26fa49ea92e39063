/** The four maps of the state database as values: two inverse indices that share mode objects. */
module StateDb {
  import opened Seqs

  /** One side of a membership: the user, or the channel, and the shared modes. */
  datatype ChannelUser<U, M> = ChannelUser(user: U, modes: M)
  datatype UserChannel<C, M> = UserChannel(channel: C, modes: M)

  datatype Db<U, C, M> = Db(
    channels: map<string, C>,
    users: map<string, U>,
    channelUsers: map<string, map<string, ChannelUser<U, M>>>,
    userChannels: map<string, map<string, UserChannel<C, M>>>)

  /** Channel `ch` lists nick `n`. */
  ghost predicate Lists<U, C, M>(db: Db<U, C, M>, ch: string, n: string) {
    ch in db.channelUsers && n in db.channelUsers[ch]
  }

  /** Nick `n` is on channel `ch`. */
  ghost predicate IsOn<U, C, M>(db: Db<U, C, M>, n: string, ch: string) {
    n in db.userChannels && ch in db.userChannels[n]
  }

  ghost predicate Inverse<U, C, M>(db: Db<U, C, M>) {
    forall ch, n :: Lists(db, ch, n) <==> IsOn(db, n, ch)
  }

  /** Both entries of a membership share their modes and point at the objects of the other two maps. */
  ghost predicate Paired<U, C, M>(db: Db<U, C, M>, ch: string, n: string)
    requires Lists(db, ch, n) && IsOn(db, n, ch)
  {
    && db.channelUsers[ch][n].modes == db.userChannels[n][ch].modes
    && n in db.users && db.channelUsers[ch][n].user == db.users[n]
    && ch in db.channels && db.userChannels[n][ch].channel == db.channels[ch]
  }

  ghost predicate NoDangling<U, C, M>(db: Db<U, C, M>) {
    db.channelUsers.Keys <= db.channels.Keys && db.userChannels.Keys <= db.users.Keys
  }

  /** No two memberships share modes. */
  ghost predicate OwnModes<U, C, M>(db: Db<U, C, M>) {
    forall ch, n, ch', n' | Lists(db, ch, n) && Lists(db, ch', n') ::
      db.channelUsers[ch][n].modes == db.channelUsers[ch'][n'].modes ==> ch == ch' && n == n'
  }

  ghost predicate Linked<U, C, M>(db: Db<U, C, M>) {
    && Inverse(db)
    && (forall ch, n :: Lists(db, ch, n) ==> Paired(db, ch, n))
    && NoDangling(db)
    && OwnModes(db)
  }

  ghost predicate NewModes<U, C, M>(db: Db<U, C, M>, m: M) {
    forall ch, n :: Lists(db, ch, n) ==> db.channelUsers[ch][n].modes != m
  }

  // ---- the operations ----------------------------------------------------------------------

  function PutUser<U, C, M>(db: Db<U, C, M>, n: string, u: U): Db<U, C, M> {
    db.(users := db.users[n := u])
  }

  function PutChannel<U, C, M>(db: Db<U, C, M>, ch: string, c: C): Db<U, C, M> {
    db.(channels := db.channels[ch := c])
  }

  function Without<T>(index: map<string, map<string, T>>, key: string): map<string, map<string, T>> {
    map k | k in index :: index[k] - {key}
  }

  function RemoveUser<U, C, M>(db: Db<U, C, M>, n: string): Db<U, C, M> {
    Db(db.channels, db.users - {n}, Without(db.channelUsers, n), db.userChannels - {n})
  }

  function RemoveChannel<U, C, M>(db: Db<U, C, M>, ch: string): Db<U, C, M> {
    Db(db.channels - {ch}, db.users, db.channelUsers - {ch}, Without(db.userChannels, ch))
  }

  function Entry<T>(index: map<string, map<string, T>>, key: string): map<string, T> {
    if key in index then index[key] else map[]
  }

  /** Only a known user joins a known channel, and only if neither index has the membership yet. */
  predicate CanJoin<U, C, M>(db: Db<U, C, M>, n: string, ch: string) {
    n in db.users && ch in db.channels && n !in Entry(db.channelUsers, ch) && ch !in Entry(db.userChannels, n)
  }

  function AddTo<U, C, M>(db: Db<U, C, M>, n: string, ch: string, m: M): Db<U, C, M> {
    if !CanJoin(db, n, ch) then db
    else
      db.(channelUsers := db.channelUsers[ch := Entry(db.channelUsers, ch)[n := ChannelUser(db.users[n], m)]],
          userChannels := db.userChannels[n := Entry(db.userChannels, n)[ch := UserChannel(db.channels[ch], m)]])
  }

  function Dropped<T>(index: map<string, map<string, T>>, key: string, inner: string): map<string, map<string, T>> {
    if key in index then index[key := index[key] - {inner}] else index
  }

  function RemoveFrom<U, C, M>(db: Db<U, C, M>, n: string, ch: string): Db<U, C, M> {
    db.(channelUsers := Dropped(db.channelUsers, ch, n), userChannels := Dropped(db.userChannels, n, ch))
  }

  /** Assign the new key, then delete the old one: with equal keys the entry is gone. */
  function Moved<T>(m: map<string, T>, from: string, to: string): map<string, T> {
    if from in m then m[to := m[from]] - {from} else m
  }

  function Rename<U, C, M>(db: Db<U, C, M>, from: string, to: string): Db<U, C, M> {
    if from !in db.users then db
    else
      Db(db.channels,
         Moved(db.users, from, to),
         map ch | ch in db.channelUsers :: Moved(db.channelUsers[ch], from, to),
         Moved(db.userChannels, from, to))
  }

  // ---- what they keep ----------------------------------------------------------------------

  lemma PutChannelLinked<U, C, M>(db: Db<U, C, M>, ch: string, c: C)
    requires Linked(db) && ch !in db.channels
    ensures Linked(PutChannel(db, ch, c))
  {
    var r := PutChannel(db, ch, c);
    SameIndices(db, r);
  }

  lemma SameIndices<U, C, M>(db: Db<U, C, M>, r: Db<U, C, M>)
    requires r.channelUsers == db.channelUsers && r.userChannels == db.userChannels
    ensures forall ch, n :: (Lists(r, ch, n) <==> Lists(db, ch, n)) && (IsOn(r, n, ch) <==> IsOn(db, n, ch))
  {
  }

  /** Putting a user object under a key keeps the links exactly when the key is on no channel or the
      object was there already. */
  lemma PutUserExactly<U, C, M>(db: Db<U, C, M>, n: string, u: U)
    requires Linked(db)
    ensures Linked(PutUser(db, n, u)) <==>
            (n in db.users && db.users[n] == u) || forall ch :: !Lists(db, ch, n)
  {
    var r := PutUser(db, n, u);
    SameIndices(db, r);
    if Linked(r) && exists ch :: Lists(db, ch, n) {
      var ch :| Lists(db, ch, n);
      assert Paired(db, ch, n);
      assert Lists(r, ch, n) && Paired(r, ch, n);
    }
  }

  lemma NoLists<U, C, M>(db: Db<U, C, M>, n: string)
    requires Linked(db) && n !in db.users
    ensures forall ch :: !Lists(db, ch, n)
  {
    assert forall ch :: Lists(db, ch, n) ==> IsOn(db, n, ch);
  }

  lemma RemoveUserLinked<U, C, M>(db: Db<U, C, M>, n: string)
    requires Linked(db)
    ensures Linked(RemoveUser(db, n))
    ensures forall ch, m :: Lists(RemoveUser(db, n), ch, m) <==> m != n && Lists(db, ch, m)
  {
    var r := RemoveUser(db, n);
    forall ch, m
      ensures Lists(r, ch, m) <==> m != n && Lists(db, ch, m)
      ensures IsOn(r, m, ch) <==> m != n && IsOn(db, m, ch)
    {
    }
    forall ch, m | Lists(r, ch, m) ensures Paired(r, ch, m) {
      assert Paired(db, ch, m);
    }
  }

  lemma RemoveChannelLinked<U, C, M>(db: Db<U, C, M>, ch: string)
    requires Linked(db)
    ensures Linked(RemoveChannel(db, ch))
    ensures forall c, n :: Lists(RemoveChannel(db, ch), c, n) <==> c != ch && Lists(db, c, n)
  {
    var r := RemoveChannel(db, ch);
    forall c, n
      ensures Lists(r, c, n) <==> c != ch && Lists(db, c, n)
      ensures IsOn(r, n, c) <==> c != ch && IsOn(db, n, c)
    {
    }
    forall c, n | Lists(r, c, n) ensures Paired(r, c, n) {
      assert Paired(db, c, n);
    }
  }

  lemma JoinLists<U, C, M>(db: Db<U, C, M>, n: string, ch: string, m: M)
    requires CanJoin(db, n, ch)
    ensures var r := AddTo(db, n, ch, m);
            forall c, k :: (Lists(r, c, k) <==> Lists(db, c, k) || (c == ch && k == n)) &&
                           (IsOn(r, k, c) <==> IsOn(db, k, c) || (c == ch && k == n))
  {
  }

  lemma JoinEntries<U, C, M>(db: Db<U, C, M>, n: string, ch: string, m: M, c: string, k: string)
    requires CanJoin(db, n, ch)
    ensures var r := AddTo(db, n, ch, m);
            && (Lists(r, c, k) ==>
                  r.channelUsers[c][k] ==
                  if c == ch && k == n then ChannelUser(db.users[n], m) else Entry(db.channelUsers, c)[k])
            && (IsOn(r, k, c) ==>
                  r.userChannels[k][c] ==
                  if c == ch && k == n then UserChannel(db.channels[ch], m) else Entry(db.userChannels, k)[c])
  {
  }

  lemma JoinOwnModes<U, C, M>(db: Db<U, C, M>, n: string, ch: string, m: M)
    requires CanJoin(db, n, ch) && OwnModes(db) && NewModes(db, m)
    ensures OwnModes(AddTo(db, n, ch, m))
  {
    var r := AddTo(db, n, ch, m);
    JoinLists(db, n, ch, m);
    forall c, k, c', k' | Lists(r, c, k) && Lists(r, c', k') && r.channelUsers[c][k].modes == r.channelUsers[c'][k'].modes
      ensures c == c' && k == k'
    {
      JoinEntries(db, n, ch, m, c, k);
      JoinEntries(db, n, ch, m, c', k');
    }
  }

  lemma JoinLinked<U, C, M>(db: Db<U, C, M>, n: string, ch: string, m: M)
    requires CanJoin(db, n, ch) && Linked(db) && NewModes(db, m)
    ensures Linked(AddTo(db, n, ch, m))
  {
    var r := AddTo(db, n, ch, m);
    JoinLists(db, n, ch, m);
    JoinOwnModes(db, n, ch, m);
    forall c, k | Lists(r, c, k) ensures Paired(r, c, k) {
      JoinEntries(db, n, ch, m, c, k);
    }
  }

  /** An allowed join adds that one membership; any other join changes nothing. */
  lemma AddToLinked<U, C, M>(db: Db<U, C, M>, n: string, ch: string, m: M)
    requires Linked(db) && NewModes(db, m)
    ensures var r := AddTo(db, n, ch, m);
            && Linked(r)
            && forall c, k :: Lists(r, c, k) <==>
                 Lists(db, c, k) || (c == ch && k == n && n in db.users && ch in db.channels)
  {
    assert Lists(db, ch, n) <==> IsOn(db, n, ch);
    if CanJoin(db, n, ch) {
      JoinLists(db, n, ch, m);
      JoinLinked(db, n, ch, m);
    } else if Lists(db, ch, n) {
      assert Paired(db, ch, n);
    }
  }

  lemma RemoveFromLists<U, C, M>(db: Db<U, C, M>, n: string, ch: string)
    ensures var r := RemoveFrom(db, n, ch);
            forall c, k :: (Lists(r, c, k) <==> Lists(db, c, k) && (c != ch || k != n)) &&
                           (IsOn(r, k, c) <==> IsOn(db, k, c) && (c != ch || k != n))
  {
  }

  lemma RemoveFromLinked<U, C, M>(db: Db<U, C, M>, n: string, ch: string)
    requires Linked(db)
    ensures Linked(RemoveFrom(db, n, ch))
    ensures forall c, k :: Lists(RemoveFrom(db, n, ch), c, k) <==> Lists(db, c, k) && (c != ch || k != n)
  {
    var r := RemoveFrom(db, n, ch);
    RemoveFromLists(db, n, ch);
    forall c, k | Lists(r, c, k)
      ensures Paired(r, c, k) && r.channelUsers[c][k] == db.channelUsers[c][k]
    {
      assert Paired(db, c, k);
    }
  }

  /** What a rename does to the memberships. */
  lemma RenameLists<U, C, M>(db: Db<U, C, M>, from: string, to: string)
    requires from in db.users
    ensures forall ch, n :: Lists(Rename(db, from, to), ch, n) <==>
              n != from && (Lists(db, ch, n) || (n == to && Lists(db, ch, from)))
  {
    var r := Rename(db, from, to);
    forall ch, n
      ensures Lists(r, ch, n) <==> n != from && (Lists(db, ch, n) || (n == to && Lists(db, ch, from)))
    {
    }
  }

  /** Every channel of the nick that is taken over is also one of the renamed nick's. */
  ghost predicate AllShared<U, C, M>(db: Db<U, C, M>, from: string, to: string) {
    forall ch :: Lists(db, ch, to) ==> Lists(db, ch, from)
  }

  lemma RenameSameKey<U, C, M>(db: Db<U, C, M>, n: string)
    requires Linked(db) && n in db.users
    ensures Rename(db, n, n) == RemoveUser(db, n) && Linked(Rename(db, n, n))
  {
    RemoveUserLinked(db, n);
    assert forall ch :: ch in db.channelUsers ==> Moved(db.channelUsers[ch], n, n) == db.channelUsers[ch] - {n};
    assert Rename(db, n, n).channelUsers == Without(db.channelUsers, n);
    assert Rename(db, n, n).users == db.users - {n};
    assert Rename(db, n, n).userChannels == db.userChannels - {n};
  }

  lemma RenameCovered<U, C, M>(db: Db<U, C, M>, from: string, to: string)
    requires Linked(db) && from in db.users && from != to && AllShared(db, from, to)
    ensures Linked(Rename(db, from, to))
  {
    var r := Rename(db, from, to);
    RenameLists(db, from, to);
    forall ch, n ensures IsOn(r, n, ch) <==> Lists(r, ch, n) {
      if n == to {
        assert Lists(db, ch, from) <==> IsOn(db, from, ch);
        assert Lists(db, ch, to) <==> IsOn(db, to, ch);
      } else if n != from {
        assert Lists(db, ch, n) <==> IsOn(db, n, ch);
      }
    }
    forall ch, n | Lists(r, ch, n)
      ensures Paired(r, ch, n)
      ensures r.channelUsers[ch][n] == db.channelUsers[ch][if n == to then from else n]
    {
      var was := if n == to then from else n;
      assert Lists(db, ch, was) && Paired(db, ch, was);
    }
    forall ch, n, ch', n' | Lists(r, ch, n) && Lists(r, ch', n') &&
      r.channelUsers[ch][n].modes == r.channelUsers[ch'][n'].modes
      ensures ch == ch' && n == n'
    {
      var was, was' := if n == to then from else n, if n' == to then from else n';
      assert Lists(db, ch, was) && Lists(db, ch', was');
    }
  }

  /** A rename of a known nick keeps the links exactly when the key stays the same (and the user is then
      dropped), or every channel of the key taken over is also one of the renamed nick's. */
  lemma RenameExactly<U, C, M>(db: Db<U, C, M>, from: string, to: string)
    requires Linked(db) && from in db.users
    requires from != to && to in db.users ==> db.users[from] != db.users[to]
    ensures Linked(Rename(db, from, to)) <==> from == to || AllShared(db, from, to)
  {
    if from == to {
      RenameSameKey(db, from);
    } else if AllShared(db, from, to) {
      RenameCovered(db, from, to);
    } else {
      var r := Rename(db, from, to);
      var ch :| Lists(db, ch, to) && !Lists(db, ch, from);
      assert Paired(db, ch, to);
      RenameLists(db, from, to);
      assert Lists(r, ch, to) && r.channelUsers[ch][to] == db.channelUsers[ch][to];
      assert r.users[to] == db.users[from];
    }
  }
}
