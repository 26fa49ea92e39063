/** Stored users behind a cache that remembers absences too and is dumped when full. */
module UserCache {
  import opened Seqs
  import opened Text

  /** Serialising a user and reading it back is taken to give the same user. */
  datatype StoredUser = StoredUser(username: string, data: string)

  /** A cached `None` records that the database has no such user. */
  datatype State = State(db: map<string, StoredUser>, cache: map<string, Option<StoredUser>>)

  /** The flags say whether the database call behind the operation succeeds. */
  datatype Op = Save(user: StoredUser, setOk: bool)
              | Find(name: string, getOk: bool)
              | Remove(name: string, getOk: bool, deleteOk: bool)

  datatype Result = Saved | Found(user: Option<StoredUser>) | Removed(removed: bool) | Failed

  function Stored(db: map<string, StoredUser>, name: string): Option<StoredUser> {
    if name in db then Some(db[name]) else None
  }

  /** Makes room for one more entry: the cache is dumped when it is full. */
  function Room(cache: map<string, Option<StoredUser>>, max: nat): map<string, Option<StoredUser>> {
    if |cache| + 1 > max then map[] else cache
  }

  /** The error of the database write is not looked at. */
  function SaveStep(s: State, max: nat, user: StoredUser, setOk: bool): State {
    State(if setOk then s.db[user.username := user] else s.db,
          Room(s.cache, max)[user.username := Some(user)])
  }

  function FindStep(s: State, max: nat, name: string, getOk: bool): (State, Result) {
    var n := ToLower(name);
    if n in s.cache then (s, Found(s.cache[n]))
    else if !getOk then (s, Failed)
    else (s.(cache := Room(s.cache, max)[n := Stored(s.db, n)]), Found(Stored(s.db, n)))
  }

  function RemoveStep(s: State, max: nat, name: string, getOk: bool, deleteOk: bool): (State, Result) {
    var n := ToLower(name);
    var (f, found) := FindStep(s, max, n, getOk);
    if found == Failed then (f, Failed)
    else if found == Found(None) then (f, Removed(false))
    else if !deleteOk then (f.(cache := f.cache - {n}), Failed)
    else (State(f.db - {n}, f.cache - {n}), Removed(true))
  }

  function Step(s: State, max: nat, op: Op): (State, Result) {
    match op
    case Save(user, setOk) => (SaveStep(s, max, user, setOk), Saved)
    case Find(name, getOk) => FindStep(s, max, name, getOk)
    case Remove(name, getOk, deleteOk) => RemoveStep(s, max, name, getOk, deleteOk)
  }

  function Run(s: State, max: nat, ops: seq<Op>): (State, seq<Result>) {
    if ops == [] then (s, [])
    else
      var (before, results) := Run(s, max, ops[..|ops| - 1]);
      var (after, r) := Step(before, max, ops[|ops| - 1]);
      (after, results + [r])
  }

  // ---- the database alone ----------------------------------------------------------------

  function BareStep(db: map<string, StoredUser>, op: Op): (map<string, StoredUser>, Result) {
    match op
    case Save(user, _) => (db[user.username := user], Saved)
    case Find(name, _) => (db, Found(Stored(db, ToLower(name))))
    case Remove(name, _, _) => (db - {ToLower(name)}, Removed(ToLower(name) in db))
  }

  function BareRun(db: map<string, StoredUser>, ops: seq<Op>): (map<string, StoredUser>, seq<Result>) {
    if ops == [] then (db, [])
    else
      var (before, results) := BareRun(db, ops[..|ops| - 1]);
      var (after, r) := BareStep(before, ops[|ops| - 1]);
      (after, results + [r])
  }

  /** What the cache holds is what the database would answer. */
  ghost predicate Coherent(s: State) {
    forall n :: n in s.cache ==> s.cache[n] == Stored(s.db, n)
  }

  predicate NoErrors(op: Op) {
    match op
    case Save(_, setOk) => setOk
    case Find(_, getOk) => getOk
    case Remove(_, getOk, deleteOk) => getOk && deleteOk
  }

  lemma StepTransparent(s: State, max: nat, op: Op)
    requires Coherent(s) && NoErrors(op)
    ensures var (after, r) := Step(s, max, op);
            Coherent(after) && (after.db, r) == BareStep(s.db, op)
  {
    if op.Remove? {
      var n := ToLower(op.name);
      LowerTwice(op.name);
      if n !in s.db {
        assert s.db - {n} == s.db;
      }
    }
  }

  /** Over every run without database errors, the store answers what the database alone would, and
      leaves it the same; negative entries and dumps of the whole cache included. */
  lemma {:induction false} RunTransparent(s: State, max: nat, ops: seq<Op>)
    requires Coherent(s) && forall op :: op in ops ==> NoErrors(op)
    ensures var (after, results) := Run(s, max, ops);
            Coherent(after) && (after.db, results) == BareRun(s.db, ops)
  {
    if ops != [] {
      var init, last := ops[..|ops| - 1], ops[|ops| - 1];
      assert last in ops;
      RunTransparent(s, max, init);
      StepTransparent(Run(s, max, init).0, max, last);
    }
  }

  /** Failed reads and deletes keep the cache right as well. */
  lemma FailedReadsKeep(s: State, max: nat, op: Op)
    requires Coherent(s) && !op.Save?
    ensures Coherent(Step(s, max, op).0)
  {
    if op.Remove? {
      LowerTwice(op.name);
    }
  }

  /** With the cache right, a find or a remove fails exactly when the entry is not cached and cannot be
      read, or is there and cannot be deleted; else it answers what the database alone would. The database
      loses an entry exactly on a remove that says so. */
  lemma FailuresExactly(s: State, max: nat, op: Op)
    requires Coherent(s) && !op.Save?
    ensures var (after, r) := Step(s, max, op);
            var n := ToLower(op.name);
            && (r == Failed <==> (n !in s.cache && !op.getOk) || (op.Remove? && n in s.db && !op.deleteOk))
            && (r != Failed ==> r == BareStep(s.db, op).1)
            && after.db == if r == Removed(true) then s.db - {n} else s.db
  {
    LowerTwice(op.name);
  }

  /** What was found, or found absent, is in the cache afterwards, so that no later read can fail for it;
      the other entries stay unless a new one would be one too many. */
  lemma FoundIsCached(s: State, max: nat, name: string, getOk: bool, other: string)
    ensures var (after, r) := FindStep(s, max, name, getOk);
            && (r != Failed ==> ToLower(name) in after.cache && r == Found(after.cache[ToLower(name)]))
            && (other != ToLower(name) ==>
                  (other in after.cache <==>
                     other in s.cache && (r == Failed || ToLower(name) in s.cache || |s.cache| + 1 <= max)) &&
                  (other in after.cache ==> after.cache[other] == s.cache[other]))
  {
  }

  /** A save keeps it right exactly when the write reached the database, or would not have
      changed it. */
  lemma SaveKeepsExactly(s: State, max: nat, user: StoredUser, setOk: bool)
    requires Coherent(s)
    ensures Coherent(SaveStep(s, max, user, setOk)) <==> setOk || Stored(s.db, user.username) == Some(user)
  {
    var after := SaveStep(s, max, user, setOk);
    assert user.username in after.cache && after.cache[user.username] == Some(user);
  }

  /** The cache never outgrows its bound. */
  lemma {:induction false} CacheBounded(s: State, max: nat, ops: seq<Op>)
    requires 1 <= max && |s.cache| <= max
    ensures |Run(s, max, ops).0.cache| <= max
  {
    if ops != [] {
      var init, op := ops[..|ops| - 1], ops[|ops| - 1];
      CacheBounded(s, max, init);
      var before := Run(s, max, init).0;
      match op
      case Save(user, _) =>
        Grows(Room(before.cache, max), user.username, Some(user));
      case Find(name, _) =>
        Grows(Room(before.cache, max), ToLower(name), Stored(before.db, ToLower(name)));
      case Remove(name, getOk, _) =>
        var n := ToLower(name);
        Grows(Room(before.cache, max), ToLower(n), Stored(before.db, ToLower(n)));
        Shrinks(FindStep(before, max, n, getOk).0.cache, n);
    }
  }

  lemma Grows<T>(m: map<string, T>, k: string, v: T)
    ensures |m[k := v]| <= |m| + 1
  {
    assert m[k := v].Keys == m.Keys + {k};
  }

  lemma Shrinks<T>(m: map<string, T>, k: string)
    ensures |m - {k}| <= |m|
  {
    assert (m - {k}).Keys == m.Keys - {k};
  }

  /** Users are stored under their own names. */
  ghost predicate Keyed(s: State) {
    forall n :: n in s.db ==> s.db[n].username == n
  }

  /** A user just saved is found under the name exactly when that name is in lower case. */
  lemma FindAfterSave(s: State, max: nat, user: StoredUser)
    requires Coherent(s) && Keyed(s)
    ensures FindStep(SaveStep(s, max, user, true), max, user.username, true).1 == Found(Some(user)) <==>
            ToLower(user.username) == user.username
  {
    var saved := SaveStep(s, max, user, true);
    SaveKeepsExactly(s, max, user, true);
    assert Keyed(saved);
    assert FindStep(saved, max, user.username, true).1 == Found(Stored(saved.db, ToLower(user.username)));
  }

  // ---- the store -------------------------------------------------------------------------

  class Store {
    var db: map<string, StoredUser>
    var cache: map<string, Option<StoredUser>>
    const maxCache: nat

    ghost function Value(): State
      reads this
    {
      State(db, cache)
    }

    constructor (maxCache: nat)
      ensures Value() == State(map[], map[]) && this.maxCache == maxCache
    {
      db, cache := map[], map[];
      this.maxCache := maxCache;
    }

    method CheckCacheLimits()
      modifies this`cache
      ensures cache == Room(old(cache), maxCache)
    {
      if |cache| + 1 > maxCache {
        cache := map[];
      }
    }

    method SaveUser(user: StoredUser, setOk: bool)
      modifies this
      ensures Value() == SaveStep(old(Value()), maxCache, user, setOk)
    {
      if setOk {
        db := db[user.username := user];
      }
      CheckCacheLimits();
      cache := cache[user.username := Some(user)];
    }

    method FetchUser(username: string, getOk: bool) returns (user: Option<StoredUser>, err: bool)
      ensures err == !getOk && user == if getOk then Stored(db, ToLower(username)) else None
    {
      var name := ToLower(username);
      if !getOk {
        return None, true;
      }
      if name !in db {
        return None, false;
      }
      return Some(db[name]), false;
    }

    method FindUser(username: string, getOk: bool) returns (user: Option<StoredUser>, err: bool)
      modifies this`cache
      ensures (Value(), if err then Failed else Found(user)) == FindStep(old(Value()), maxCache, username, getOk)
    {
      var name := ToLower(username);
      LowerTwice(username);
      if name in cache {
        return cache[name], false;
      }
      user, err := FetchUser(name, getOk);
      if err {
        return;
      }
      CheckCacheLimits();
      cache := cache[name := user];
    }

    method RemoveUser(username: string, getOk: bool, deleteOk: bool) returns (removed: bool, err: bool)
      modifies this
      ensures (Value(), if err then Failed else Removed(removed)) ==
              RemoveStep(old(Value()), maxCache, username, getOk, deleteOk)
    {
      removed := false;
      var name := ToLower(username);
      LowerTwice(username);
      var present;
      present, err := FindUser(name, getOk);
      if err || present == None {
        return;
      }
      cache := cache - {name};
      if !deleteOk {
        return false, true;
      }
      db := db - {name};
      removed := true;
    }
  }
}
