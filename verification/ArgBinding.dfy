/** Binding the words of a message to the arguments a command declares. */
module ArgBinding {
  import opened Seqs
  import opened Text
  import opened CommandArgs

  datatype BindError = StateDisabled | NotEnough | NotChannel | UnknownUser | TooMany | Unexpected

  /** An account of the store, and the user whose nick led to it, if it was found by nick. */
  datatype Account = Account(name: string, user: Option<string>)

  /** A command call: the declared arguments, whether the state is enabled, where the message came from,
      its words, and what the look-ups find: known channels, the user a nick names, and the account that a
      nick or a `*name` leads to. */
  datatype Request = Request(
    args: seq<Argument>,
    state: bool,
    isChan: bool,
    channel: string,
    chantypes: string,
    words: seq<string>,
    rooms: set<string>,
    nicks: map<string, string>,
    users: map<string, Account>)
  {
    predicate IsChannel(word: string) {
      word != "" && word[0] in chantypes
    }

    predicate WantsChannel() {
      args != [] && args[0].kind.channel
    }

    /** The first word is the channel argument. */
    predicate ChannelGiven() {
      WantsChannel() && words != [] && IsChannel(words[0])
    }

    /** The index of the word for argument `p`; -1 for a channel argument that was left out. */
    function WordOf(p: nat): int {
      if WantsChannel() && !ChannelGiven() then p - 1 else p
    }

    /** Arguments after the first variadic one are not looked at. */
    function Live(): (n: nat)
      ensures n <= |args|
    {
      LiveFrom(0)
    }

    function LiveFrom(i: nat): (n: nat)
      requires i <= |args|
      ensures i <= n <= |args|
      decreases |args| - i
    {
      if i == |args| then i else if args[i].kind.variadic then i + 1 else LiveFrom(i + 1)
    }

    predicate IsImplicit(p: nat) {
      p == 0 && WantsChannel() && !ChannelGiven()
    }

    /** The words bound to argument `p`: one, or for a variadic argument all that are left. */
    function Words(p: nat): seq<string>
      requires p < |args|
    {
      if IsImplicit(p) || WordOf(p) >= |words| then []
      else if args[p].kind.variadic then words[WordOf(p)..]
      else [words[WordOf(p)]]
    }

    predicate IsBound(p: nat) {
      p < Live() && (IsImplicit(p) || WordOf(p) < |words|)
    }

    function Value(p: nat): string
      requires p < |args|
    {
      if IsImplicit(p) then channel else Join(Words(p), ' ')
    }

    /** The known channel of a name. */
    function Room(name: string): Option<string> {
      if ToLower(name) in rooms then Some(ToLower(name)) else None
    }

    /** The user a word stands for in an argument of some kind. */
    function UserOf(kind: ArgType, word: string): Option<string> {
      if kind.nick && word in nicks then Some(nicks[word])
      else if kind.user && word in users then users[word].user
      else None
    }

    function AccountOf(kind: ArgType, word: string): Option<string> {
      if kind.user && word in users then Some(users[word].name) else None
    }

    /** Argument `p` is bound to a single word. */
    predicate IsSingle(p: nat)
      requires p < |args|
    {
      IsBound(p) && !IsImplicit(p) && !args[p].kind.variadic
    }

    /** The last argument takes all words that are left, and looks them up. */
    predicate LooksUpTail() {
      Live() > 0 && args[Live() - 1].kind.variadic && (args[Live() - 1].kind.nick || args[Live() - 1].kind.user)
    }

    /** A channel argument needs the state, and a channel from the message or from its words. */
    predicate ChannelRule() {
      WantsChannel() ==> state && (isChan || ChannelGiven())
    }

    /** Every required argument has a word, and no word is left over. */
    ghost predicate Fits() {
      && (forall p :: 0 <= p < Live() && args[p].kind.required && !IsImplicit(p) ==> WordOf(p) < |words|)
      && ((exists p :: 0 <= p < Live() && args[p].kind.variadic) || |words| <= WordOf(Live()))
    }

    ghost predicate Known(p: nat)
      requires p < |args|
    {
      && (args[p].kind.nick ==> forall w :: w in Words(p) ==> w in nicks)
      && (args[p].kind.user ==> forall w :: w in Words(p) ==> w in users)
    }

    ghost predicate AllKnown() {
      forall p :: 0 <= p < Live() ==> Known(p)
    }
  }

  ghost predicate ShapedArgs(args: seq<Argument>) {
    && WellDeclared(args)
    && forall i :: 0 <= i < |args| ==>
         var k := args[i].kind;
         && (k.required || k.optional || k.variadic)
         && !(k.required && k.optional) && !(k.required && k.variadic) && !(k.optional && k.variadic)
         && (k.channel ==> k.required && !k.nick && !k.user)
         && !(k.nick && k.user)
  }

  /** Registered commands have such lists. */
  lemma AcceptedIsShaped(declared: seq<string>)
    requires Outcomes(declared).Accepted?
    ensures ShapedArgs(Outcomes(declared).args)
  {
    AcceptedExactly(declared);
    var args := Outcomes(declared).args;
    forall i | 0 <= i < |args|
      ensures var k := args[i].kind;
              && (k.required || k.optional || k.variadic)
              && !(k.required && k.optional) && !(k.required && k.variadic) && !(k.optional && k.variadic)
              && (k.channel ==> k.required && !k.nick && !k.user)
              && !(k.nick && k.user)
    {
      OneShape(ToLower(declared[i]));
      assert args[i] == Declared(declared[i]);
    }
  }

  lemma {:induction false} LiveFacts(r: Request, i: nat)
    requires i <= |r.args|
    ensures forall p :: i <= p < r.LiveFrom(i) - 1 ==> !r.args[p].kind.variadic
    ensures (exists p :: i <= p < r.LiveFrom(i) && r.args[p].kind.variadic) <==>
            r.LiveFrom(i) > i && r.args[r.LiveFrom(i) - 1].kind.variadic
    ensures r.LiveFrom(i) == |r.args| || (r.LiveFrom(i) > i && r.args[r.LiveFrom(i) - 1].kind.variadic)
    decreases |r.args| - i
  {
    if i < |r.args| && !r.args[i].kind.variadic {
      LiveFacts(r, i + 1);
    }
  }

  /** Looking goes on after an argument unless it is variadic or the last. */
  lemma LiveNext(r: Request, i: nat)
    requires i < r.Live()
    ensures if r.args[i].kind.variadic then r.Live() == i + 1 else i + 1 < |r.args| ==> i + 1 < r.Live()
  {
    LiveFacts(r, 0);
  }

  // ---- the binding ------------------------------------------------------------------------

  /** The values bound so far are those of the first `n` arguments. */
  ghost predicate BoundTo(r: Request, values: map<string, string>, n: nat)
    requires n <= |r.args|
  {
    && (forall p :: 0 <= p < n && r.IsBound(p) ==> r.args[p].name in values && values[r.args[p].name] == r.Value(p))
    && (forall name :: name in values ==> exists p :: 0 <= p < n && r.IsBound(p) && r.args[p].name == name)
  }

  method ParseChanArg(r: Request)
    returns (error: Option<BindError>, consumed: bool, value: string, room: Option<string>)
    requires r.WantsChannel()
    ensures error == if !r.isChan && r.words == [] then Some(NotEnough)
                     else if !r.isChan && !r.ChannelGiven() then Some(NotChannel)
                     else None
    ensures error == None ==>
              && consumed == r.ChannelGiven() && value == (if consumed then r.words[0] else r.channel)
              && room == r.Room(value)
  {
    var isFirstChan := false;
    if 0 < |r.words| {
      isFirstChan := r.IsChannel(r.words[0]);
    } else if !r.isChan {
      return Some(NotEnough), false, "", None;
    }
    if r.isChan {
      if !isFirstChan {
        return None, false, r.channel, r.Room(r.channel);
      }
      return None, true, r.words[0], r.Room(r.words[0]);
    } else if isFirstChan {
      return None, true, r.words[0], r.Room(r.words[0]);
    }
    return Some(NotChannel), false, "", None;
  }

  /** What the look-ups leave: the channel, users and accounts by argument name, and those of the words
      of a variadic argument in order. */
  datatype Targets = Targets(
    channel: Option<string>,
    users: map<string, string>,
    accounts: map<string, string>,
    varUsers: seq<Option<string>>,
    varAccounts: seq<Option<string>>)

  const NO_TARGETS := Targets(None, map[], map[], [], [])

  function Noted(m: map<string, string>, name: string, found: Option<string>): map<string, string> {
    if found.Some? then m[name := found.value] else m
  }

  function UsersOf(r: Request, kind: ArgType, words: seq<string>): seq<Option<string>> {
    seq(|words|, i requires 0 <= i < |words| => r.UserOf(kind, words[i]))
  }

  function AccountsOf(r: Request, kind: ArgType, words: seq<string>): seq<Option<string>> {
    seq(|words|, i requires 0 <= i < |words| => r.AccountOf(kind, words[i]))
  }

  function UserSlots(r: Request): (slots: seq<Option<string>>)
    ensures |slots| == |r.args|
  {
    seq(|r.args|, p requires 0 <= p < |r.args| =>
      if r.IsSingle(p) then r.UserOf(r.args[p].kind, r.words[r.WordOf(p)]) else None)
  }

  function AccountSlots(r: Request): (slots: seq<Option<string>>)
    ensures |slots| == |r.args|
  {
    seq(|r.args|, p requires 0 <= p < |r.args| =>
      if r.IsSingle(p) then r.AccountOf(r.args[p].kind, r.words[r.WordOf(p)]) else None)
  }

  /** The targets are those of the first `n` arguments. */
  ghost predicate Targeted(r: Request, t: Targets, n: nat)
    requires n <= |r.args|
  {
    && t.channel == (if n > 0 && r.WantsChannel() then r.Room(r.Value(0)) else None)
    && Mirrors(t.users, r.args, UserSlots(r), n)
    && Mirrors(t.accounts, r.args, AccountSlots(r), n)
    && TailTargeted(r, t, n)
  }

  ghost predicate TailTargeted(r: Request, t: Targets, n: nat) {
    if n >= r.Live() && r.LooksUpTail() then
      var kind, words := r.args[r.Live() - 1].kind, r.Words(r.Live() - 1);
      t.varUsers == UsersOf(r, kind, words) && t.varAccounts == if kind.user then AccountsOf(r, kind, words) else []
    else t.varUsers == [] && t.varAccounts == []
  }

  predicate Finds(r: Request, kind: ArgType, word: string) {
    (kind.nick ==> word in r.nicks) && (kind.user ==> word in r.users)
  }

  /** The targets once the words of one argument are looked up. */
  function LookedUp(r: Request, t: Targets, name: string, kind: ArgType, words: seq<string>): Targets
    requires !kind.variadic ==> |words| == 1
  {
    if !kind.nick && !kind.user then t
    else if kind.variadic then
      t.(varUsers := UsersOf(r, kind, words),
         varAccounts := if kind.user then AccountsOf(r, kind, words) else t.varAccounts)
    else
      t.(users := Noted(t.users, name, r.UserOf(kind, words[0])),
         accounts := Noted(t.accounts, name, r.AccountOf(kind, words[0])))
  }

  /** Looks the words of a nick or user argument up one by one, until one is not found. */
  method ParseUserArg(r: Request, before: Targets, name: string, kind: ArgType, words: seq<string>)
    returns (found: bool, t: Targets)
    requires (kind.nick || kind.user) && !(kind.nick && kind.user) && (!kind.variadic ==> |words| == 1)
    ensures found <==> forall w :: w in words ==> Finds(r, kind, w)
    ensures found ==> t == LookedUp(r, before, name, kind, words)
  {
    t := before;
    if kind.variadic {
      t := t.(varUsers := []);
      if kind.user {
        t := t.(varAccounts := []);
      }
    }
    for i := 0 to |words|
      invariant forall k :: 0 <= k < i ==> Finds(r, kind, words[k])
      invariant kind.variadic ==>
                  t == before.(varUsers := UsersOf(r, kind, words[..i]),
                               varAccounts := if kind.user then AccountsOf(r, kind, words[..i]) else before.varAccounts)
      invariant !kind.variadic ==> t == if i == 0 then before else LookedUp(r, before, name, kind, words)
    {
      if !Finds(r, kind, words[i]) {
        assert words[i] in words;
        return false, t;
      }
      t := AddData(r, t, name, kind, words[i]);
      assert words[..i + 1] == words[..i] + [words[i]];
    }
    assert words[..|words|] == words;
    return true, t;
  }

  /** One word's user and account: at its place for a variadic argument, else under the argument's name. */
  function AddData(r: Request, t: Targets, name: string, kind: ArgType, word: string): Targets {
    var user, account := r.UserOf(kind, word), r.AccountOf(kind, word);
    if kind.variadic then
      t.(varUsers := t.varUsers + [user],
         varAccounts := if kind.user then t.varAccounts + [account] else t.varAccounts)
    else
      t.(users := Noted(t.users, name, user), accounts := Noted(t.accounts, name, account))
  }

  /** The first `i` arguments are done: all bound, known and not variadic. */
  ghost predicate SoFar(r: Request, values: map<string, string>, i: nat) {
    && i <= r.Live()
    && (i < |r.args| ==> i < r.Live())
    && (i > 0 ==> r.ChannelRule())
    && (forall p :: 0 <= p < i ==> r.IsBound(p) && r.Known(p) && !r.args[p].kind.variadic)
    && BoundTo(r, values, i)
  }

  ghost predicate Succeeds(r: Request) {
    r.ChannelRule() && r.Fits() && r.AllKnown()
  }

  /** Why an error was raised. Left-over words are unexpected when no argument takes a word. */
  ghost predicate Explains(r: Request, e: BindError) {
    match e
    case StateDisabled => r.WantsChannel() && !r.state
    case NotChannel => r.WantsChannel() && r.state && !r.isChan && r.words != [] && !r.ChannelGiven()
    case NotEnough =>
      || (r.WantsChannel() && r.state && !r.isChan && r.words == [])
      || (r.ChannelRule() && exists p :: 0 <= p < r.Live() && Missing(r, p))
    case UnknownUser => r.ChannelRule() && !r.AllKnown()
    case TooMany => r.ChannelRule() && r.words != [] && TooLong(r) && NextWord(r, |r.args|) > 0
    case Unexpected => r.ChannelRule() && r.words != [] && TooLong(r) && NextWord(r, |r.args|) == 0
  }

  ghost predicate Missing(r: Request, p: nat) {
    p < |r.args| && r.args[p].kind.required && !r.IsImplicit(p) && r.WordOf(p) >= |r.words|
  }

  ghost predicate TooLong(r: Request) {
    |r.words| > r.WordOf(r.Live()) && forall p :: 0 <= p < r.Live() ==> !r.args[p].kind.variadic
  }

  /** No error exactly when the call succeeds, and then the bindings; otherwise a reason. */
  ghost predicate Answers(r: Request, error: Option<BindError>, values: map<string, string>, t: Targets) {
    match error
    case None =>
      && Succeeds(r)
      && BoundTo(r, values, |r.args|)
      && Targeted(r, t, |r.args|)
    case Some(e) => !Succeeds(r) && Explains(r, e)
  }

  /** One pass over the arguments with an index into the words. It succeeds exactly when the channel rule
      holds, the words fit the list and the named users are known; then every argument with words, and an
      implicit channel, is bound, and nothing else; and the channel, the users and the accounts are those
      found for their words. */
  method FilterArgs(r: Request) returns (error: Option<BindError>, values: map<string, string>, t: Targets)
    requires ShapedArgs(r.args)
    ensures Answers(r, error, values, t)
  {
    values, t := map[], NO_TARGETS;
    var i: nat, j: int := 0, 0;
    Nothing(r);
    while i < |r.args|
      invariant i <= |r.args| && SoFar(r, values, i) && j == NextWord(r, i) && 0 <= j <= |r.words|
      invariant Targeted(r, t, i)
    {
      var stop;
      error, stop, values, t, j := BindArg(r, values, t, i, j);
      if error != None || stop {
        return;
      }
      i := i + 1;
    }
    error := LeftOver(r, values, t, j);
  }

  /** Past the last argument, words that are left are an error. */
  method LeftOver(r: Request, values: map<string, string>, t: Targets, j: int)
    returns (error: Option<BindError>)
    requires ShapedArgs(r.args) && SoFar(r, values, |r.args|) && j == NextWord(r, |r.args|)
    requires Targeted(r, t, |r.args|)
    ensures Answers(r, error, values, t)
  {
    AllDone(r, values);
    if j < |r.words| {
      return Some(if j == 0 then Unexpected else TooMany);
    }
    return None;
  }

  /** The body of the loop: on to the next argument with the next word, unless this is the end. */
  method BindArg(r: Request, before: map<string, string>, was: Targets, i: nat, j: int)
    returns (error: Option<BindError>, stop: bool, values: map<string, string>, t: Targets, next: int)
    requires ShapedArgs(r.args) && i < |r.args| && SoFar(r, before, i) && j == NextWord(r, i) && 0 <= j <= |r.words|
    requires Targeted(r, was, i)
    ensures error.Some? || stop ==> Answers(r, error, values, t)
    ensures error == None && !stop ==>
              && SoFar(r, values, i + 1) && Targeted(r, t, i + 1)
              && next == NextWord(r, i + 1) && 0 <= next <= |r.words|
  {
    stop, next := false, j + 1;
    if r.args[i].kind.channel {
      var consumed;
      error, consumed, values, t := BindChannel(r, was);
      if !consumed {
        next := next - 1;
      }
    } else {
      error, stop, values, t := BindNext(r, before, was, i, j);
    }
  }

  function NextWord(r: Request, i: nat): int {
    if i == 0 then 0 else r.WordOf(i)
  }

  lemma Nothing(r: Request)
    ensures SoFar(r, map[], 0) && Targeted(r, NO_TARGETS, 0)
  {
    LiveFacts(r, 0);
  }

  method BindChannel(r: Request, was: Targets)
    returns (error: Option<BindError>, consumed: bool, values: map<string, string>, t: Targets)
    requires ShapedArgs(r.args) && r.WantsChannel() && Targeted(r, was, 0)
    ensures error.Some? ==> Explains(r, error.value) && !Succeeds(r)
    ensures error == None ==> consumed == r.ChannelGiven() && SoFar(r, values, 1) && Targeted(r, t, 1)
    ensures NextWord(r, 1) == (if r.ChannelGiven() then 1 else 0) && 0 <= NextWord(r, 1) <= |r.words|
  {
    consumed, values, t := false, map[], was;
    if !r.state {
      return Some(StateDisabled), consumed, values, t;
    }
    var value, room;
    error, consumed, value, room := ParseChanArg(r);
    if error == None {
      t := t.(channel := room);
      ChannelTargeted(r, was, room);
      JoinOne(value);
      assert value == r.Value(0);
      LiveFacts(r, 0);
      Bind(r, values, 0);
      values := map[r.args[0].name := value];
    }
  }

  /** Any other argument: it gets its word or words, or the words have run out. */
  method BindNext(r: Request, before: map<string, string>, was: Targets, i: nat, j: int)
    returns (error: Option<BindError>, stop: bool, values: map<string, string>, t: Targets)
    requires ShapedArgs(r.args) && i < |r.args| && SoFar(r, before, i) && !r.args[i].kind.channel
    requires j == NextWord(r, i) && 0 <= j <= |r.words| && Targeted(r, was, i)
    ensures error.Some? ==> Explains(r, error.value) && !Succeeds(r)
    ensures error == None && stop ==> Succeeds(r) && BoundTo(r, values, |r.args|) && Targeted(r, t, |r.args|)
    ensures error == None && !stop ==>
              SoFar(r, values, i + 1) && Targeted(r, t, i + 1) && j < |r.words| && NextWord(r, i + 1) == j + 1
  {
    var arg := r.args[i];
    values, t := before, was;
    NotImplicit(r, i, j);
    if j >= |r.words| {
      if arg.kind.required {
        MissingFails(r, i);
        return Some(NotEnough), true, values, t;
      }
      NothingMore(r, values, i);
      TargetsStay(r, t, i);
      return None, true, values, t;
    }
    error, stop, values, t := BindWords(r, before, was, i, j);
  }

  lemma MissingFails(r: Request, i: nat)
    requires i < r.Live() && Missing(r, i) && r.ChannelRule()
    ensures Explains(r, NotEnough) && !Succeeds(r)
  {
  }

  /** The argument's value, and its words. */
  method BindValue(r: Request, before: map<string, string>, i: nat, j: int)
    returns (values: map<string, string>, words: seq<string>)
    requires ShapedArgs(r.args) && i < |r.args| && BoundTo(r, before, i) && r.IsBound(i) && !r.IsImplicit(i)
    requires 0 <= j == r.WordOf(i) < |r.words|
    ensures BoundTo(r, values, i + 1) && words == r.Words(i)
  {
    var arg := r.args[i];
    words := if arg.kind.variadic then r.words[j..] else [r.words[j]];
    JoinOne(r.words[j]);
    values := before[arg.name := if arg.kind.variadic then Join(words, ' ') else r.words[j]];
    Bind(r, before, i);
  }

  /** An argument that has words: they are its value, and are looked up. */
  method BindWords(r: Request, before: map<string, string>, was: Targets, i: nat, j: int)
    returns (error: Option<BindError>, stop: bool, values: map<string, string>, t: Targets)
    requires ShapedArgs(r.args) && i < r.Live() && !r.args[i].kind.channel
    requires SoFar(r, before, i) && Targeted(r, was, i) && r.ChannelRule()
    requires 0 <= j == r.WordOf(i) < |r.words| && !r.IsImplicit(i)
    ensures error.Some? ==> Explains(r, error.value) && !Succeeds(r)
    ensures error == None && stop ==> Succeeds(r) && BoundTo(r, values, |r.args|) && Targeted(r, t, |r.args|)
    ensures error == None && !stop ==> SoFar(r, values, i + 1) && Targeted(r, t, i + 1)
  {
    var words, found;
    values, words := BindValue(r, before, i, j);
    found, t := LookUp(r, was, r.args[i], words);
    FoundIfKnown(r, i);
    if !found {
      return Some(UnknownUser), true, values, t;
    }
    stop := r.args[i].kind.variadic;
    WordsDone(r, before, was, values, i);
    return None, stop, values, t;
  }

  lemma FoundIfKnown(r: Request, i: nat)
    requires i < r.Live()
    ensures (forall w :: w in r.Words(i) ==> Finds(r, r.args[i].kind, w)) <==> r.Known(i)
    ensures !r.Known(i) ==> !r.AllKnown()
  {
  }

  lemma WordsDone(r: Request, before: map<string, string>, was: Targets, values: map<string, string>, i: nat)
    requires ShapedArgs(r.args) && i < r.Live() && !r.args[i].kind.channel
    requires SoFar(r, before, i) && Targeted(r, was, i) && r.ChannelRule()
    requires r.IsBound(i) && !r.IsImplicit(i) && r.Known(i) && BoundTo(r, values, i + 1)
    ensures var t := LookedUp(r, was, r.args[i].name, r.args[i].kind, r.Words(i));
            if r.args[i].kind.variadic then Succeeds(r) && BoundTo(r, values, |r.args|) && Targeted(r, t, |r.args|)
            else SoFar(r, values, i + 1) && Targeted(r, t, i + 1)
  {
    if r.args[i].kind.variadic {
      EndsHere(r, values, i);
      TailLookedUp(r, was, i);
    } else {
      SoFarNext(r, before, values, i);
      SingleLookedUp(r, was, i);
    }
  }

  method LookUp(r: Request, was: Targets, arg: Argument, words: seq<string>) returns (found: bool, t: Targets)
    requires !(arg.kind.nick && arg.kind.user) && (!arg.kind.variadic ==> |words| == 1)
    ensures found <==> forall w :: w in words ==> Finds(r, arg.kind, w)
    ensures found ==> t == LookedUp(r, was, arg.name, arg.kind, words)
  {
    found, t := true, was;
    if arg.kind.nick || arg.kind.user {
      found, t := ParseUserArg(r, was, arg.name, arg.kind, words);
    }
  }

  // ---- the targets ------------------------------------------------------------------------

  lemma ChannelTargeted(r: Request, was: Targets, room: Option<string>)
    requires ShapedArgs(r.args) && r.WantsChannel() && Targeted(r, was, 0) && room == r.Room(r.Value(0))
    ensures Targeted(r, was.(channel := room), 1)
  {
    LiveFacts(r, 0);
    MirrorsSkip(was.users, r.args, UserSlots(r), 0, 1);
    MirrorsSkip(was.accounts, r.args, AccountSlots(r), 0, 1);
  }

  /** Arguments without words leave the targets alone. */
  lemma TargetsStay(r: Request, t: Targets, i: nat)
    requires i < r.Live() && Targeted(r, t, i) && (i > 0 || !r.WantsChannel())
    requires forall p :: i <= p < |r.args| ==> !r.IsBound(p)
    ensures Targeted(r, t, |r.args|)
  {
    MirrorsSkip(t.users, r.args, UserSlots(r), i, |r.args|);
    MirrorsSkip(t.accounts, r.args, AccountSlots(r), i, |r.args|);
    assert !r.IsBound(r.Live() - 1);
  }

  lemma UsersNext(r: Request, users: map<string, string>, i: nat)
    requires ShapedArgs(r.args) && i < |r.args| && Mirrors(users, r.args, UserSlots(r), i) && r.IsSingle(i)
    ensures Mirrors(Noted(users, r.args[i].name, r.UserOf(r.args[i].kind, r.Words(i)[0])), r.args, UserSlots(r), i + 1)
  {
    NamesApart(r.args, i);
    MirrorsNext(users, r.args, UserSlots(r), i);
  }

  lemma AccountsNext(r: Request, accounts: map<string, string>, i: nat)
    requires ShapedArgs(r.args) && i < |r.args| && Mirrors(accounts, r.args, AccountSlots(r), i) && r.IsSingle(i)
    ensures var account := r.AccountOf(r.args[i].kind, r.Words(i)[0]);
            Mirrors(Noted(accounts, r.args[i].name, account), r.args, AccountSlots(r), i + 1)
  {
    NamesApart(r.args, i);
    MirrorsNext(accounts, r.args, AccountSlots(r), i);
  }

  lemma NoTailYet(r: Request, t: Targets, i: nat)
    requires i < r.Live() && !r.args[i].kind.variadic
    ensures TailTargeted(r, t, i) <==> TailTargeted(r, t, i + 1)
  {
    LiveNext(r, i);
  }

  /** One more argument with a single word. */
  lemma SingleLookedUp(r: Request, was: Targets, i: nat)
    requires ShapedArgs(r.args) && i < r.Live() && Targeted(r, was, i) && r.IsSingle(i)
    requires i > 0 || !r.WantsChannel()
    ensures Targeted(r, LookedUp(r, was, r.args[i].name, r.args[i].kind, r.Words(i)), i + 1)
  {
    UsersNext(r, was.users, i);
    AccountsNext(r, was.accounts, i);
    NoTailYet(r, was, i);
  }

  lemma NoSlots(r: Request, i: nat)
    requires r.Live() == i + 1 && r.args[i].kind.variadic
    ensures forall p :: i <= p < |r.args| ==> UserSlots(r)[p].None? && AccountSlots(r)[p].None?
  {
  }

  /** The variadic argument, which is the last one looked at. */
  lemma TailLookedUp(r: Request, was: Targets, i: nat)
    requires i < r.Live() && r.args[i].kind.variadic && Targeted(r, was, i)
    requires i > 0 || !r.WantsChannel()
    ensures Targeted(r, LookedUp(r, was, r.args[i].name, r.args[i].kind, r.Words(i)), |r.args|)
  {
    LiveNext(r, i);
    NoSlots(r, i);
    MirrorsSkip(was.users, r.args, UserSlots(r), i, |r.args|);
    MirrorsSkip(was.accounts, r.args, AccountSlots(r), i, |r.args|);
    TailNow(r, was, i);
  }

  lemma TailNow(r: Request, was: Targets, i: nat)
    requires r.Live() == i + 1 && r.args[i].kind.variadic && TailTargeted(r, was, i)
    ensures TailTargeted(r, LookedUp(r, was, r.args[i].name, r.args[i].kind, r.Words(i)), |r.args|)
  {
  }

  lemma NotImplicit(r: Request, i: nat, j: int)
    requires ShapedArgs(r.args) && i < |r.args| && !r.args[i].kind.channel && (i > 0 ==> r.ChannelRule())
    requires j == NextWord(r, i) && 0 <= j <= |r.words|
    ensures NextWord(r, i + 1) == j + 1
    ensures r.WordOf(i) == j && !r.IsImplicit(i) && r.ChannelRule()
    ensures r.Words(i) == if j >= |r.words| then [] else if r.args[i].kind.variadic then r.words[j..] else [r.words[j]]
  {
  }

  lemma SoFarNext(r: Request, before: map<string, string>, values: map<string, string>, i: nat)
    requires i < |r.args| && SoFar(r, before, i) && BoundTo(r, values, i + 1) && r.ChannelRule()
    requires r.IsBound(i) && r.Known(i) && !r.args[i].kind.variadic
    ensures SoFar(r, values, i + 1)
  {
    LiveNext(r, i);
  }

  /** Past the last argument, only left-over words can be wrong. */
  lemma AllDone(r: Request, values: map<string, string>)
    requires ShapedArgs(r.args) && SoFar(r, values, |r.args|)
    ensures r.AllKnown() && r.ChannelRule()
    ensures if |r.words| <= NextWord(r, |r.args|) then r.Fits() else r.words != [] && TooLong(r) && !r.Fits()
  {
    LiveFacts(r, 0);
    assert r.Live() == |r.args|;
  }

  lemma JoinOne(w: string)
    ensures Join([w], ' ') == w
  {
  }

  lemma NamesApart(args: seq<Argument>, i: nat)
    requires ShapedArgs(args) && i < |args|
    ensures forall p :: 0 <= p < i ==> args[p].name != args[i].name
  {
  }

  /** `BoundTo` with the values laid out beside the arguments. */
  ghost predicate Mirrors(values: map<string, string>, args: seq<Argument>, slots: seq<Option<string>>, n: nat)
    requires n <= |args| == |slots|
  {
    && (forall p :: 0 <= p < n && slots[p].Some? ==> args[p].name in values && values[args[p].name] == slots[p].value)
    && (forall name :: name in values ==> exists p :: 0 <= p < n && slots[p].Some? && args[p].name == name)
  }

  function Slots(r: Request): (slots: seq<Option<string>>)
    ensures |slots| == |r.args|
  {
    seq(|r.args|, p requires 0 <= p < |r.args| => if r.IsBound(p) then Some(r.Value(p)) else None)
  }

  lemma BoundAlike(r: Request, values: map<string, string>, n: nat)
    requires n <= |r.args|
    ensures BoundTo(r, values, n) <==> Mirrors(values, r.args, Slots(r), n)
  {
    var slots := Slots(r);
    assert forall p :: 0 <= p < n ==> slots[p] == if r.IsBound(p) then Some(r.Value(p)) else None;
  }

  lemma MirrorsNext(values: map<string, string>, args: seq<Argument>, slots: seq<Option<string>>, i: nat)
    requires i < |args| == |slots| && Mirrors(values, args, slots, i)
    requires forall p :: 0 <= p < i ==> args[p].name != args[i].name
    ensures Mirrors(Noted(values, args[i].name, slots[i]), args, slots, i + 1)
  {
    var more := Noted(values, args[i].name, slots[i]);
    forall name | name in more ensures exists p :: 0 <= p < i + 1 && slots[p].Some? && args[p].name == name {
      if slots[i].Some? && name == args[i].name {
        assert slots[i].Some?;
      } else {
        var p :| 0 <= p < i && slots[p].Some? && args[p].name == name;
        assert p < i + 1;
      }
    }
  }

  lemma MirrorsSkip(values: map<string, string>, args: seq<Argument>, slots: seq<Option<string>>, i: nat, n: nat)
    requires i <= n <= |args| == |slots| && Mirrors(values, args, slots, i)
    requires forall p :: i <= p < n ==> slots[p].None?
    ensures Mirrors(values, args, slots, n)
  {
    forall name | name in values ensures exists p :: 0 <= p < n && slots[p].Some? && args[p].name == name {
      var p :| 0 <= p < i && slots[p].Some? && args[p].name == name;
      assert p < n;
    }
  }

  /** Binding one more argument; the names differ. */
  lemma BindNew(r: Request, values: map<string, string>, i: nat)
    requires i < |r.args| && BoundTo(r, values, i) && r.IsBound(i)
    requires forall p :: 0 <= p < i ==> r.args[p].name != r.args[i].name
    ensures BoundTo(r, values[r.args[i].name := r.Value(i)], i + 1)
  {
    BoundAlike(r, values, i);
    MirrorsNext(values, r.args, Slots(r), i);
    BoundAlike(r, values[r.args[i].name := r.Value(i)], i + 1);
  }

  lemma Bind(r: Request, values: map<string, string>, i: nat)
    requires ShapedArgs(r.args) && i < |r.args| && BoundTo(r, values, i) && r.IsBound(i)
    ensures BoundTo(r, values[r.args[i].name := r.Value(i)], i + 1)
  {
    NamesApart(r.args, i);
    BindNew(r, values, i);
  }

  /** When no later argument is bound, what is bound so far is everything. */
  lemma BoundFurther(r: Request, values: map<string, string>, i: nat)
    requires i <= |r.args| && BoundTo(r, values, i) && forall p :: i <= p < |r.args| ==> !r.IsBound(p)
    ensures BoundTo(r, values, |r.args|)
  {
    forall name | name in values
      ensures exists p :: 0 <= p < |r.args| && r.IsBound(p) && r.args[p].name == name
    {
      var p :| 0 <= p < i && r.IsBound(p) && r.args[p].name == name;
      assert p < |r.args|;
    }
  }

  /** Out of words at an optional or variadic argument: nothing further is required. */
  lemma NoMoreRequired(r: Request, i: nat)
    requires ShapedArgs(r.args) && i < r.Live() && !r.args[i].kind.required
    ensures forall p :: i <= p < r.Live() ==> !r.args[p].kind.required
  {
    LiveNext(r, i);
  }

  lemma NoMoreWords(r: Request, i: nat)
    requires i <= |r.args| && r.WordOf(i) == |r.words| && !r.IsImplicit(i)
    ensures forall p :: i <= p < |r.args| ==> r.WordOf(p) >= |r.words| && !r.IsImplicit(p)
    ensures i <= r.Live() ==> |r.words| <= r.WordOf(r.Live())
  {
  }

  /** Out of words at an optional or variadic argument: nothing further is bound. */
  lemma NothingMore(r: Request, values: map<string, string>, i: nat)
    requires ShapedArgs(r.args) && i < r.Live() && BoundTo(r, values, i) && !r.args[i].kind.required
    requires r.WordOf(i) == |r.words| && !r.IsImplicit(i)
    requires forall p :: 0 <= p < i ==> r.IsBound(p) && r.Known(p)
    ensures r.Fits() && r.AllKnown() && BoundTo(r, values, |r.args|)
  {
    NoMoreRequired(r, i);
    NoMoreWords(r, i);
    OutOfWords(r, i);
    BoundFurther(r, values, i);
  }

  lemma OutOfWords(r: Request, i: nat)
    requires i <= r.Live()
    requires forall p :: i <= p < |r.args| ==> r.WordOf(p) >= |r.words| && !r.IsImplicit(p)
    requires forall p :: i <= p < r.Live() ==> !r.args[p].kind.required
    requires forall p :: 0 <= p < i ==> r.IsBound(p) && r.Known(p)
    ensures forall p :: i <= p < |r.args| ==> !r.IsBound(p)
    ensures forall p :: 0 <= p < r.Live() && r.args[p].kind.required && !r.IsImplicit(p) ==> r.WordOf(p) < |r.words|
    ensures r.AllKnown()
  {
    forall p | i <= p < r.Live() ensures r.Known(p) {
      assert r.Words(p) == [];
    }
    forall p | 0 <= p < i ensures r.IsImplicit(p) || r.WordOf(p) < |r.words| {
      assert r.IsBound(p);
    }
  }

  lemma EndsHere(r: Request, values: map<string, string>, i: nat)
    requires i < r.Live() && r.args[i].kind.variadic && BoundTo(r, values, i + 1)
    requires forall p :: 0 <= p < i + 1 ==> r.IsBound(p) && r.Known(p)
    ensures r.Fits() && r.AllKnown() && BoundTo(r, values, |r.args|)
  {
    LiveNext(r, i);
    AllServed(r, i);
    BoundToEnd(r, values, i);
  }

  lemma BoundToEnd(r: Request, values: map<string, string>, i: nat)
    requires r.Live() == i + 1 && BoundTo(r, values, i + 1)
    ensures BoundTo(r, values, |r.args|)
  {
    BoundFurther(r, values, i + 1);
  }

  lemma AllServed(r: Request, i: nat)
    requires r.Live() == i + 1 && r.args[i].kind.variadic
    requires forall p :: 0 <= p < i + 1 ==> r.IsBound(p) && r.Known(p)
    ensures r.Fits() && r.AllKnown()
  {
    forall p | 0 <= p < r.Live() ensures (r.IsImplicit(p) || r.WordOf(p) < |r.words|) && r.Known(p) {
      assert r.IsBound(p);
    }
    assert 0 <= i < r.Live() && r.args[i].kind.variadic;
  }

  // ---- every word once, in order ----------------------------------------------------------

  function BoundWords(r: Request, n: nat): seq<string>
    requires n <= |r.args|
  {
    if n == 0 then [] else BoundWords(r, n - 1) + r.Words(n - 1)
  }

  /** How many words the first `n` arguments take, none of them variadic. */
  function Taken(r: Request, n: nat): (k: nat)
    ensures k <= |r.words|
  {
    var k := if n == 0 then 0 else r.WordOf(n);
    if k < |r.words| then k else |r.words|
  }

  lemma TakenNext(r: Request, p: nat)
    requires p < |r.args| && !r.args[p].kind.variadic
    ensures r.words[..Taken(r, p)] + r.Words(p) == r.words[..Taken(r, p + 1)]
  {
    var k := r.WordOf(p);
    if 0 <= k < |r.words| {
      assert r.words[..k + 1] == r.words[..k] + [r.words[k]];
    }
  }

  lemma {:induction false} BoundPrefix(r: Request, n: nat)
    requires n <= |r.args| && forall p :: 0 <= p < n ==> !r.args[p].kind.variadic
    ensures BoundWords(r, n) == r.words[..Taken(r, n)]
  {
    if n > 0 {
      BoundPrefix(r, n - 1);
      TakenNext(r, n - 1);
    }
  }

  lemma NoneLeftOver(r: Request)
    requires ShapedArgs(r.args) && r.Fits() && !(r.Live() > 0 && r.args[r.Live() - 1].kind.variadic)
    ensures |r.words| <= if r.Live() == 0 then 0 else r.WordOf(r.Live())
    ensures forall p :: 0 <= p < r.Live() ==> !r.args[p].kind.variadic
  {
    LiveFacts(r, 0);
  }

  /** On success the words of the message are bound each exactly once, in order. */
  lemma WordsBoundOnce(r: Request)
    requires ShapedArgs(r.args) && r.Fits()
    ensures BoundWords(r, r.Live()) == r.words
  {
    var n := r.Live();
    if n > 0 && r.args[n - 1].kind.variadic {
      LiveFacts(r, 0);
      BoundPrefix(r, n - 1);
      assert !r.args[n - 1].kind.channel;
      TailTaken(r, n - 1);
    } else {
      NoneLeftOver(r);
      BoundPrefix(r, n);
      assert r.words[..|r.words|] == r.words;
    }
  }

  lemma TailTaken(r: Request, p: nat)
    requires p < |r.args| && r.args[p].kind.variadic && !r.IsImplicit(p)
    ensures r.words[..Taken(r, p)] + r.Words(p) == r.words
  {
    var k := r.WordOf(p);
    if k < |r.words| {
      assert r.words == r.words[..k] + r.words[k..];
    } else {
      assert r.words[..|r.words|] == r.words;
    }
  }

  // ---- the arity in numbers ---------------------------------------------------------------

  /** Required arguments among the first `n`, the channel argument left out. */
  function Needed(args: seq<Argument>, n: nat): nat
    requires n <= |args|
  {
    if n == 0 then 0
    else Needed(args, n - 1) + if args[n - 1].kind.required && !args[n - 1].kind.channel then 1 else 0
  }

  lemma {:induction false} NeededFirst(r: Request, n: nat)
    requires ShapedArgs(r.args) && n <= r.Live() && forall p :: 0 <= p < n ==> !r.args[p].kind.variadic
    ensures var chan := if r.WantsChannel() then 1 else 0;
            && Needed(r.args, n) <= n
            && (forall p :: chan <= p < n ==> (r.args[p].kind.required <==> p < chan + Needed(r.args, n)))
            && (n >= 1 ==> chan + Needed(r.args, n) <= n)
  {
    if n > 0 {
      NeededFirst(r, n - 1);
    }
  }

  /** The words fit exactly when there are at least as many as needed and, without a variadic argument,
      at most as many as there are arguments to take one. */
  lemma FitsInNumbers(r: Request)
    requires ShapedArgs(r.args)
    ensures var chan, given := if r.WantsChannel() then 1 else 0, if r.ChannelGiven() then 1 else 0;
            var variadic := r.Live() > 0 && r.args[r.Live() - 1].kind.variadic;
            r.Fits() <==> given + Needed(r.args, r.Live()) <= |r.words| &&
                          (variadic || |r.words| <= given + r.Live() - chan)
  {
    LiveFacts(r, 0);
    RequiredServed(r);
    assert r.Live() == 0 ==> r.args == [];
  }

  /** The index of the word for an argument after the channel argument. */
  lemma WordIndices(r: Request)
    ensures forall p :: (if r.WantsChannel() then 1 else 0) <= p < |r.args| ==>
              && !r.IsImplicit(p)
              && r.WordOf(p) == p - (if r.WantsChannel() then 1 else 0) + if r.ChannelGiven() then 1 else 0
  {
  }

  lemma VariadicNotNeeded(args: seq<Argument>, n: nat)
    requires ShapedArgs(args) && 0 < n <= |args| && args[n - 1].kind.variadic
    ensures Needed(args, n) == Needed(args, n - 1)
  {
  }

  lemma RequiredServed(r: Request)
    requires ShapedArgs(r.args)
    ensures (forall p :: 0 <= p < r.Live() && r.args[p].kind.required && !r.IsImplicit(p) ==> r.WordOf(p) < |r.words|) <==>
            (if r.ChannelGiven() then 1 else 0) + Needed(r.args, r.Live()) <= |r.words|
  {
    var n := r.Live();
    LiveFacts(r, 0);
    var m := if n > 0 && r.args[n - 1].kind.variadic then n - 1 else n;
    NeededFirst(r, m);
    if m < n {
      VariadicNotNeeded(r.args, n);
    }
    var chan := if r.WantsChannel() then 1 else 0;
    var needed := Needed(r.args, m);
    WordIndices(r);
    if needed > 0 {
      assert r.args[chan + needed - 1].kind.required;
    }
  }
}
