/** Command arguments: the declared list, and binding the words of a message to it. */
module CommandArgs {
  import opened Seqs
  import opened Text

  /** The flags of an argument: its shape, and whether it names a nick or a user. */
  datatype ArgType = ArgType(required: bool, optional: bool, variadic: bool, channel: bool, nick: bool, user: bool)

  datatype Argument = Argument(original: string, name: string, kind: ArgType)

  datatype ArgError = BadForm | DuplicateName | DuplicateChannel | ChannelNotFirst
                    | OptionalAfterVariadic | DuplicateVariadic | RequiredAfterOptional

  // ---- the form of one argument ------------------------------------------------------------

  predicate IsAlnum(c: char) {
    'a' <= c <= 'z' || '0' <= c <= '9'
  }

  predicate AllAlnum(s: string) {
    s != "" && forall c :: c in s ==> IsAlnum(c)
  }

  function Unflagged(s: string): string {
    if s != "" && (s[0] == '~' || s[0] == '*') then s[1..] else s
  }

  /** `#name`, `[name]`, `name` or `name...`, the last three with an optional `~` or `*`. */
  predicate ArgForm(s: string) {
    || (|s| >= 3 && s[0] == '[' && s[|s| - 1] == ']' && AllAlnum(Unflagged(s[1..|s| - 1])))
    || (|s| >= 4 && s[|s| - 3..] == "..." && AllAlnum(Unflagged(s[..|s| - 3])))
    || AllAlnum(Unflagged(s))
    || (s != "" && s[0] == '#' && AllAlnum(s[1..]))
  }

  predicate Stripped(c: char) {
    c in "#~*[]."
  }

  function TrimLeftSet(s: string): string {
    if s != "" && Stripped(s[0]) then TrimLeftSet(s[1..]) else s
  }

  function TrimRightSet(s: string): string {
    if s != "" && Stripped(s[|s| - 1]) then TrimRightSet(s[..|s| - 1]) else s
  }

  function NameOf(arg: string): string {
    TrimRightSet(TrimLeftSet(arg))
  }

  /** What the first and last characters say. */
  function TypeOf(arg: string): ArgType
    requires ArgForm(arg)
  {
    var modifier := if arg[0] == '[' && |arg| > 1 then arg[1] else arg[0];
    var last := arg[|arg| - 1];
    ArgType(last != ']' && last != '.', last == ']', last == '.', modifier == '#', modifier == '~', modifier == '*')
  }

  function Declared(arg: string): Argument
    requires ArgForm(ToLower(arg))
  {
    Argument(ToLower(arg), NameOf(arg), TypeOf(ToLower(arg)))
  }

  /** Required, optional or variadic, and only one of these. */
  predicate HasOneShape(t: ArgType) {
    && (t.required || t.optional || t.variadic)
    && !(t.required && t.optional) && !(t.required && t.variadic) && !(t.optional && t.variadic)
  }

  lemma OneShape(arg: string)
    requires ArgForm(arg)
    ensures var t := TypeOf(arg);
            && HasOneShape(t)
            && (t.channel ==> t.required && !t.nick && !t.user)
  {
    if TypeOf(arg).channel {
      HashForm(arg);
      assert arg[|arg| - 1] == arg[1..][|arg| - 2] && arg[1..][|arg| - 2] in arg[1..];
    }
  }

  /** Only the first of the four forms holds a `#` where the modifier stands. */
  lemma HashForm(arg: string)
    requires ArgForm(arg) && (arg[0] == '#' || (arg[0] == '[' && |arg| > 1 && arg[1] == '#'))
    ensures arg[0] == '#' && AllAlnum(arg[1..])
  {
    BadHead(arg);
    if |arg| >= 4 {
      BadHead(arg[..|arg| - 3]);
    }
    if |arg| >= 3 {
      BadHead(arg[1..|arg| - 1]);
    }
  }

  lemma BadHead(s: string)
    requires s != ""
    ensures !IsAlnum(s[0]) && s[0] != '~' && s[0] != '*' ==> !AllAlnum(Unflagged(s))
  {
    assert s[0] in s;
  }

  /** A flagged name holds its flag in front and no other sign. */
  lemma FlagInFront(u: string)
    requires AllAlnum(Unflagged(u))
    ensures u != "" && ('~' in u <==> u[0] == '~') && ('*' in u <==> u[0] == '*')
    ensures '#' !in u && '[' !in u && ']' !in u && '.' !in u
  {
    assert u == (if u[0] == '~' || u[0] == '*' then [u[0]] else []) + Unflagged(u);
    assert Unflagged(u)[0] in Unflagged(u);
  }

  /** What the signs in an argument say: `~` a nick, `*` a user, `#` a channel, brackets an optional
      argument, dots a variadic one. */
  ghost predicate SignsTell(arg: string, t: ArgType) {
    && (t.nick <==> '~' in arg) && (t.user <==> '*' in arg) && (t.channel <==> '#' in arg)
    && (t.optional <==> ']' in arg) && (t.variadic <==> '.' in arg)
    && (t.required <==> ']' !in arg && '.' !in arg)
  }

  lemma BracketSigns(u: string)
    requires AllAlnum(Unflagged(u)) && ArgForm(['['] + u + [']'])
    ensures SignsTell(['['] + u + [']'], TypeOf(['['] + u + [']']))
  {
    FlagInFront(u);
    var arg := ['['] + u + [']'];
    assert arg[1] == u[0] && arg[|arg| - 1] == ']';
    assert forall c :: c in arg <==> c == '[' || c in u || c == ']';
  }

  lemma DotSigns(u: string)
    requires AllAlnum(Unflagged(u)) && ArgForm(u + "...")
    ensures SignsTell(u + "...", TypeOf(u + "..."))
  {
    FlagInFront(u);
    var arg := u + "...";
    assert arg[0] == u[0] && arg[|arg| - 1] == '.';
    assert forall c :: c in arg <==> c in u || c == '.';
  }

  lemma PlainSigns(u: string)
    requires AllAlnum(Unflagged(u)) && ArgForm(u)
    ensures SignsTell(u, TypeOf(u))
  {
    FlagInFront(u);
    assert u[|u| - 1] in u;
  }

  lemma HashSigns(n: string)
    requires AllAlnum(n) && ArgForm(['#'] + n)
    ensures SignsTell(['#'] + n, TypeOf(['#'] + n))
  {
    var arg := ['#'] + n;
    assert arg[|arg| - 1] == n[|n| - 1] && n[|n| - 1] in n;
    assert forall c :: c in arg <==> c == '#' || c in n;
  }

  /** The four forms, as texts put together. */
  ghost predicate HasParts(arg: string, u: string) {
    || (AllAlnum(Unflagged(u)) && (arg == ['['] + u + [']'] || arg == u + "..." || arg == u))
    || (AllAlnum(u) && arg == ['#'] + u)
  }

  lemma BracketParts(arg: string)
    requires |arg| >= 3 && arg[0] == '[' && arg[|arg| - 1] == ']'
    ensures arg == ['['] + arg[1..|arg| - 1] + [']']
  {
  }

  lemma DotParts(arg: string)
    requires |arg| >= 3 && arg[|arg| - 3..] == "..."
    ensures arg == arg[..|arg| - 3] + "..."
  {
  }

  lemma FormParts(arg: string)
    requires ArgForm(arg)
    ensures exists u :: HasParts(arg, u)
  {
    if |arg| >= 3 && arg[0] == '[' && arg[|arg| - 1] == ']' && AllAlnum(Unflagged(arg[1..|arg| - 1])) {
      BracketParts(arg);
      assert HasParts(arg, arg[1..|arg| - 1]);
    } else if |arg| >= 4 && arg[|arg| - 3..] == "..." && AllAlnum(Unflagged(arg[..|arg| - 3])) {
      DotParts(arg);
      assert HasParts(arg, arg[..|arg| - 3]);
    } else if AllAlnum(Unflagged(arg)) {
      assert HasParts(arg, arg);
    } else {
      assert arg == ['#'] + arg[1..];
      assert HasParts(arg, arg[1..]);
    }
  }

  lemma SignsExactly(arg: string)
    requires ArgForm(arg)
    ensures SignsTell(arg, TypeOf(arg))
  {
    FormParts(arg);
    var u :| HasParts(arg, u);
    if arg == ['#'] + u && AllAlnum(u) {
      HashSigns(u);
    } else if arg == ['['] + u + [']'] {
      BracketSigns(u);
    } else if arg == u + "..." {
      DotSigns(u);
    } else {
      PlainSigns(u);
    }
  }

  lemma {:induction false} TrimsLeft(pre: string, s: string)
    requires (forall c :: c in pre ==> Stripped(c)) && (s != "" ==> !Stripped(s[0]))
    ensures TrimLeftSet(pre + s) == s
  {
    if pre == "" {
      assert pre + s == s;
    } else {
      assert (pre + s)[1..] == pre[1..] + s;
      TrimsLeft(pre[1..], s);
    }
  }

  lemma {:induction false} TrimsRight(s: string, post: string)
    requires (forall c :: c in post ==> Stripped(c)) && (s != "" ==> !Stripped(s[|s| - 1]))
    ensures TrimRightSet(s + post) == s
  {
    if post == "" {
      assert s + post == s;
    } else {
      assert (s + post)[..|s + post| - 1] == s + post[..|post| - 1];
      TrimsRight(s, post[..|post| - 1]);
    }
  }

  /** The name of an argument is what stands between the signs. */
  lemma NameExactly(pre: string, name: string, post: string)
    requires name != "" && !Stripped(name[0]) && !Stripped(name[|name| - 1])
    requires (forall c :: c in pre ==> Stripped(c)) && (forall c :: c in post ==> Stripped(c))
    ensures NameOf(pre + name + post) == name
  {
    Associate(pre, name, post);
    assert (name + post)[0] == name[0];
    TrimsLeft(pre, name + post);
    TrimsRight(name, post);
  }

  // ---- the declared list ------------------------------------------------------------------

  predicate HasChannel(args: seq<Argument>) {
    exists a :: a in args && a.kind.channel
  }

  predicate HasRequired(args: seq<Argument>) {
    exists a :: a in args && a.kind.required
  }

  predicate HasOptional(args: seq<Argument>) {
    exists a :: a in args && a.kind.optional
  }

  predicate HasVariadic(args: seq<Argument>) {
    exists a :: a in args && a.kind.variadic
  }

  /** The error an argument raises after the ones already taken. */
  function Clash(taken: seq<Argument>, a: Argument): Option<ArgError> {
    if exists b :: b in taken && b.name == a.name then Some(DuplicateName)
    else if a.kind.channel && HasChannel(taken) then Some(DuplicateChannel)
    else if a.kind.channel && taken != [] then Some(ChannelNotFirst)
    else if a.kind.optional && HasVariadic(taken) then Some(OptionalAfterVariadic)
    else if a.kind.variadic && HasVariadic(taken) then Some(DuplicateVariadic)
    else if a.kind.required && HasOptional(taken) then Some(RequiredAfterOptional)
    else None
  }

  function NextError(taken: seq<Argument>, arg: string): Option<ArgError> {
    if !ArgForm(ToLower(arg)) then Some(BadForm) else Clash(taken, Declared(arg))
  }

  datatype Outcome = Accepted(args: seq<Argument>) | Rejected(error: ArgError)

  function Outcomes(args: seq<string>): Outcome {
    if args == [] then Accepted([])
    else
      match Outcomes(args[..|args| - 1])
      case Rejected(e) => Rejected(e)
      case Accepted(taken) =>
        var last := args[|args| - 1];
        var e := NextError(taken, last);
        if e.Some? then Rejected(e.value) else Accepted(taken + [Declared(last)])
  }

  /** What the documentation asks for, but for one thing: a required argument may follow a variadic one
      if there is no optional one. */
  ghost predicate WellDeclared(args: seq<Argument>) {
    && (forall i, j :: 0 <= i < j < |args| ==> args[i].name != args[j].name)
    && (forall i :: 0 < i < |args| ==> !args[i].kind.channel)
    && (forall i, j :: 0 <= i < j < |args| && args[i].kind.optional ==> !args[j].kind.required)
    && (forall i, j :: 0 <= i < j < |args| && args[i].kind.variadic ==> args[j].kind.required)
  }

  ghost predicate AreDeclared(args: seq<string>, taken: seq<Argument>) {
    |taken| == |args| && forall i :: 0 <= i < |args| ==> ArgForm(ToLower(args[i])) && taken[i] == Declared(args[i])
  }

  /** A list is accepted exactly when every argument has a form and the list is well declared. */
  lemma {:induction false} AcceptedExactly(args: seq<string>)
    ensures match Outcomes(args)
            case Accepted(taken) => AreDeclared(args, taken) && WellDeclared(taken)
            case Rejected(_) => forall taken :: AreDeclared(args, taken) ==> !WellDeclared(taken)
  {
    if args != [] {
      var init, last := args[..|args| - 1], args[|args| - 1];
      AcceptedExactly(init);
      match Outcomes(init)
      case Accepted(taken) =>
        if ArgForm(ToLower(last)) {
          ExtendDeclared(taken, last);
          OnlyDeclared(args, taken);
        }
      case Rejected(_) =>
        forall all | AreDeclared(args, all) ensures !WellDeclared(all) {
          FrontDeclared(args, all);
        }
    }
  }

  lemma FrontDeclared(args: seq<string>, all: seq<Argument>)
    requires args != [] && AreDeclared(args, all)
    ensures AreDeclared(args[..|args| - 1], all[..|all| - 1])
    ensures WellDeclared(all) ==> WellDeclared(all[..|all| - 1])
  {
  }

  lemma OnlyDeclared(args: seq<string>, taken: seq<Argument>)
    requires args != [] && AreDeclared(args[..|args| - 1], taken) && ArgForm(ToLower(args[|args| - 1]))
    ensures var all := taken + [Declared(args[|args| - 1])];
            AreDeclared(args, all) && forall other :: AreDeclared(args, other) ==> other == all
  {
    var init, all := args[..|args| - 1], taken + [Declared(args[|args| - 1])];
    forall i | 0 <= i < |args| ensures ArgForm(ToLower(args[i])) && all[i] == Declared(args[i]) {
      if i < |init| {
        assert init[i] == args[i] && all[i] == taken[i];
      }
    }
  }

  /** What one taken argument asks of the next. */
  predicate Allows(b: Argument, a: Argument) {
    b.name != a.name && (b.kind.variadic ==> a.kind.required) && (b.kind.optional ==> !a.kind.required)
  }

  ghost predicate AllAllow(taken: seq<Argument>, a: Argument) {
    (taken != [] ==> !a.kind.channel) && forall b :: b in taken ==> Allows(b, a)
  }

  lemma AppendDeclared(taken: seq<Argument>, a: Argument)
    requires WellDeclared(taken)
    ensures WellDeclared(taken + [a]) <==> AllAllow(taken, a)
  {
    var all := taken + [a];
    assert all[|taken|] == a;
    assert forall i :: 0 <= i < |taken| ==> all[i] == taken[i] && taken[i] in taken;
    if WellDeclared(all) {
      forall b | b in taken ensures Allows(b, a) {
        var i :| 0 <= i < |taken| && taken[i] == b;
        assert all[i] == b;
      }
    }
  }

  lemma ClashExactly(taken: seq<Argument>, a: Argument)
    requires HasOneShape(a.kind)
    ensures Clash(taken, a) == None <==> AllAllow(taken, a)
  {
    if Clash(taken, a) != None {
      if HasVariadic(taken) {
        var b :| b in taken && b.kind.variadic;
        assert Allows(b, a) ==> a.kind.required;
      }
      if HasOptional(taken) {
        var b :| b in taken && b.kind.optional;
        assert Allows(b, a) ==> !a.kind.required;
      }
    }
  }

  lemma ExtendDeclared(taken: seq<Argument>, arg: string)
    requires ArgForm(ToLower(arg)) && WellDeclared(taken)
    ensures NextError(taken, arg) == None <==> WellDeclared(taken + [Declared(arg)])
  {
    OneShape(ToLower(arg));
    AppendDeclared(taken, Declared(arg));
    ClashExactly(taken, Declared(arg));
  }

  /** Why an argument is refused after those taken, in the order the checks come. */
  ghost predicate Refuses(taken: seq<Argument>, arg: string, e: ArgError) {
    var a := ToLower(arg);
    if !ArgForm(a) then e == BadForm
    else if exists b :: b in taken && b.name == NameOf(arg) then e == DuplicateName
    else if '#' in a && HasChannel(taken) then e == DuplicateChannel
    else if '#' in a && taken != [] then e == ChannelNotFirst
    else if ']' in a then e == OptionalAfterVariadic && HasVariadic(taken)
    else if '.' in a then e == DuplicateVariadic && HasVariadic(taken)
    else e == RequiredAfterOptional && HasOptional(taken)
  }

  lemma ErrorRefuses(taken: seq<Argument>, arg: string)
    ensures NextError(taken, arg).Some? ==> Refuses(taken, arg, NextError(taken, arg).value)
  {
    if ArgForm(ToLower(arg)) {
      SignsExactly(ToLower(arg));
    }
  }

  /** A refused list is refused for its first argument that does not go with those before it. */
  lemma {:induction false} RejectedExactly(args: seq<string>)
    ensures Outcomes(args).Rejected? ==>
              exists i :: 0 <= i < |args| && Outcomes(args[..i]).Accepted? &&
                          Refuses(Outcomes(args[..i]).args, args[i], Outcomes(args).error)
  {
    if args != [] {
      var init, last := args[..|args| - 1], args[|args| - 1];
      RejectedExactly(init);
      if Outcomes(init).Rejected? {
        var i :| 0 <= i < |init| && Outcomes(init[..i]).Accepted? &&
                 Refuses(Outcomes(init[..i]).args, init[i], Outcomes(init).error);
        assert init[..i] == args[..i] && init[i] == args[i];
      } else {
        ErrorRefuses(Outcomes(init).args, last);
      }
    }
  }

  /** The documentation wants a variadic argument at the end. An accepted list meets that exactly when
      no required argument follows a variadic one; the next lemma has a list where one does. */
  ghost predicate VariadicLast(args: seq<Argument>) {
    forall i :: 0 <= i < |args| - 1 ==> !args[i].kind.variadic
  }

  lemma VariadicLastExactly(args: seq<string>)
    requires Outcomes(args).Accepted?
    ensures var taken := Outcomes(args).args;
            VariadicLast(taken) <==>
            !exists i, j :: 0 <= i < j < |taken| && taken[i].kind.variadic && taken[j].kind.required
  {
    AcceptedExactly(args);
    var taken := Outcomes(args).args;
    if !VariadicLast(taken) {
      var i :| 0 <= i < |taken| - 1 && taken[i].kind.variadic;
      assert taken[i + 1].kind.required;
    }
  }

  /** `name...` followed by another plain name is accepted. */
  lemma RequiredAfterVariadic(v: string, r: string)
    requires AllAlnum(v) && AllAlnum(r) && v != r
    ensures var o := Outcomes([v + "...", r]);
            o.Accepted? && |o.args| == 2 && o.args[0].kind.variadic && o.args[1].kind.required
  {
    PlainLower(r);
    VariadicForm(v);
    NameOfPlain(r);
    NameOfVariadic(v);
    PlainRequired(r);
    OneShape(r);
    TwoOutcomes(v + "...", r);
  }

  lemma OneOutcome(a: string)
    requires ArgForm(ToLower(a))
    ensures Outcomes([a]) == Accepted([Declared(a)])
  {
    assert [a][..0] == [];
    assert [] + [Declared(a)] == [Declared(a)];
  }

  lemma TwoOutcomes(a: string, b: string)
    requires ArgForm(ToLower(a)) && ArgForm(ToLower(b)) && HasOneShape(TypeOf(ToLower(b))) && Allows(Declared(a), Declared(b))
    requires !TypeOf(ToLower(b)).channel
    ensures Outcomes([a, b]) == Accepted([Declared(a), Declared(b)])
  {
    assert [a, b][..1] == [a];
    OneOutcome(a);
    ClashExactly([Declared(a)], Declared(b));
    assert [Declared(a)] + [Declared(b)] == [Declared(a), Declared(b)];
  }

  lemma PlainRequired(r: string)
    requires AllAlnum(r) && ArgForm(r)
    ensures TypeOf(r).required && !TypeOf(r).channel
  {
    assert r[|r| - 1] in r && r[0] in r;
  }

  lemma PlainLower(s: string)
    requires AllAlnum(s)
    ensures ToLower(s) == s && ArgForm(s)
  {
    forall i | 0 <= i < |s| ensures LowerChar(s[i]) == s[i] {
      assert s[i] in s;
    }
    assert ToLower(s) == s;
    assert s[0] in s && Unflagged(s) == s;
  }

  lemma VariadicForm(v: string)
    requires AllAlnum(v)
    ensures var s := v + "..."; ToLower(s) == s && ArgForm(s) && TypeOf(s).variadic && !TypeOf(s).channel
  {
    var s := v + "...";
    forall i | 0 <= i < |s| ensures LowerChar(s[i]) == s[i] {
      assert i < |v| ==> s[i] == v[i] && v[i] in v;
    }
    assert ToLower(s) == s;
    assert s[..|s| - 3] == v && s[|s| - 3..] == "...";
    assert v[0] in v && s[0] == v[0] && Unflagged(v) == v;
  }

  lemma {:induction false} NameOfPlain(s: string)
    requires AllAlnum(s)
    ensures NameOf(s) == s
  {
    assert s[0] in s && s[|s| - 1] in s;
  }

  lemma NameOfVariadic(v: string)
    requires AllAlnum(v)
    ensures NameOf(v + "...") == v
  {
    var s := v + "...";
    assert v[0] in v && v[|v| - 1] in v && s[0] == v[0];
    assert s[..|s| - 1] == v + ".." && (v + "..")[..|v| + 1] == v + "." && (v + ".")[..|v|] == v;
    assert TrimRightSet(v) == v;
    assert TrimRightSet(v + ".") == v;
    assert TrimRightSet(v + "..") == v;
  }

  // ---- registering a command ----------------------------------------------------------------

  class Cmd {
    const declared: seq<string>
    var args: seq<Argument>
    var reqArgs: int
    var optArgs: int

    constructor (declared: seq<string>)
      ensures this.declared == declared && args == [] && reqArgs == 0 && optArgs == 0
    {
      this.declared := declared;
      args, reqArgs, optArgs := [], 0, 0;
    }

    ghost predicate Counted()
      reads this
    {
      reqArgs == Count(args, true) && optArgs == Count(args, false)
    }

    /** One pass with flags for what has been seen. */
    method ParseArgs() returns (error: Option<ArgError>)
      requires reqArgs == 0 && optArgs == 0
      modifies this
      ensures match Outcomes(declared)
              case Accepted(taken) => error == None && args == taken && Counted()
              case Rejected(e) => error == Some(e)
    {
      args := [];
      var chanArg, required, optional, variadic := false, false, false, false;
      for i := 0 to |declared|
        invariant Outcomes(declared[..i]) == Accepted(args)
        invariant Flagged(args, chanArg, required, optional, variadic) && Counted()
      {
        var e, meta := NextArg(declared[i], chanArg, required, optional, variadic);
        OutcomeNext(declared, i);
        if e.Some? {
          RejectedStays(declared, i + 1);
          return e;
        }
        OneShape(ToLower(declared[i]));
        chanArg, required, optional, variadic := Take(meta, chanArg, required, optional, variadic);
      }
      assert declared[..|declared|] == declared;
      return None;
    }

    method Take(meta: Argument, chanArg: bool, required: bool, optional: bool, variadic: bool)
      returns (c: bool, r: bool, o: bool, v: bool)
      requires Flagged(args, chanArg, required, optional, variadic) && Counted() && HasOneShape(meta.kind)
      modifies this
      ensures args == old(args) + [meta] && Flagged(args, c, r, o, v) && Counted()
    {
      c, r, o, v := chanArg, required, optional, variadic;
      TakeOne(args, meta);
      if meta.kind.channel { c := true; }
      if meta.kind.optional {
        o, optArgs := true, optArgs + 1;
      } else if meta.kind.variadic {
        v := true;
      } else {
        r, reqArgs := true, reqArgs + 1;
      }
      args := args + [meta];
    }

    method NextArg(arg: string, chanArg: bool, required: bool, optional: bool, variadic: bool)
      returns (error: Option<ArgError>, meta: Argument)
      requires Flagged(args, chanArg, required, optional, variadic)
      ensures error == NextError(args, arg)
      ensures error == None ==> ArgForm(ToLower(arg)) && meta == Declared(arg)
    {
      meta := Argument("", "", ArgType(false, false, false, false, false, false));
      if !ArgForm(ToLower(arg)) {
        return Some(BadForm), meta;
      }
      meta := Declared(arg);
      OneShape(ToLower(arg));
      for j := 0 to |args|
        invariant forall k :: 0 <= k < j ==> args[k].name != meta.name
      {
        if args[j].name == meta.name {
          assert args[j] in args;
          return Some(DuplicateName), meta;
        }
      }
      if meta.kind.channel {
        assert args != [] ==> args[0] in args;
        if chanArg {
          return Some(DuplicateChannel), meta;
        } else if required || optional || variadic {
          return Some(ChannelNotFirst), meta;
        }
      }
      if meta.kind.optional {
        if variadic {
          return Some(OptionalAfterVariadic), meta;
        }
      } else if meta.kind.variadic {
        if variadic {
          return Some(DuplicateVariadic), meta;
        }
      } else if optional {
        return Some(RequiredAfterOptional), meta;
      }
      return None, meta;
    }
  }

  /** The flags say which kinds of argument have been taken. */
  predicate Flagged(args: seq<Argument>, chanArg: bool, required: bool, optional: bool, variadic: bool) {
    && chanArg == HasChannel(args) && required == HasRequired(args)
    && optional == HasOptional(args) && variadic == HasVariadic(args)
    && forall a :: a in args ==> a.kind.required || a.kind.optional || a.kind.variadic
  }

  lemma OutcomeNext(args: seq<string>, i: nat)
    requires i < |args| && Outcomes(args[..i]).Accepted?
    ensures var taken := Outcomes(args[..i]).args;
            var e := NextError(taken, args[i]);
            Outcomes(args[..i + 1]) == if e.Some? then Rejected(e.value) else Accepted(taken + [Declared(args[i])])
  {
    assert args[..i + 1][..i] == args[..i];
  }

  /** How many arguments are required, or optional. */
  function Count(args: seq<Argument>, required: bool): nat {
    if args == [] then 0
    else
      var k := args[|args| - 1].kind;
      Count(args[..|args| - 1], required) + if (if required then k.required else k.optional) then 1 else 0
  }

  /** The positions of the required, or of the optional arguments. */
  ghost function Positions(args: seq<Argument>, required: bool): set<nat> {
    set i: nat | i < |args| && if required then args[i].kind.required else args[i].kind.optional
  }

  lemma {:induction false} CountExactly(args: seq<Argument>, required: bool)
    ensures Count(args, required) == |Positions(args, required)|
  {
    if args != [] {
      var init, last := args[..|args| - 1], |args| - 1;
      CountExactly(init, required);
      var counted := if required then args[last].kind.required else args[last].kind.optional;
      assert Positions(args, required) == Positions(init, required) + if counted then {last} else {};
    }
  }

  lemma TakeOne(args: seq<Argument>, a: Argument)
    ensures HasChannel(args + [a]) <==> HasChannel(args) || a.kind.channel
    ensures HasRequired(args + [a]) <==> HasRequired(args) || a.kind.required
    ensures HasOptional(args + [a]) <==> HasOptional(args) || a.kind.optional
    ensures HasVariadic(args + [a]) <==> HasVariadic(args) || a.kind.variadic
    ensures Count(args + [a], true) == Count(args, true) + if a.kind.required then 1 else 0
    ensures Count(args + [a], false) == Count(args, false) + if a.kind.optional then 1 else 0
  {
    assert forall b :: b in args + [a] <==> b in args || b == a;
    assert (args + [a])[..|args|] == args;
  }

  lemma {:induction false} RejectedStays(args: seq<string>, n: nat)
    requires n <= |args| && Outcomes(args[..n]).Rejected?
    ensures Outcomes(args) == Outcomes(args[..n])
    decreases |args|
  {
    if n < |args| {
      assert args[..|args| - 1][..n] == args[..n];
      RejectedStays(args[..|args| - 1], n);
    } else {
      assert args[..n] == args;
    }
  }
}
