/** What the arguments of a call are bound to, in terms of its words alone. */
module BindingLaws {
  import opened Seqs
  import opened Text
  import opened CommandArgs
  import opened ArgBinding

  /** A channel argument that the first word does not fill takes no word. */
  function Skipped(r: Request): nat {
    if r.args != [] && r.args[0].kind.channel && !(r.words != [] && r.words[0] != "" && r.words[0][0] in r.chantypes)
    then 1 else 0
  }

  ghost predicate NoVariadicBefore(args: seq<Argument>, p: nat)
    requires p <= |args|
  {
    forall q :: 0 <= q < p ==> !args[q].kind.variadic
  }

  /** Argument `p` has words: those from `p - Skipped(r)` on are left for it and the arguments after it. */
  ghost predicate HasWords(r: Request, p: nat)
    requires p < |r.args|
  {
    Skipped(r) <= p && p - Skipped(r) < |r.words| && NoVariadicBefore(r.args, p)
  }

  /** An argument holds its one word, a variadic one all words that are left, joined by spaces, and a
      channel argument that is left out the message's channel. No other argument holds anything. */
  ghost predicate HoldsWords(r: Request, values: map<string, string>, p: nat)
    requires p < |r.args|
  {
    var name := r.args[p].name;
    if p < Skipped(r) then name in values && values[name] == r.channel
    else if HasWords(r, p) then
      && name in values
      && values[name] ==
         if r.args[p].kind.variadic then Join(r.words[p - Skipped(r)..], ' ') else r.words[p - Skipped(r)]
    else name !in values
  }

  lemma LiveExactly(r: Request, p: nat)
    requires p < |r.args|
    ensures p < r.Live() <==> NoVariadicBefore(r.args, p)
  {
    LiveFacts(r, 0);
    if p >= r.Live() {
      assert r.args[r.Live() - 1].kind.variadic;
    }
  }

  lemma BoundMeans(r: Request, p: nat)
    requires p < |r.args| && ShapedArgs(r.args)
    ensures r.IsImplicit(p) <==> p < Skipped(r)
    ensures r.IsBound(p) <==> p < Skipped(r) || HasWords(r, p)
    ensures p < Skipped(r) ==> r.Value(p) == r.channel
    ensures HasWords(r, p) ==>
              r.Words(p) == if r.args[p].kind.variadic then r.words[p - Skipped(r)..] else [r.words[p - Skipped(r)]]
  {
    LiveExactly(r, p);
    if p < Skipped(r) {
      assert NoVariadicBefore(r.args, p);
    }
  }

  lemma ValueMeans(r: Request, p: nat)
    requires p < |r.args| && ShapedArgs(r.args) && HasWords(r, p)
    ensures r.Value(p) == if r.args[p].kind.variadic then Join(r.words[p - Skipped(r)..], ' ') else r.words[p - Skipped(r)]
  {
    BoundMeans(r, p);
    JoinOne(r.words[p - Skipped(r)]);
  }

  /** Of every call that succeeds: each argument holds its words. */
  lemma ValuesExactly(r: Request, values: map<string, string>, t: Targets, p: nat)
    requires ShapedArgs(r.args) && Answers(r, None, values, t) && p < |r.args|
    ensures HoldsWords(r, values, p)
    ensures forall name :: name in values ==> exists q :: 0 <= q < |r.args| && r.args[q].name == name
  {
    BoundMeans(r, p);
    if HasWords(r, p) {
      ValueMeans(r, p);
    }
  }

  // ---- the values together -------------------------------------------------------------------

  /** The values of the arguments that have words, in order. */
  ghost function TextsFrom(r: Request, values: map<string, string>, p: nat): seq<string>
    requires p <= |r.args|
    decreases |r.args| - p
  {
    if p == |r.args| then []
    else
      (if HasWords(r, p) && r.args[p].name in values then [values[r.args[p].name]] else []) + TextsFrom(r, values, p + 1)
  }

  lemma {:induction false} NoTexts(r: Request, values: map<string, string>, p: nat)
    requires p <= |r.args| && forall q :: p <= q < |r.args| ==> !HasWords(r, q)
    ensures TextsFrom(r, values, p) == []
    decreases |r.args| - p
  {
    if p < |r.args| {
      NoTexts(r, values, p + 1);
    }
  }

  lemma JoinCons(w: string, words: seq<string>)
    ensures Join([w] + words, ' ') == if words == [] then w else w + [' '] + Join(words, ' ')
  {
    assert ([w] + words)[1..] == words;
  }

  ghost predicate AllHold(r: Request, values: map<string, string>) {
    forall p :: 0 <= p < |r.args| ==> HoldsWords(r, values, p)
  }

  /** Only a variadic argument can take more words than there are arguments. */
  ghost predicate Exhausted(r: Request) {
    NoVariadicBefore(r.args, |r.args|) ==> |r.words| + Skipped(r) <= |r.args|
  }

  lemma OneText(r: Request, values: map<string, string>, p: nat)
    requires AllHold(r, values) && p < |r.args| && HasWords(r, p)
    ensures var text := if r.args[p].kind.variadic then Join(r.words[p - Skipped(r)..], ' ') else r.words[p - Skipped(r)];
            TextsFrom(r, values, p) == [text] + TextsFrom(r, values, p + 1)
  {
    assert HoldsWords(r, values, p);
  }

  lemma {:induction false} TextsJoin(r: Request, values: map<string, string>, p: nat)
    requires AllHold(r, values) && Exhausted(r)
    requires Skipped(r) <= p <= |r.args| && p - Skipped(r) <= |r.words| && NoVariadicBefore(r.args, p)
    ensures TextsFrom(r, values, p) == [] <==> p - Skipped(r) == |r.words|
    ensures Join(TextsFrom(r, values, p), ' ') == Join(r.words[p - Skipped(r)..], ' ')
    decreases |r.args| - p
  {
    var j := p - Skipped(r);
    if p == |r.args| || j == |r.words| {
      NoTexts(r, values, p);
      assert r.words[j..] == [];
    } else {
      assert HasWords(r, p);
      OneText(r, values, p);
      if r.args[p].kind.variadic {
        NoTexts(r, values, p + 1);
        JoinOne(Join(r.words[j..], ' '));
        assert [Join(r.words[j..], ' ')] + [] == [Join(r.words[j..], ' ')];
      } else {
        TextsJoin(r, values, p + 1);
        TextsCons(r.words, j, TextsFrom(r, values, p + 1));
      }
    }
  }

  lemma TextsCons(words: seq<string>, j: nat, texts: seq<string>)
    requires j < |words| && (texts == [] <==> j + 1 == |words|) && Join(texts, ' ') == Join(words[j + 1..], ' ')
    ensures Join([words[j]] + texts, ' ') == Join(words[j..], ' ')
  {
    assert words[j..] == [words[j]] + words[j + 1..];
    JoinCons(words[j], words[j + 1..]);
    JoinCons(words[j], texts);
  }

  lemma AllTaken(r: Request)
    requires ShapedArgs(r.args) && r.Fits()
    ensures Exhausted(r) && Skipped(r) <= |r.args|
  {
    if NoVariadicBefore(r.args, |r.args|) {
      LiveFacts(r, 0);
      assert r.Live() == |r.args|;
    }
  }

  lemma SkippedText(r: Request, values: map<string, string>)
    requires Skipped(r) <= |r.args|
    ensures TextsFrom(r, values, 0) == TextsFrom(r, values, Skipped(r))
  {
    if Skipped(r) == 1 {
      assert [] + TextsFrom(r, values, 1) == TextsFrom(r, values, 1);
    }
  }

  /** Of every call that succeeds: the values of the arguments that have words, joined by spaces in the
      order of the arguments, are the words joined by spaces. */
  lemma ValuesJoinToWords(r: Request, values: map<string, string>, t: Targets)
    requires ShapedArgs(r.args) && Answers(r, None, values, t)
    ensures Join(TextsFrom(r, values, 0), ' ') == Join(r.words, ' ')
  {
    forall p | 0 <= p < |r.args| ensures HoldsWords(r, values, p) {
      ValuesExactly(r, values, t, p);
    }
    AllTaken(r);
    ChannelNotVariadic(r);
    SkippedText(r, values);
    TextsJoin(r, values, Skipped(r));
    assert r.words[0..] == r.words;
  }

  lemma ChannelNotVariadic(r: Request)
    requires ShapedArgs(r.args) && Skipped(r) <= |r.args|
    ensures NoVariadicBefore(r.args, Skipped(r))
  {
  }

  // ---- what is looked up ---------------------------------------------------------------------

  ghost predicate HasOneWord(r: Request, p: nat)
    requires p < |r.args|
  {
    HasWords(r, p) && !r.args[p].kind.variadic
  }

  /** A nick argument has the user of its word, a user argument the account of its word, and the user too
      if that was found by nick. No other argument has any. */
  ghost predicate HoldsTargets(r: Request, t: Targets, p: nat)
    requires p < |r.args|
  {
    var name, kind := r.args[p].name, r.args[p].kind;
    if !HasOneWord(r, p) || !(kind.nick || kind.user) then name !in t.users && name !in t.accounts
    else
      var w := r.words[p - Skipped(r)];
      if kind.nick then
        && w in r.nicks && name in t.users && t.users[name] == r.nicks[w]
        && name !in t.accounts
      else
        && w in r.users && name in t.accounts && t.accounts[name] == r.users[w].name
        && (name in t.users <==> r.users[w].user.Some?)
        && (name in t.users ==> r.users[w].user == Some(t.users[name]))
  }

  lemma SingleMeans(r: Request, p: nat)
    requires p < |r.args| && ShapedArgs(r.args)
    ensures r.IsSingle(p) <==> HasOneWord(r, p)
    ensures HasOneWord(r, p) ==> r.WordOf(p) == p - Skipped(r)
  {
    BoundMeans(r, p);
  }

  lemma KnownWord(r: Request, p: nat)
    requires p < |r.args| && ShapedArgs(r.args) && r.AllKnown() && HasOneWord(r, p)
    ensures r.args[p].kind.nick ==> r.words[p - Skipped(r)] in r.nicks
    ensures r.args[p].kind.user ==> r.words[p - Skipped(r)] in r.users
  {
    BoundMeans(r, p);
    LiveExactly(r, p);
    assert r.Known(p);
    assert r.words[p - Skipped(r)] in r.Words(p);
  }

  lemma MirrorsAt(values: map<string, string>, args: seq<Argument>, slots: seq<Option<string>>, p: nat)
    requires p < |args| == |slots| && Mirrors(values, args, slots, |args|) && ShapedArgs(args)
    ensures if slots[p].Some? then args[p].name in values && values[args[p].name] == slots[p].value
            else args[p].name !in values
  {
    if args[p].name in values {
      var q :| 0 <= q < |args| && slots[q].Some? && args[q].name == args[p].name;
      assert q == p;
    }
  }

  lemma SlotMeans(r: Request, p: nat)
    requires p < |r.args| && ShapedArgs(r.args)
    ensures UserSlots(r)[p] == if HasOneWord(r, p) then r.UserOf(r.args[p].kind, r.words[p - Skipped(r)]) else None
    ensures AccountSlots(r)[p] == if HasOneWord(r, p) then r.AccountOf(r.args[p].kind, r.words[p - Skipped(r)]) else None
  {
    SingleMeans(r, p);
  }

  /** Of every call that succeeds: each argument has what was found for its word. */
  lemma TargetsExactly(r: Request, values: map<string, string>, t: Targets, p: nat)
    requires ShapedArgs(r.args) && Answers(r, None, values, t) && p < |r.args|
    ensures HoldsTargets(r, t, p)
  {
    TargetsAt(r, t, p);
    if HasOneWord(r, p) {
      KnownWord(r, p);
    }
    assert !(r.args[p].kind.nick && r.args[p].kind.user);
  }

  lemma TargetsAt(r: Request, t: Targets, p: nat)
    requires ShapedArgs(r.args) && Targeted(r, t, |r.args|) && p < |r.args|
    ensures var name, kind := r.args[p].name, r.args[p].kind;
            var user := if HasOneWord(r, p) then r.UserOf(kind, r.words[p - Skipped(r)]) else None;
            var account := if HasOneWord(r, p) then r.AccountOf(kind, r.words[p - Skipped(r)]) else None;
            && (if user.Some? then name in t.users && t.users[name] == user.value else name !in t.users)
            && (if account.Some? then name in t.accounts && t.accounts[name] == account.value else name !in t.accounts)
  {
    SlotMeans(r, p);
    MirrorsAt(t.users, r.args, UserSlots(r), p);
    MirrorsAt(t.accounts, r.args, AccountSlots(r), p);
  }

  /** The target channel is the one the state knows under the value of the channel argument. */
  lemma ChannelExactly(r: Request, values: map<string, string>, t: Targets)
    requires ShapedArgs(r.args) && Answers(r, None, values, t)
    ensures if r.args != [] && r.args[0].kind.channel then
              && r.args[0].name in values
              && var key := ToLower(values[r.args[0].name]);
                 t.channel == if key in r.rooms then Some(key) else None
            else t.channel == None
  {
    if r.args != [] && r.args[0].kind.channel {
      ValuesExactly(r, values, t, 0);
      BoundMeans(r, 0);
      if HasWords(r, 0) {
        ValueMeans(r, 0);
      }
    }
  }

  /** A variadic nick or user argument has what was found for each of its words, in order. */
  ghost predicate HoldsTail(r: Request, t: Targets, kind: ArgType, words: seq<string>) {
    && |t.varUsers| == |words|
    && |t.varAccounts| == (if kind.user then |words| else 0)
    && (kind.nick ==>
          forall i :: 0 <= i < |words| ==> words[i] in r.nicks && t.varUsers[i] == Some(r.nicks[words[i]]))
    && (kind.user ==>
          forall i :: 0 <= i < |words| ==>
            && words[i] in r.users && t.varUsers[i] == r.users[words[i]].user
            && t.varAccounts[i] == Some(r.users[words[i]].name))
  }

  lemma TailMeans(r: Request, p: nat)
    requires ShapedArgs(r.args) && r.AllKnown() && p < |r.args| && HasWords(r, p) && r.args[p].kind.variadic
    ensures p == r.Live() - 1 && r.Words(p) == r.words[p - Skipped(r)..]
    ensures r.args[p].kind.nick ==> forall w :: w in r.Words(p) ==> w in r.nicks
    ensures r.args[p].kind.user ==> forall w :: w in r.Words(p) ==> w in r.users
    ensures !(r.args[p].kind.nick && r.args[p].kind.user)
  {
    LiveExactly(r, p);
    LiveNext(r, p);
    BoundMeans(r, p);
    assert r.Known(p);
  }

  lemma TailExactly(r: Request, values: map<string, string>, t: Targets, p: nat)
    requires ShapedArgs(r.args) && Answers(r, None, values, t)
    requires p < |r.args| && HasWords(r, p) && r.args[p].kind.variadic && (r.args[p].kind.nick || r.args[p].kind.user)
    ensures HoldsTail(r, t, r.args[p].kind, r.words[p - Skipped(r)..])
  {
    TailMeans(r, p);
    FoundEach(r, t, r.args[p].kind, r.words[p - Skipped(r)..]);
  }

  lemma FoundEach(r: Request, t: Targets, kind: ArgType, words: seq<string>)
    requires t.varUsers == UsersOf(r, kind, words)
    requires t.varAccounts == if kind.user then AccountsOf(r, kind, words) else []
    requires !(kind.nick && kind.user)
    requires kind.nick ==> forall w :: w in words ==> w in r.nicks
    requires kind.user ==> forall w :: w in words ==> w in r.users
    ensures HoldsTail(r, t, kind, words)
  {
    assert forall i :: 0 <= i < |words| ==> words[i] in words;
  }

  /** Without such an argument there is no list. */
  lemma NoTail(r: Request, values: map<string, string>, t: Targets)
    requires ShapedArgs(r.args) && Answers(r, None, values, t)
    requires forall p :: 0 <= p < |r.args| && HasWords(r, p) && r.args[p].kind.variadic ==>
               !r.args[p].kind.nick && !r.args[p].kind.user
    ensures t.varUsers == [] && t.varAccounts == []
  {
    if r.LooksUpTail() {
      var p := r.Live() - 1;
      LiveExactly(r, p);
      BoundMeans(r, p);
      if !HasWords(r, p) {
        assert r.Words(p) == [];
      }
    }
  }
}
