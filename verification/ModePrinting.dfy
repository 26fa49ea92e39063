/** Mode sets and diffs printed as modestrings, and read back. */
module ModePrinting {
  import opened Seqs
  import opened Text
  import opened ModeSets
  import opened ModeParsing
  import opened ModeLaws

  /** The orders in which the three maps happen to be walked. */
  datatype Walk = Walk(flags: string, args: string, addresses: string)

  ghost predicate IsWalk(w: Walk, s: ModeSet) {
    && IsOrder(w.flags, s.flags)
    && IsOrder(w.args, s.args.Keys)
    && IsOrder(w.addresses, s.addresses.Keys)
  }

  /** A letter printed with its argument. */
  type Entry = (char, string)

  function ListEntries(m: char, list: seq<string>): seq<Entry> {
    if list == [] then [] else [(m, list[0])] + ListEntries(m, list[1..])
  }

  function ArgEntries(s: ModeSet, order: string): seq<Entry> {
    if order == "" then []
    else [(order[0], if order[0] in s.args then s.args[order[0]] else "")] + ArgEntries(s, order[1..])
  }

  function AddressEntries(s: ModeSet, order: string): seq<Entry> {
    if order == "" then []
    else ListEntries(order[0], AddressList(s, order[0])) + AddressEntries(s, order[1..])
  }

  function Entries(s: ModeSet, w: Walk): seq<Entry> {
    ArgEntries(s, w.args) + AddressEntries(s, w.addresses)
  }

  function LettersOf(es: seq<Entry>): string {
    if es == [] then "" else [es[0].0] + LettersOf(es[1..])
  }

  function ArgumentsOf(es: seq<Entry>): seq<string> {
    if es == [] then [] else [es[0].1] + ArgumentsOf(es[1..])
  }

  lemma {:induction false} LettersOfConcat(a: seq<Entry>, b: seq<Entry>)
    ensures LettersOf(a + b) == LettersOf(a) + LettersOf(b)
    decreases |a|
  {
    if a == [] {
      assert a + b == b;
    } else {
      assert (a + b)[1..] == a[1..] + b;
      LettersOfConcat(a[1..], b);
    }
  }

  lemma {:induction false} ArgLetters(s: ModeSet, order: string)
    ensures LettersOf(ArgEntries(s, order)) == order
  {
    if order != "" {
      ArgLetters(s, order[1..]);
      assert [order[0]] + order[1..] == order;
    }
  }

  /** `ChannelModes.String` for one walk: the letters, then a space and the arguments if any. */
  function Print(s: ModeSet, w: Walk): string {
    var es := Entries(s, w);
    w.flags + LettersOf(es) + if es == [] then "" else " " + Join(ArgumentsOf(es), ' ')
  }

  /** `ModeDiff.String`: signed letters of both halves, then the arguments of both. */
  function PrintDiff(pos: string, neg: string): string {
    (if pos == "" then "" else "+" + pos[..IndexOf(pos, ' ')]) +
    (if neg == "" then "" else "-" + neg[..IndexOf(neg, ' ')]) +
    pos[IndexOf(pos, ' ')..] + neg[IndexOf(neg, ' ')..]
  }

  predicate PlainWord(a: string) {
    a != "" && SpaceFree(a)
  }

  ghost predicate PlainLetters(s: ModeSet) {
    forall m :: m in s.flags || m in s.args || m in s.addresses ==> PlainLetter(m)
  }

  ghost predicate PlainAddresses(s: ModeSet) {
    forall m :: m in s.addresses ==> forall a :: a in s.addresses[m] ==> PlainWord(a)
  }

  /** Every letter and argument can stand in a modestring. */
  ghost predicate Printable(s: ModeSet) {
    PlainLetters(s) && PlainAddresses(s) && forall m :: m in s.args ==> PlainWord(s.args[m])
  }

  // ---- a printed list of entries read back ------------------------------------------

  function EntryOp(k: ModeKinds, e: Entry, adding: bool): ModeOp {
    if k.KindOf(e.0).ArgsAddress? then (if adding then SetAddress(e.0, e.1) else UnsetAddress(e.0, e.1))
    else if adding then SetArg(e.0, e.1) else UnsetArg(e.0, e.1)
  }

  function EntryOps(k: ModeKinds, es: seq<Entry>, adding: bool): seq<ModeOp> {
    if es == [] then [] else [EntryOp(k, es[0], adding)] + EntryOps(k, es[1..], adding)
  }

  function FlagOps(flags: string, adding: bool): seq<ModeOp> {
    if flags == "" then []
    else [if adding then SetMode(flags[0]) else UnsetMode(flags[0])] + FlagOps(flags[1..], adding)
  }

  ghost predicate FlagLetters(k: ModeKinds, flags: string) {
    forall m :: m in flags ==> k.IsFlag(m) && m !in "+-"
  }

  ghost predicate KeyedEntries(k: ModeKinds, es: seq<Entry>) {
    forall e :: e in es ==> (k.KindOf(e.0).ArgsAddress? || k.TakesKey(e.0)) && e.0 !in "+-"
  }

  lemma {:induction false} ReadFlags(k: ModeKinds, flags: string, rest: string, adding: bool, args: seq<string>)
    requires FlagLetters(k, flags)
    ensures Ops(k, flags + rest, adding, args) == FlagOps(flags, adding) + Ops(k, rest, adding, args)
  {
    if flags == "" {
      assert flags + rest == rest;
    } else {
      assert flags + rest == [flags[0]] + (flags[1..] + rest);
      assert flags[0] in flags;
      OpsLetter(k, flags[0], flags[1..] + rest, adding, args);
      ReadFlags(k, flags[1..], rest, adding, args);
    }
  }

  lemma Uncons(e: Entry, es: seq<Entry>, rest: string, more: seq<string>)
    ensures LettersOf([e] + es) + rest == [e.0] + (LettersOf(es) + rest)
    ensures ArgumentsOf([e] + es) + more == [e.1] + (ArgumentsOf(es) + more)
  {
    assert ([e] + es)[1..] == es;
  }

  lemma {:induction false} ReadPositive(k: ModeKinds, es: seq<Entry>, rest: string, more: seq<string>)
    requires KeyedEntries(k, es)
    ensures Ops(k, LettersOf(es) + rest, true, ArgumentsOf(es) + more) ==
            EntryOps(k, es, true) + Ops(k, rest, true, more)
  {
    if es == [] {
      assert LettersOf(es) + rest == rest && ArgumentsOf(es) + more == more;
    } else {
      var e, later := es[0], es[1..];
      assert es == [e] + later && e in es;
      Uncons(e, later, rest, more);
      ReadEntry(k, e, LettersOf(later) + rest, ArgumentsOf(later) + more);
      ReadPositive(k, later, rest, more);
      Associate([EntryOp(k, e, true)], EntryOps(k, later, true), Ops(k, rest, true, more));
    }
  }

  lemma ReadEntry(k: ModeKinds, e: Entry, letters: string, args: seq<string>)
    requires KeyedEntries(k, [e])
    ensures Ops(k, [e.0] + letters, true, [e.1] + args) == [EntryOp(k, e, true)] + Ops(k, letters, true, args)
  {
    assert e in [e];
    assert ([e.1] + args)[1..] == args;
    OpsLetter(k, e.0, letters, true, [e.1] + args);
  }

  // ---- what the printed operations build -----------------------------------------

  lemma RunCons(s: ModeSet, op: ModeOp, ops: seq<ModeOp>)
    ensures Run(s, [op] + ops) == Run(Step(s, op), ops)
  {
    assert [op][..0] == [];
    assert Run(s, [op]) == Step(s, op);
    RunConcat(s, [op], ops);
  }

  lemma {:induction false} BuildFlags(s: ModeSet, flags: string)
    ensures Run(s, FlagOps(flags, true)) == s.(flags := s.flags + Elements(flags))
    decreases |flags|
  {
    if flags != "" {
      RunCons(s, SetMode(flags[0]), FlagOps(flags[1..], true));
      BuildFlags(Step(s, SetMode(flags[0])), flags[1..]);
      assert flags == [flags[0]] + flags[1..];
      assert Elements(flags) == {flags[0]} + Elements(flags[1..]);
      assert s.flags + {flags[0]} + Elements(flags[1..]) == s.flags + Elements(flags);
    }
  }

  /** The part of a map that a walk over `order` visits. */
  function Kept<T>(m: map<char, T>, order: string): map<char, T> {
    map x | x in order && x in m :: m[x]
  }

  lemma KeptFirst<T>(t: map<char, T>, m: map<char, T>, order: string)
    requires order != "" && order[0] in m
    ensures t[order[0] := m[order[0]]] + Kept(m, order[1..]) == t + Kept(m, order)
  {
    assert order == [order[0]] + order[1..];
  }

  lemma {:induction false} BuildArgs(k: ModeKinds, s: ModeSet, t: ModeSet, order: string)
    requires forall m :: m in order ==> m in s.args && k.TakesKey(m)
    ensures Run(t, EntryOps(k, ArgEntries(s, order), true)) ==
            t.(args := t.args + Kept(s.args, order))
    decreases |order|
  {
    if order == "" {
      assert t.args + Kept(s.args, order) == t.args;
    } else {
      var m := order[0];
      var op := SetArg(m, s.args[m]);
      assert order == [m] + order[1..];
      RunCons(t, op, EntryOps(k, ArgEntries(s, order[1..]), true));
      BuildArgs(k, s, Step(t, op), order[1..]);
      KeptFirst(t.args, s.args, order);
    }
  }

  lemma AddNewAddress(t: ModeSet, m: char, list: seq<string>)
    requires list != [] && NoDuplicates(AddressList(t, m) + list)
    ensures Step(t, SetAddress(m, list[0])) == t.(addresses := t.addresses[m := AddressList(t, m) + [list[0]]])
    ensures NoDuplicates(AddressList(t, m) + [list[0]] + list[1..])
  {
    var have := AddressList(t, m);
    forall i | 0 <= i < |have| ensures have[i] != list[0] {
      assert (have + list)[i] == have[i] && (have + list)[|have|] == list[0];
    }
    assert have + [list[0]] + list[1..] == have + list;
  }

  lemma {:induction false} BuildList(k: ModeKinds, t: ModeSet, m: char, list: seq<string>)
    requires k.KindOf(m).ArgsAddress? && NoDuplicates(AddressList(t, m) + list)
    ensures Run(t, EntryOps(k, ListEntries(m, list), true)) ==
            if list == [] then t else t.(addresses := t.addresses[m := AddressList(t, m) + list])
    decreases |list|
  {
    if list != [] {
      var have := AddressList(t, m);
      RunCons(t, SetAddress(m, list[0]), EntryOps(k, ListEntries(m, list[1..]), true));
      AddNewAddress(t, m, list);
      var next := t.(addresses := t.addresses[m := have + [list[0]]]);
      BuildList(k, next, m, list[1..]);
      StoredTwice(t.addresses, m, have, list);
    }
  }

  lemma StoredTwice(addresses: map<char, seq<string>>, m: char, have: seq<string>, list: seq<string>)
    requires list != []
    ensures addresses[m := have + [list[0]]][m := have + [list[0]] + list[1..]] == addresses[m := have + list]
    ensures list[1..] == [] ==> have + [list[0]] == have + list
  {
    assert have + [list[0]] + list[1..] == have + list;
  }

  lemma {:induction false} EntryOpsConcat(k: ModeKinds, a: seq<Entry>, b: seq<Entry>, adding: bool)
    ensures EntryOps(k, a + b, adding) == EntryOps(k, a, adding) + EntryOps(k, b, adding)
    decreases |a|
  {
    if a == [] {
      assert a + b == b;
    } else {
      assert (a + b)[1..] == a[1..] + b;
      EntryOpsConcat(k, a[1..], b, adding);
    }
  }

  lemma {:induction false} BuildAddresses(k: ModeKinds, s: ModeSet, t: ModeSet, order: string)
    requires Valid(s) && NoDuplicates(order)
    requires forall m :: m in order ==> m in s.addresses && m !in t.addresses && k.KindOf(m).ArgsAddress?
    ensures Run(t, EntryOps(k, AddressEntries(s, order), true)) ==
            t.(addresses := t.addresses + Kept(s.addresses, order))
    decreases |order|
  {
    if order == "" {
      assert t.addresses + Kept(s.addresses, order) == t.addresses;
    } else {
      var m, rest := order[0], order[1..];
      var list := s.addresses[m];
      assert order == [m] + rest;
      var first := EntryOps(k, ListEntries(m, list), true);
      EntryOpsConcat(k, ListEntries(m, list), AddressEntries(s, rest), true);
      RunConcat(t, first, EntryOps(k, AddressEntries(s, rest), true));
      assert AddressList(t, m) + list == list;
      BuildList(k, t, m, list);
      var next := t.(addresses := t.addresses[m := list]);
      forall x | x in rest ensures x !in next.addresses {
        var i :| 0 <= i < |rest| && rest[i] == x;
        assert order[i + 1] == x && order[0] != order[i + 1];
      }
      BuildAddresses(k, s, next, rest);
      KeptFirst(t.addresses, s.addresses, order);
    }
  }

  function PrintedOps(k: ModeKinds, s: ModeSet, w: Walk, adding: bool): seq<ModeOp> {
    FlagOps(w.flags, adding) + EntryOps(k, Entries(s, w), adding)
  }

  /** The operations of a printed set rebuild it from nothing. */
  lemma BuildSet(k: ModeKinds, s: ModeSet, w: Walk)
    requires Valid(s) && Kinded(k, s) && IsWalk(w, s)
    ensures Run(EMPTY_SET, PrintedOps(k, s, w, true)) == s
  {
    var flagOps := FlagOps(w.flags, true);
    var argOps := EntryOps(k, ArgEntries(s, w.args), true);
    var addressOps := EntryOps(k, AddressEntries(s, w.addresses), true);
    EntryOpsConcat(k, ArgEntries(s, w.args), AddressEntries(s, w.addresses), true);
    assert PrintedOps(k, s, w, true) == flagOps + (argOps + addressOps);
    RunConcat(EMPTY_SET, flagOps, argOps + addressOps);
    BuildFlags(EMPTY_SET, w.flags);
    assert {} + Elements(w.flags) == s.flags;
    var t := ModeSet(s.flags, map[], map[]);
    RunConcat(t, argOps, addressOps);
    BuildAllArgs(k, s, t, w.args);
    BuildAllAddresses(k, s, ModeSet(s.flags, s.args, map[]), w.addresses);
  }

  lemma BuildAllArgs(k: ModeKinds, s: ModeSet, t: ModeSet, order: string)
    requires Kinded(k, s) && Elements(order) == s.args.Keys && t.args == map[]
    ensures Run(t, EntryOps(k, ArgEntries(s, order), true)) == t.(args := s.args)
  {
    assert forall m :: m in order <==> m in s.args.Keys;
    BuildArgs(k, s, t, order);
    KeptAll(t.args, s.args, order);
  }

  lemma BuildAllAddresses(k: ModeKinds, s: ModeSet, t: ModeSet, order: string)
    requires Valid(s) && Kinded(k, s) && IsOrder(order, s.addresses.Keys) && t.addresses == map[]
    ensures Run(t, EntryOps(k, AddressEntries(s, order), true)) == t.(addresses := s.addresses)
  {
    assert forall m :: m in order <==> m in Elements(order);
    BuildAddresses(k, s, t, order);
    KeptAll(t.addresses, s.addresses, order);
  }

  lemma KeptAll<T>(t: map<char, T>, m: map<char, T>, order: string)
    requires t == map[] && forall x :: x in order <==> x in m
    ensures t + Kept(m, order) == m
  {
  }

  // ---- reading what was printed ----------------------------------------------------

  lemma {:induction false} EntryWords(es: seq<Entry>)
    ensures |LettersOf(es)| == |ArgumentsOf(es)| == |es|
    ensures forall i :: 0 <= i < |es| ==> LettersOf(es)[i] == es[i].0 && ArgumentsOf(es)[i] == es[i].1
  {
    if es != [] {
      EntryWords(es[1..]);
    }
  }

  lemma {:induction false} ArgEntryAt(s: ModeSet, order: string)
    requires forall m :: m in order ==> m in s.args
    ensures |ArgEntries(s, order)| == |order|
    ensures forall i :: 0 <= i < |order| ==> ArgEntries(s, order)[i] == (order[i], s.args[order[i]])
  {
    if order != "" {
      assert order == [order[0]] + order[1..];
      ArgEntryAt(s, order[1..]);
    }
  }

  lemma {:induction false} ListEntryAt(m: char, list: seq<string>)
    ensures |ListEntries(m, list)| == |list|
    ensures forall i :: 0 <= i < |list| ==> ListEntries(m, list)[i] == (m, list[i])
  {
    if list != [] {
      ListEntryAt(m, list[1..]);
    }
  }

  lemma {:induction false} AddressEntryAt(s: ModeSet, order: string)
    ensures forall e :: e in AddressEntries(s, order) ==> e.0 in order && e.1 in AddressList(s, e.0)
  {
    if order != "" {
      ListEntryAt(order[0], AddressList(s, order[0]));
      AddressEntryAt(s, order[1..]);
      assert order == [order[0]] + order[1..];
    }
  }

  /** Each entry is an argument of the set, or an address of it. */
  lemma EntriesOf(s: ModeSet, w: Walk)
    requires IsWalk(w, s)
    ensures forall e :: e in Entries(s, w) ==>
              (e.0 in s.args && e.1 == s.args[e.0]) || (e.0 in s.addresses && e.1 in s.addresses[e.0])
  {
    assert forall m :: m in w.args ==> m in Elements(w.args);
    assert forall m :: m in w.addresses ==> m in Elements(w.addresses);
    ArgEntryAt(s, w.args);
    AddressEntryAt(s, w.addresses);
  }

  lemma PrintedLetters(s: ModeSet, w: Walk)
    requires IsWalk(w, s) && PlainLetters(s)
    ensures SpaceFree(w.flags + LettersOf(Entries(s, w)))
  {
    var es := Entries(s, w);
    EntriesOf(s, w);
    EntryWords(es);
    forall c | c in w.flags + LettersOf(es) ensures !IsSpace(c) {
      if c in w.flags {
        assert c in Elements(w.flags);
      } else {
        var i :| 0 <= i < |es| && LettersOf(es)[i] == c;
        assert es[i] in es;
      }
    }
  }

  lemma PrintedWords(s: ModeSet, w: Walk)
    requires IsWalk(w, s) && Printable(s)
    ensures forall a :: a in ArgumentsOf(Entries(s, w)) ==> PlainWord(a)
  {
    var es := Entries(s, w);
    EntriesOf(s, w);
    EntryWords(es);
    forall a | a in ArgumentsOf(es) ensures PlainWord(a) {
      var i :| 0 <= i < |es| && ArgumentsOf(es)[i] == a;
      assert es[i] in es;
    }
  }

  lemma PrintedKinds(k: ModeKinds, s: ModeSet, w: Walk)
    requires IsWalk(w, s) && Kinded(k, s)
    ensures FlagLetters(k, w.flags) && KeyedEntries(k, Entries(s, w))
  {
    assert forall m :: m in w.flags ==> m in Elements(w.flags);
    EntriesOf(s, w);
  }

  lemma PrintSplits(k: ModeKinds, s: ModeSet, w: Walk)
    requires Printable(s) && IsWalk(w, s)
    ensures var es := Entries(s, w);
            OpsOf(k, Print(s, w)) == Ops(k, w.flags + LettersOf(es), true, ArgumentsOf(es))
  {
    var es := Entries(s, w);
    var letters, args := w.flags + LettersOf(es), ArgumentsOf(es);
    PrintedLetters(s, w);
    PrintedWords(s, w);
    EntryWords(es);
    if letters == "" {
      assert Print(s, w) == "";
      assert OpsOf(k, "") == [];
    } else {
      assert Print(s, w) == Join([letters] + args, ' ') by {
        assert ([letters] + args)[1..] == args;
      }
      OpsOfWords(k, letters, args);
    }
  }

  /** The printed set reads back as its flags and entries. */
  lemma PrintReads(k: ModeKinds, s: ModeSet, w: Walk)
    requires Kinded(k, s) && Printable(s) && IsWalk(w, s)
    ensures OpsOf(k, Print(s, w)) == PrintedOps(k, s, w, true)
  {
    var es := Entries(s, w);
    var letters, args := LettersOf(es), ArgumentsOf(es);
    PrintSplits(k, s, w);
    PrintedKinds(k, s, w);
    ReadFlags(k, w.flags, letters, true, args);
    ReadPositive(k, es, "", []);
    assert letters + "" == letters && args + [] == args;
    assert Ops(k, "", true, []) == [];
  }

  /** Whatever order the maps are walked in, applying the printed set to an empty one rebuilds
      the same flags, arguments and address lists. */
  lemma PrintApplies(k: ModeKinds, s: ModeSet, w: Walk)
    requires Valid(s) && Kinded(k, s) && Printable(s) && IsWalk(w, s)
    ensures Run(EMPTY_SET, OpsOf(k, Print(s, w))) == s
  {
    PrintReads(k, s, w);
    BuildSet(k, s, w);
  }

  /** The same for every set reached by applying modestrings one after the other. */
  lemma ReachedPrintApplies(k: ModeKinds, modestrings: seq<string>, w: Walk)
    requires Printable(Reached(k, modestrings)) && IsWalk(w, Reached(k, modestrings))
    ensures Run(EMPTY_SET, OpsOf(k, Print(Reached(k, modestrings), w))) == Reached(k, modestrings)
  {
    ReachedKeeps(k, modestrings);
    PrintApplies(k, Reached(k, modestrings), w);
  }

  function Reached(k: ModeKinds, modestrings: seq<string>): ModeSet {
    if modestrings == [] then EMPTY_SET
    else Run(Reached(k, modestrings[..|modestrings| - 1]), OpsOf(k, modestrings[|modestrings| - 1]))
  }

  lemma {:induction false} ReachedKeeps(k: ModeKinds, modestrings: seq<string>)
    ensures Valid(Reached(k, modestrings)) && Kinded(k, Reached(k, modestrings))
  {
    if modestrings != [] {
      var init, last := modestrings[..|modestrings| - 1], modestrings[|modestrings| - 1];
      ReachedKeeps(k, init);
      var splits := Split(TrimSpace(last), ' ');
      OpsFit(k, splits[0], true, splits[1..]);
      RunKeepsValid(Reached(k, init), OpsOf(k, last));
      RunKeepsKinded(k, Reached(k, init), OpsOf(k, last));
    }
  }
}
