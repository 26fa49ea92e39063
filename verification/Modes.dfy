/** The mutable mode set and mode diff, and the loop that applies a modestring to either. */
module Modes {
  import opened Seqs
  import opened Text
  import opened ModeSets
  import opened ModeParsing
  import opened ModeLaws
  import opened ModePrinting
  import opened DiffPrinting

  /** The number of addresses listed under `keys`. */
  ghost function Total(lists: map<char, seq<string>>, keys: set<char>): nat
    requires keys <= lists.Keys
  {
    if keys == {} then 0
    else
      var m :| m in keys;
      |lists[m]| + Total(lists, keys - {m})
  }

  lemma {:induction false} TotalWithout(lists: map<char, seq<string>>, keys: set<char>, m: char)
    requires keys <= lists.Keys && m in keys
    ensures Total(lists, keys) == |lists[m]| + Total(lists, keys - {m})
  {
    var n :| n in keys && Total(lists, keys) == |lists[n]| + Total(lists, keys - {n});
    if n != m {
      TotalWithout(lists, keys - {n}, m);
      TotalWithout(lists, keys - {m}, n);
      assert keys - {n} - {m} == keys - {m} - {n};
    }
  }

  lemma {:induction false} TotalSame(a: map<char, seq<string>>, b: map<char, seq<string>>, keys: set<char>)
    requires keys <= a.Keys && keys <= b.Keys && forall m :: m in keys ==> a[m] == b[m]
    ensures Total(a, keys) == Total(b, keys)
    decreases keys
  {
    if keys != {} {
      var m :| m in keys;
      TotalWithout(a, keys, m);
      TotalWithout(b, keys, m);
      TotalSame(a, b, keys - {m});
    }
  }

  ghost function AllAddresses(lists: map<char, seq<string>>): nat {
    Total(lists, lists.Keys)
  }

  lemma TotalStored(lists: map<char, seq<string>>, m: char, list: seq<string>)
    ensures AllAddresses(lists[m := list]) ==
            AllAddresses(lists) + |list| - if m in lists then |lists[m]| else 0
  {
    var stored := lists[m := list];
    var others := lists.Keys - {m};
    TotalWithout(stored, stored.Keys, m);
    assert stored.Keys - {m} == others;
    TotalSame(lists, stored, others);
    if m in lists {
      TotalWithout(lists, lists.Keys, m);
    } else {
      assert others == lists.Keys;
    }
  }

  lemma TotalDropped(lists: map<char, seq<string>>, m: char)
    requires m in lists
    ensures AllAddresses(lists - {m}) == AllAddresses(lists) - |lists[m]|
  {
    TotalWithout(lists, lists.Keys, m);
    assert (lists - {m}).Keys == lists.Keys - {m};
    TotalSame(lists, lists - {m}, lists.Keys - {m});
  }

  /** Everything in `p` was set. */
  ghost predicate GivenAll(s: ModeSet, p: ModeSet, r: ModeSet) {
    && r.flags == s.flags + p.flags
    && r.args == s.args + p.args
    && forall m :: AddressList(r, m) ==
         if m in p.addresses then AddAll(AddressList(s, m), p.addresses[m]) else AddressList(s, m)
  }

  /** Everything in `n` was unset. */
  ghost predicate TakenAll(s: ModeSet, n: ModeSet, r: ModeSet) {
    && r.flags == s.flags - n.flags
    && (forall m :: ArgOf(r, m) == if m in n.args then StepArg(ArgOf(s, m), Cut(n.args[m])) else ArgOf(s, m))
    && forall m :: AddressList(r, m) ==
         if m in n.addresses then RemoveAll(AddressList(s, m), n.addresses[m]) else AddressList(s, m)
  }

  lemma GivenThenTaken(s: ModeSet, d: DiffSet, given: ModeSet, r: ModeSet)
    requires GivenAll(s, d.pos, given) && TakenAll(given, d.neg, r)
    ensures DiffApplied(s, d, r)
  {
    forall m
      ensures ArgOf(r, m) == AppliedArg(ArgOf(s, m), ArgOf(d.pos, m), ArgOf(d.neg, m))
      ensures AddressList(r, m) == RemoveAll(AddAll(AddressList(s, m), AddressList(d.pos, m)), AddressList(d.neg, m))
    {
      assert ArgOf(given, m) == if m in d.pos.args then Some(d.pos.args[m]) else ArgOf(s, m);
      assert AddressList(given, m) == AddAll(AddressList(s, m), AddressList(d.pos, m));
    }
  }

  lemma {:induction false} EntriesSnoc(es: seq<Entry>, e: Entry)
    ensures LettersOf(es + [e]) == LettersOf(es) + [e.0]
    ensures ArgumentsOf(es + [e]) == ArgumentsOf(es) + [e.1]
    decreases |es|
  {
    if es != [] {
      assert (es + [e])[1..] == es[1..] + [e];
      EntriesSnoc(es[1..], e);
    }
  }

  /** The letters and arguments written so far are those of `es`, after the flags. */
  ghost predicate Filled(letters: string, args: seq<string>, flags: string, es: seq<Entry>) {
    letters == flags + LettersOf(es) && args == ArgumentsOf(es)
  }

  lemma FilledSnoc(letters: string, args: seq<string>, flags: string, es: seq<Entry>, e: Entry)
    requires Filled(letters, args, flags, es)
    ensures Filled(letters + [e.0], args + [e.1], flags, es + [e])
  {
    EntriesSnoc(es, e);
  }

  lemma OrderSnoc(order: string, keys: set<char>, todo: set<char>, m: char)
    requires NoDuplicates(order) && todo <= keys && Elements(order) == keys - todo && m in todo
    ensures NoDuplicates(order + [m]) && Elements(order + [m]) == keys - (todo - {m})
  {
    assert m !in Elements(order);
    assert Elements(order + [m]) == Elements(order) + {m};
  }

  lemma {:induction false} ArgEntriesSnoc(s: ModeSet, order: string, m: char)
    requires m in s.args
    ensures ArgEntries(s, order + [m]) == ArgEntries(s, order) + [(m, s.args[m])]
  {
    if order != "" {
      assert (order + [m])[1..] == order[1..] + [m];
      ArgEntriesSnoc(s, order[1..], m);
    } else {
      assert order + [m] == [m];
    }
  }

  lemma {:induction false} ListEntriesSnoc(m: char, list: seq<string>, j: nat)
    requires j < |list|
    ensures ListEntries(m, list[..j + 1]) == ListEntries(m, list[..j]) + [(m, list[j])]
  {
    ListEntryAt(m, list[..j + 1]);
    ListEntryAt(m, list[..j]);
  }

  lemma {:induction false} AddressEntriesSnoc(s: ModeSet, order: string, m: char)
    ensures AddressEntries(s, order + [m]) == AddressEntries(s, order) + ListEntries(m, AddressList(s, m))
  {
    if order != "" {
      assert (order + [m])[1..] == order[1..] + [m];
      AddressEntriesSnoc(s, order[1..], m);
    } else {
      assert order + [m] == [m];
    }
  }

  class ChannelModes {
    var modes: set<char>
    var argModes: map<char, string>
    var addressModes: map<char, seq<string>>
    var addresses: int
    const kinds: ModeKinds

    ghost function Value(): ModeSet
      reads this
    {
      ModeSet(modes, argModes, addressModes)
    }

    /** The lists are duplicate-free and non-empty, and the counter counts them. */
    ghost predicate Ok()
      reads this
    {
      Valid(Value()) && addresses == AllAddresses(addressModes)
    }

    constructor (kinds: ModeKinds)
      ensures Ok() && Value() == EMPTY_SET && this.kinds == kinds
    {
      modes, argModes, addressModes, addresses := {}, map[], map[], 0;
      this.kinds := kinds;
    }

    method SetMode(mode: char)
      requires Ok()
      modifies this
      ensures Ok() && Value() == Step(old(Value()), ModeOp.SetMode(mode))
    {
      modes := modes + {mode};
    }

    method UnsetMode(mode: char)
      requires Ok()
      modifies this
      ensures Ok() && Value() == Step(old(Value()), ModeOp.UnsetMode(mode))
    {
      modes := modes - {mode};
    }

    method SetArg(mode: char, arg: string)
      requires Ok()
      modifies this
      ensures Ok() && Value() == Step(old(Value()), ModeOp.SetArg(mode, arg))
    {
      argModes := argModes[mode := arg];
    }

    method UnsetArg(mode: char, arg: string)
      requires Ok()
      modifies this
      ensures Ok() && Value() == Step(old(Value()), ModeOp.UnsetArg(mode, arg))
    {
      if mode in argModes && (|arg| == 0 || arg == argModes[mode]) {
        argModes := argModes - {mode};
      }
    }

    method FindAddress(list: seq<string>, address: string) returns (i: nat)
      ensures i == IndexOf(list, address)
    {
      i := 0;
      while i < |list| && list[i] != address
        invariant i <= |list| && address !in list[..i]
      {
        assert list[..i + 1] == list[..i] + [list[i]];
        i := i + 1;
      }
      assert i < |list| ==> IndexOf(list, address) == i;
    }

    method SetAddress(mode: char, address: string)
      requires Ok()
      modifies this
      ensures Ok() && Value() == Step(old(Value()), ModeOp.SetAddress(mode, address))
    {
      StepKeepsValid(Value(), ModeOp.SetAddress(mode, address));
      if mode !in addressModes {
        TotalStored(addressModes, mode, [address]);
        addressModes := addressModes[mode := [address]];
        addresses := addresses + 1;
        assert [] + [address] == [address];
      } else {
        var list := addressModes[mode];
        var i := FindAddress(list, address);
        if i >= |list| {
          TotalStored(addressModes, mode, list + [address]);
          addressModes := addressModes[mode := list + [address]];
          addresses := addresses + 1;
        }
      }
    }

    method UnsetAddress(mode: char, address: string)
      requires Ok()
      modifies this
      ensures Ok() && Value() == Step(old(Value()), ModeOp.UnsetAddress(mode, address))
    {
      StepKeepsValid(Value(), ModeOp.UnsetAddress(mode, address));
      if mode in addressModes {
        var list := addressModes[mode];
        var i := FindAddress(list, address);
        if i < |list| {
          if |list| == 1 {
            TotalDropped(addressModes, mode);
            addressModes := addressModes - {mode};
          } else {
            if i < |list| - 1 {
              list := list[i := list[|list| - 1]][|list| - 1 := list[i]];
            }
            list := list[..|list| - 1];
            assert list == RemoveSwap(old(addressModes)[mode], address);
            TotalStored(addressModes, mode, list);
            addressModes := addressModes[mode := list];
          }
          addresses := addresses - 1;
        }
      }
    }

    /** Applies a diff; each map is walked in an arbitrary order. */
    method ApplyDiff(d: ModeDiff)
      requires Ok() && d.Ok() && this != d.pos && this != d.neg
      modifies this
      ensures Ok() && DiffApplied(old(Value()), d.Value(), Value())
    {
      ghost var before, diff := Value(), d.Value();
      Give(d.pos);
      ghost var given := Value();
      assert d.Value() == diff;
      Take(d.neg);
      GivenThenTaken(before, diff, given, Value());
    }

    method Give(p: ChannelModes)
      requires Ok() && p != this
      modifies this
      ensures Ok() && GivenAll(old(Value()), p.Value(), Value())
    {
      AddModes(p.modes);
      AddArgs(p.argModes);
      AddAddresses(p.addressModes);
    }

    method Take(n: ChannelModes)
      requires Ok() && n != this
      modifies this
      ensures Ok() && TakenAll(old(Value()), n.Value(), Value())
    {
      ghost var before := Value();
      RemoveModes(n.modes);
      assert forall m :: ArgOf(Value(), m) == ArgOf(before, m) && AddressList(Value(), m) == AddressList(before, m);
      RemoveArgs(n.argModes);
      assert forall m :: AddressList(Value(), m) == AddressList(before, m);
      ghost var cut := Value();
      RemoveAddresses(n.addressModes);
      assert forall m :: ArgOf(Value(), m) == ArgOf(cut, m);
    }

    /** Fills one slot per letter and one per argument; the slots are counted beforehand, from the
        sizes of the maps and the counter of addresses. */
    method String() returns (text: string, ghost w: Walk)
      requires Ok()
      ensures IsWalk(w, Value()) && text == Print(Value(), w)
    {
      var argLength := |argModes| + addresses;
      var letters := new char[|modes| + argLength](_ => '\0');
      var args := new string[argLength](_ => "");
      ghost var flagOrder := PrintFlags(letters);
      ghost var argOrder := PrintArgs(letters, args, flagOrder);
      ghost var addressOrder := PrintAddresses(letters, args, flagOrder, ArgEntries(Value(), argOrder));
      w := Walk(flagOrder, argOrder, addressOrder);
      EntryWords(Entries(Value(), w));
      if argLength == 0 {
        text := letters[..];
      } else {
        text := letters[..] + " " + Join(args[..], ' ');
      }
    }

    method PrintFlags(letters: array<char>) returns (ghost order: string)
      requires letters.Length >= |modes|
      modifies letters
      ensures IsOrder(order, modes) && |order| == |modes| && letters[..|order|] == order
    {
      var index := 0;
      var todo := modes;
      order := "";
      while todo != {}
        invariant todo <= modes && index == |order| && index + |todo| == |modes|
        invariant NoDuplicates(order) && Elements(order) == modes - todo
        invariant letters[..index] == order
        decreases todo
      {
        var mode :| mode in todo;
        letters[index] := mode;
        assert letters[..index + 1] == order + [mode];
        assert mode !in Elements(order);
        index := index + 1;
        todo := todo - {mode};
        assert Elements(order + [mode]) == Elements(order) + {mode};
        order := order + [mode];
      }
    }

    method PrintArgs(letters: array<char>, args: array<string>, ghost flagOrder: string) returns (ghost order: string)
      requires args.Length >= |argModes| && letters.Length >= |modes| + |argModes| && letters[..|modes|] == flagOrder
      modifies letters, args
      ensures IsOrder(order, argModes.Keys) && |order| == |argModes|
      ensures Filled(letters[..|modes| + |order|], args[..|order|], flagOrder, ArgEntries(Value(), order))
    {
      ghost var value := Value();
      var index, argIndex := |modes|, 0;
      var todo := argModes.Keys;
      order := "";
      while todo != {}
        invariant todo <= argModes.Keys && argIndex == |order| && argIndex + |todo| == |argModes|
        invariant index == |modes| + argIndex
        invariant NoDuplicates(order) && Elements(order) == argModes.Keys - todo
        invariant Filled(letters[..index], args[..argIndex], flagOrder, ArgEntries(value, order))
        decreases todo
      {
        var mode :| mode in todo;
        FilledSnoc(letters[..index], args[..argIndex], flagOrder, ArgEntries(value, order), (mode, argModes[mode]));
        ArgEntriesSnoc(value, order, mode);
        Fill(letters, args, index, argIndex, mode, argModes[mode]);
        OrderSnoc(order, argModes.Keys, todo, mode);
        index, argIndex := index + 1, argIndex + 1;
        todo := todo - {mode};
        order := order + [mode];
      }
    }

    /** Writes one letter and its argument into the next slots. */
    method Fill(letters: array<char>, args: array<string>, index: nat, argIndex: nat, mode: char, arg: string)
      requires index < letters.Length && argIndex < args.Length
      modifies letters, args
      ensures letters[..index + 1] == old(letters[..index]) + [mode]
      ensures args[..argIndex + 1] == old(args[..argIndex]) + [arg]
    {
      letters[index] := mode;
      args[argIndex] := arg;
    }

    lemma AddressesGrow(first: seq<Entry>, value: ModeSet, order: string, mode: char)
      requires mode in value.addresses
      ensures first + AddressEntries(value, order + [mode]) ==
              first + AddressEntries(value, order) + ListEntries(mode, value.addresses[mode])
    {
      AddressEntriesSnoc(value, order, mode);
      Associate(first, AddressEntries(value, order), ListEntries(mode, value.addresses[mode]));
    }

    method PrintAddresses(letters: array<char>, args: array<string>, ghost flagOrder: string, ghost first: seq<Entry>)
      returns (ghost order: string)
      requires Ok() && args.Length == |argModes| + addresses && letters.Length == |modes| + args.Length
      requires Filled(letters[..|modes| + |argModes|], args[..|argModes|], flagOrder, first)
      modifies letters, args
      ensures IsOrder(order, addressModes.Keys)
      ensures Filled(letters[..], args[..], flagOrder, first + AddressEntries(Value(), order))
    {
      ghost var value := Value();
      var index: nat, argIndex: nat := |modes| + |argModes|, |argModes|;
      var todo := addressModes.Keys;
      order := "";
      assert first + AddressEntries(value, "") == first;
      while todo != {}
        invariant todo <= addressModes.Keys && index == |modes| + argIndex
        invariant argIndex + Total(addressModes, todo) == args.Length
        invariant NoDuplicates(order) && Elements(order) == addressModes.Keys - todo
        invariant Filled(letters[..index], args[..argIndex], flagOrder, first + AddressEntries(value, order))
        decreases todo
      {
        var mode :| mode in todo;
        var list := addressModes[mode];
        TotalWithout(addressModes, todo, mode);
        AddressesGrow(first, value, order, mode);
        PrintList(letters, args, index, argIndex, mode, list, flagOrder, first + AddressEntries(value, order));
        OrderSnoc(order, addressModes.Keys, todo, mode);
        index, argIndex := index + |list|, argIndex + |list|;
        todo := todo - {mode};
        order := order + [mode];
      }
      assert letters[..index] == letters[..] && args[..argIndex] == args[..];
    }

    method PrintList(letters: array<char>, args: array<string>, start: nat, argStart: nat, mode: char,
                     list: seq<string>, ghost flagOrder: string, ghost done: seq<Entry>)
      requires start + |list| <= letters.Length && argStart + |list| <= args.Length
      requires Filled(letters[..start], args[..argStart], flagOrder, done)
      modifies letters, args
      ensures Filled(letters[..start + |list|], args[..argStart + |list|], flagOrder, done + ListEntries(mode, list))
    {
      assert done + ListEntries(mode, list[..0]) == done;
      for j := 0 to |list|
        invariant Filled(letters[..start + j], args[..argStart + j], flagOrder, done + ListEntries(mode, list[..j]))
      {
        var es := done + ListEntries(mode, list[..j]);
        FilledSnoc(letters[..start + j], args[..argStart + j], flagOrder, es, (mode, list[j]));
        ListEntriesSnoc(mode, list, j);
        assert es + [(mode, list[j])] == done + ListEntries(mode, list[..j + 1]);
        Fill(letters, args, start + j, argStart + j, mode, list[j]);
      }
      assert list[..|list|] == list;
    }

    method Apply(modestring: string) returns (given: seq<UserMode>, taken: seq<UserMode>)
      requires Ok()
      modifies this
      ensures Ok() && Value() == Run(old(Value()), OpsOf(kinds, modestring))
      ensures given == Given(OpsOf(kinds, modestring)) && taken == Taken(OpsOf(kinds, modestring))
    {
      given, taken := Direct(this).ApplyTo(modestring);
    }

    method AddModes(given: set<char>)
      requires Ok()
      modifies this
      ensures Ok() && Value() == old(Value()).(flags := old(modes) + given)
    {
      var todo := given;
      while todo != {}
        invariant Ok() && todo <= given
        invariant Value() == old(Value()).(flags := old(modes) + (given - todo))
        decreases todo
      {
        var mode :| mode in todo;
        SetMode(mode);
        todo := todo - {mode};
        assert old(modes) + (given - todo) == modes;
      }
    }

    method RemoveModes(taken: set<char>)
      requires Ok()
      modifies this
      ensures Ok() && Value() == old(Value()).(flags := old(modes) - taken)
    {
      var todo := taken;
      while todo != {}
        invariant Ok() && todo <= taken
        invariant Value() == old(Value()).(flags := old(modes) - (taken - todo))
        decreases todo
      {
        var mode :| mode in todo;
        UnsetMode(mode);
        todo := todo - {mode};
        assert old(modes) - (taken - todo) == modes;
      }
    }

    method AddArgs(given: map<char, string>)
      requires Ok()
      modifies this
      ensures Ok() && modes == old(modes) && addressModes == old(addressModes)
      ensures argModes == old(argModes) + given
    {
      var todo := given.Keys;
      while todo != {}
        invariant Ok() && todo <= given.Keys && modes == old(modes) && addressModes == old(addressModes)
        invariant argModes == old(argModes) + (given - todo)
        decreases todo
      {
        var mode :| mode in todo;
        SetArg(mode, given[mode]);
        todo := todo - {mode};
      }
      assert given - todo == given;
    }

    method RemoveArgs(taken: map<char, string>)
      requires Ok()
      modifies this
      ensures Ok() && modes == old(modes) && addressModes == old(addressModes)
      ensures forall m :: ArgOf(Value(), m) ==
                if m in taken then StepArg(old(ArgOf(Value(), m)), Cut(taken[m])) else old(ArgOf(Value(), m))
    {
      var todo := taken.Keys;
      while todo != {}
        invariant Ok() && todo <= taken.Keys && modes == old(modes) && addressModes == old(addressModes)
        invariant forall m :: ArgOf(Value(), m) ==
                    if m in taken && m !in todo then StepArg(old(ArgOf(Value(), m)), Cut(taken[m]))
                    else old(ArgOf(Value(), m))
        decreases todo
      {
        var mode :| mode in todo;
        ghost var value := Value();
        UnsetArg(mode, taken[mode]);
        forall m ensures ArgOf(Value(), m) == if m == mode then StepArg(ArgOf(value, m), Cut(taken[m])) else ArgOf(value, m) {
          StepArgOf(value, ModeOp.UnsetArg(mode, taken[mode]), m);
        }
        todo := todo - {mode};
      }
    }

    method AddList(mode: char, list: seq<string>)
      requires Ok()
      modifies this
      ensures Ok() && modes == old(modes) && argModes == old(argModes)
      ensures AddressList(Value(), mode) == AddAll(old(AddressList(Value(), mode)), list)
      ensures forall m :: m != mode ==> AddressList(Value(), m) == old(AddressList(Value(), m))
    {
      for i := 0 to |list|
        invariant Ok() && modes == old(modes) && argModes == old(argModes)
        invariant AddressList(Value(), mode) == AddAll(old(AddressList(Value(), mode)), list[..i])
        invariant forall m :: m != mode ==> AddressList(Value(), m) == old(AddressList(Value(), m))
      {
        assert list[..i + 1][..i] == list[..i];
        SetAddress(mode, list[i]);
      }
      assert list[..|list|] == list;
    }

    method AddAddresses(given: map<char, seq<string>>)
      requires Ok()
      modifies this
      ensures Ok() && modes == old(modes) && argModes == old(argModes)
      ensures forall m :: AddressList(Value(), m) ==
                if m in given then AddAll(old(AddressList(Value(), m)), given[m]) else old(AddressList(Value(), m))
    {
      var todo := given.Keys;
      while todo != {}
        invariant Ok() && todo <= given.Keys && modes == old(modes) && argModes == old(argModes)
        invariant forall m :: AddressList(Value(), m) ==
                    if m in given && m !in todo then AddAll(old(AddressList(Value(), m)), given[m])
                    else old(AddressList(Value(), m))
        decreases todo
      {
        var mode :| mode in todo;
        AddList(mode, given[mode]);
        todo := todo - {mode};
      }
    }

    method RemoveList(mode: char, list: seq<string>)
      requires Ok()
      modifies this
      ensures Ok() && modes == old(modes) && argModes == old(argModes)
      ensures AddressList(Value(), mode) == RemoveAll(old(AddressList(Value(), mode)), list)
      ensures forall m :: m != mode ==> AddressList(Value(), m) == old(AddressList(Value(), m))
    {
      for i := 0 to |list|
        invariant Ok() && modes == old(modes) && argModes == old(argModes)
        invariant AddressList(Value(), mode) == RemoveAll(old(AddressList(Value(), mode)), list[..i])
        invariant forall m :: m != mode ==> AddressList(Value(), m) == old(AddressList(Value(), m))
      {
        assert list[..i + 1][..i] == list[..i];
        UnsetAddress(mode, list[i]);
      }
      assert list[..|list|] == list;
    }

    method RemoveAddresses(taken: map<char, seq<string>>)
      requires Ok()
      modifies this
      ensures Ok() && modes == old(modes) && argModes == old(argModes)
      ensures forall m :: AddressList(Value(), m) ==
                if m in taken then RemoveAll(old(AddressList(Value(), m)), taken[m]) else old(AddressList(Value(), m))
    {
      var todo := taken.Keys;
      while todo != {}
        invariant Ok() && todo <= taken.Keys && modes == old(modes) && argModes == old(argModes)
        invariant forall m :: AddressList(Value(), m) ==
                    if m in taken && m !in todo then RemoveAll(old(AddressList(Value(), m)), taken[m])
                    else old(AddressList(Value(), m))
        decreases todo
      {
        var mode :| mode in todo;
        RemoveList(mode, taken[mode]);
        todo := todo - {mode};
      }
    }
  }

  class ModeDiff {
    const kinds: ModeKinds
    const pos: ChannelModes
    const neg: ChannelModes

    ghost predicate Ok()
      reads this, pos, neg
    {
      pos != neg && pos.kinds == kinds && neg.kinds == kinds && pos.Ok() && neg.Ok()
    }

    ghost function Value(): DiffSet
      reads this, pos, neg
    {
      DiffSet(pos.Value(), neg.Value())
    }

    constructor (kinds: ModeKinds)
      ensures Ok() && Value() == EMPTY_DIFF && this.kinds == kinds && fresh(pos) && fresh(neg)
    {
      this.kinds := kinds;
      pos := new ChannelModes(kinds);
      neg := new ChannelModes(kinds);
    }

    method SetMode(mode: char)
      requires Ok()
      modifies pos, neg
      ensures Ok() && Value() == StepDiff(old(Value()), ModeOp.SetMode(mode))
    {
      pos.SetMode(mode);
      neg.UnsetMode(mode);
    }

    method UnsetMode(mode: char)
      requires Ok()
      modifies pos, neg
      ensures Ok() && Value() == StepDiff(old(Value()), ModeOp.UnsetMode(mode))
    {
      pos.UnsetMode(mode);
      neg.SetMode(mode);
    }

    method SetArg(mode: char, arg: string)
      requires Ok()
      modifies pos, neg
      ensures Ok() && Value() == StepDiff(old(Value()), ModeOp.SetArg(mode, arg))
    {
      pos.SetArg(mode, arg);
      neg.UnsetArg(mode, arg);
    }

    method UnsetArg(mode: char, arg: string)
      requires Ok()
      modifies pos, neg
      ensures Ok() && Value() == StepDiff(old(Value()), ModeOp.UnsetArg(mode, arg))
    {
      pos.UnsetArg(mode, arg);
      neg.SetArg(mode, arg);
    }

    method SetAddress(mode: char, address: string)
      requires Ok()
      modifies pos, neg
      ensures Ok() && Value() == StepDiff(old(Value()), ModeOp.SetAddress(mode, address))
    {
      pos.SetAddress(mode, address);
      neg.UnsetAddress(mode, address);
    }

    method UnsetAddress(mode: char, address: string)
      requires Ok()
      modifies pos, neg
      ensures Ok() && Value() == StepDiff(old(Value()), ModeOp.UnsetAddress(mode, address))
    {
      pos.UnsetAddress(mode, address);
      neg.SetAddress(mode, address);
    }

    method String() returns (text: string, ghost wp: Walk, ghost wn: Walk)
      requires Ok()
      ensures IsWalk(wp, Value().pos) && IsWalk(wn, Value().neg)
      ensures text == PrintDiff(Print(Value().pos, wp), Print(Value().neg, wn))
    {
      var posText, negText;
      ghost var value := Value();
      posText, wp := pos.String();
      assert posText == Print(value.pos, wp);
      negText, wn := neg.String();
      assert negText == Print(value.neg, wn);
      text := Combine(posText, negText);
    }

    method Combine(posText: string, negText: string) returns (text: string)
      ensures text == PrintDiff(posText, negText)
    {
      var plus, posArgs := Signed('+', posText);
      var minus, negArgs := Signed('-', negText);
      text := plus + minus + (posArgs + negArgs);
      Associate(plus + minus, posArgs, negArgs);
    }

    /** One half: its letters behind the sign, and its arguments. */
    method Signed(sign: char, text: string) returns (letters: string, rest: string)
      ensures letters == (if text == "" then "" else [sign] + text[..IndexOf(text, ' ')])
      ensures rest == text[IndexOf(text, ' ')..]
    {
      letters, rest := "", "";
      if |text| > 0 {
        letters, rest := SplitPrinted(text);
        letters := [sign] + letters;
      }
    }

    /** The letters before the first space, and the rest with that space in front. */
    method SplitPrinted(text: string) returns (letters: string, rest: string)
      ensures letters == text[..IndexOf(text, ' ')] && rest == text[IndexOf(text, ' ')..]
    {
      var space := IndexOf(text, ' ');
      rest := "";
      if space < |text| {
        rest := " " + text[space + 1..];
      }
      letters := text[..space];
    }

    method Apply(modestring: string) returns (given: seq<UserMode>, taken: seq<UserMode>)
      requires Ok()
      modifies pos, neg
      ensures Ok() && Value() == RunDiff(old(Value()), OpsOf(kinds, modestring))
      ensures given == Given(OpsOf(kinds, modestring)) && taken == Taken(OpsOf(kinds, modestring))
    {
      given, taken := Diffing(this).ApplyTo(modestring);
    }
  }

  datatype ModerValue = SetValue(set_: ModeSet) | DiffValue(diff: DiffSet)

  function StepModer(v: ModerValue, op: ModeOp): ModerValue {
    match v
    case SetValue(s) => SetValue(Step(s, op))
    case DiffValue(d) => DiffValue(StepDiff(d, op))
  }

  function RunModer(v: ModerValue, ops: seq<ModeOp>): ModerValue {
    match v
    case SetValue(s) => SetValue(Run(s, ops))
    case DiffValue(d) => DiffValue(RunDiff(d, ops))
  }

  lemma {:induction false} RunModerConcat(v: ModerValue, a: seq<ModeOp>, b: seq<ModeOp>)
    ensures RunModer(v, a + b) == RunModer(RunModer(v, a), b)
    ensures Given(a + b) == Given(a) + Given(b) && Taken(a + b) == Taken(a) + Taken(b)
  {
    if v.SetValue? {
      RunConcat(v.set_, a, b);
    } else {
      RunDiffConcat(v.diff, a, b);
    }
    UserModesConcat(a, b);
  }

  function OpList(op: Option<ModeOp>): seq<ModeOp> {
    if op.Some? then [op.value] else []
  }

  lemma RunModerList(v: ModerValue, op: Option<ModeOp>)
    ensures RunModer(v, OpList(op)) == if op.Some? then StepModer(v, op.value) else v
    ensures Given(OpList(op)) == if op.Some? && op.value.GiveUserMode? then [UserMode(op.value.mode, op.value.arg)] else []
    ensures Taken(OpList(op)) == if op.Some? && op.value.TakeUserMode? then [UserMode(op.value.mode, op.value.arg)] else []
  {
    if op.Some? {
      assert [op.value][..0] == [];
      assert v.SetValue? ==> Run(v.set_, [op.value]) == Step(v.set_, op.value);
      assert v.DiffValue? ==> RunDiff(v.diff, [op.value]) == StepDiff(v.diff, op.value);
    }
  }

  function NextAdding(mode: char, adding: bool): bool {
    if mode in "+-" then mode == '+' else adding
  }

  function NextUsed(k: ModeKinds, mode: char, adding: bool, args: seq<string>, used: nat): nat {
    if mode !in "+-" && Consumes(k, mode, adding) && used < |args| then used + 1 else used
  }

  function RuneOps(k: ModeKinds, mode: char, adding: bool, args: seq<string>): seq<ModeOp> {
    if mode in "+-" then [] else OpList(OpFor(k, mode, adding, args))
  }

  /** One turn of the loop, seen in the list of operations. */
  lemma ReadRune(k: ModeKinds, letters: string, i: nat, adding: bool, args: seq<string>, used: nat)
    requires i < |letters| && used <= |args|
    ensures Ops(k, letters[i..], adding, args[used..]) ==
            RuneOps(k, letters[i], adding, args[used..]) +
            Ops(k, letters[i + 1..], NextAdding(letters[i], adding), args[NextUsed(k, letters[i], adding, args, used)..])
  {
    assert letters[i..] == [letters[i]] + letters[i + 1..];
    if letters[i] in "+-" {
      OpsSign(k, letters[i], letters[i + 1..], adding, args[used..]);
    } else {
      OpsLetter(k, letters[i], letters[i + 1..], adding, args[used..]);
      if used < |args| {
        assert args[used..][1..] == args[used + 1..];
      }
    }
  }

  /** What a modestring can be applied to: the two implementers of the interface. */
  datatype Moder = Direct(modes: ChannelModes) | Diffing(diff: ModeDiff) {

    ghost function Footprint(): set<object> {
      match this
      case Direct(m) => {m}
      case Diffing(d) => {d.pos, d.neg}
    }

    ghost predicate Ok()
      reads if Direct? then {modes} else {diff, diff.pos, diff.neg}
    {
      match this
      case Direct(m) => m.Ok()
      case Diffing(d) => d.Ok()
    }

    ghost function Value(): ModerValue
      reads if Direct? then {modes} else {diff, diff.pos, diff.neg}
    {
      match this
      case Direct(m) => SetValue(m.Value())
      case Diffing(d) => DiffValue(d.Value())
    }

    function Kinds(): ModeKinds {
      match this
      case Direct(m) => m.kinds
      case Diffing(d) => d.kinds
    }

    /** Calls the setter or unsetter of the implementer. */
    method Call(op: ModeOp)
      requires Ok()
      modifies Footprint()
      ensures Ok() && Value() == StepModer(old(Value()), op)
    {
      match this
      case Direct(m) =>
        match op {
          case SetMode(mode) => m.SetMode(mode);
          case UnsetMode(mode) => m.UnsetMode(mode);
          case SetArg(mode, arg) => m.SetArg(mode, arg);
          case UnsetArg(mode, arg) => m.UnsetArg(mode, arg);
          case SetAddress(mode, arg) => m.SetAddress(mode, arg);
          case UnsetAddress(mode, arg) => m.UnsetAddress(mode, arg);
          case GiveUserMode(_, _) =>
          case TakeUserMode(_, _) =>
        }
      case Diffing(d) =>
        match op {
          case SetMode(mode) => d.SetMode(mode);
          case UnsetMode(mode) => d.UnsetMode(mode);
          case SetArg(mode, arg) => d.SetArg(mode, arg);
          case UnsetArg(mode, arg) => d.UnsetArg(mode, arg);
          case SetAddress(mode, arg) => d.SetAddress(mode, arg);
          case UnsetAddress(mode, arg) => d.UnsetAddress(mode, arg);
          case GiveUserMode(_, _) =>
          case TakeUserMode(_, _) =>
        }
    }

    /** The loop over a complex modestring: one pass over the letters, arguments consumed in order. */
    method ApplyTo(modestring: string) returns (pos: seq<UserMode>, neg: seq<UserMode>)
      requires Ok()
      modifies Footprint()
      ensures Ok() && Value() == RunModer(old(Value()), OpsOf(Kinds(), modestring))
      ensures pos == Given(OpsOf(Kinds(), modestring)) && neg == Taken(OpsOf(Kinds(), modestring))
    {
      var k := Kinds();
      var splits := Split(TrimSpace(modestring), ' ');
      var letters, args := splits[0], splits[1..];
      var adding := true;
      var used: nat := 0;
      pos, neg := [], [];
      ghost var start := Value();
      ghost var done: seq<ModeOp> := [];
      for i := 0 to |letters|
        invariant used <= |args| && Ok()
        invariant Ops(k, letters, true, args) == done + Ops(k, letters[i..], adding, args[used..])
        invariant Value() == RunModer(start, done)
        invariant pos == Given(done) && neg == Taken(done)
      {
        ReadRune(k, letters, i, adding, args, used);
        ghost var ops := RuneOps(k, letters[i], adding, args[used..]);
        Associate(done, ops, Ops(k, letters[i + 1..], NextAdding(letters[i], adding),
                                 args[NextUsed(k, letters[i], adding, args, used)..]));
        var given, taken;
        adding, used, given, taken := ApplyRune(letters[i], adding, args, used);
        pos, neg := pos + given, neg + taken;
        RunModerConcat(start, done, ops);
        done := done + ops;
      }
      assert done + [] == done;
    }

    /** The body of the loop: a sign turns the direction, a letter is applied. */
    method ApplyRune(mode: char, adding: bool, args: seq<string>, used: nat)
      returns (nowAdding: bool, nowUsed: nat, pos: seq<UserMode>, neg: seq<UserMode>)
      requires Ok() && used <= |args|
      modifies Footprint()
      ensures Ok()
      ensures nowAdding == NextAdding(mode, adding) && nowUsed == NextUsed(Kinds(), mode, adding, args, used)
      ensures var ops := RuneOps(Kinds(), mode, adding, args[used..]);
              Value() == RunModer(old(Value()), ops) && pos == Given(ops) && neg == Taken(ops)
    {
      nowAdding, nowUsed, pos, neg := adding, used, [], [];
      if mode == '+' || mode == '-' {
        nowAdding := mode == '+';
      } else {
        nowUsed, pos, neg := ApplyLetter(mode, adding, args, used);
        RunModerList(old(Value()), OpFor(Kinds(), mode, adding, args[used..]));
      }
    }

    /** The body of the loop for a letter that is not a sign. */
    method ApplyLetter(mode: char, adding: bool, args: seq<string>, used: nat)
      returns (nowUsed: nat, pos: seq<UserMode>, neg: seq<UserMode>)
      requires Ok() && used <= |args|
      modifies Footprint()
      ensures Ok()
      ensures nowUsed == used + if Consumes(Kinds(), mode, adding) && used < |args| then 1 else 0
      ensures var op := OpFor(Kinds(), mode, adding, args[used..]);
              && Value() == (if op.Some? then StepModer(old(Value()), op.value) else old(Value()))
              && pos == (if op.Some? && op.value.GiveUserMode? then [UserMode(mode, args[used])] else [])
              && neg == (if op.Some? && op.value.TakeUserMode? then [UserMode(mode, args[used])] else [])
    {
      var k := Kinds();
      nowUsed, pos, neg := used, [], [];
      var kind := k.KindOf(mode);
      if kind == ArgsAlways || kind == ArgsOnset {
        if adding {
          if used < |args| {
            Call(SetArg(mode, args[used]));
            nowUsed := used + 1;
          }
        } else if kind == ArgsAlways {
          if used < |args| {
            Call(UnsetArg(mode, args[used]));
            nowUsed := used + 1;
          }
        } else {
          Call(UnsetArg(mode, ""));
        }
      } else if kind == ArgsAddress {
        if used < |args| {
          Call(if adding then SetAddress(mode, args[used]) else UnsetAddress(mode, args[used]));
          nowUsed := used + 1;
        }
      } else if k.IsUserMode(mode) {
        if used < |args| {
          if adding {
            pos := [UserMode(mode, args[used])];
          } else {
            neg := [UserMode(mode, args[used])];
          }
          nowUsed := used + 1;
        }
      } else {
        Call(if adding then SetMode(mode) else UnsetMode(mode));
      }
    }
  }
}
