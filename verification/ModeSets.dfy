/** Mode sets and diffs as values: what each setter and unsetter does to the
    maps of `ChannelModes` and to the two halves of `ModeDiff`. */
module ModeSets {
  import opened Seqs

  /** `flags` is the key set of `modes`, whose values are never false. */
  datatype ModeSet = ModeSet(
    flags: set<char>,
    args: map<char, string>,
    addresses: map<char, seq<string>>)

  const EMPTY_SET := ModeSet({}, map[], map[])

  /** Address lists are never empty and hold no address twice. */
  ghost predicate Valid(s: ModeSet) {
    forall m :: m in s.addresses ==> s.addresses[m] != [] && NoDuplicates(s.addresses[m])
  }

  function ArgOf(s: ModeSet, m: char): Option<string> {
    if m in s.args then Some(s.args[m]) else None
  }

  function AddressesOf(s: ModeSet, m: char): set<string> {
    if m in s.addresses then Elements(s.addresses[m]) else {}
  }

  /** The same flags, the same arguments and, per mode, the same set of addresses. */
  ghost predicate SameModes(s: ModeSet, t: ModeSet) {
    && s.flags == t.flags
    && s.args == t.args
    && forall m :: AddressesOf(s, m) == AddressesOf(t, m)
  }

  datatype ModeOp =
    | SetMode(mode: char)
    | UnsetMode(mode: char)
    | SetArg(mode: char, arg: string)
    | UnsetArg(mode: char, arg: string)
    | SetAddress(mode: char, arg: string)
    | UnsetAddress(mode: char, arg: string)
    | GiveUserMode(mode: char, arg: string)
    | TakeUserMode(mode: char, arg: string)

  /** An argument is unset when the request is empty or names it exactly. */
  predicate Unsets(request: string, arg: string) {
    request == "" || request == arg
  }

  /** Swap with the last element, then drop it. */
  function RemoveSwap(list: seq<string>, address: string): seq<string>
    requires address in list
  {
    list[IndexOf(list, address) := list[|list| - 1]][..|list| - 1]
  }

  function AddOne(list: seq<string>, address: string): seq<string> {
    if address in list then list else list + [address]
  }

  function RemoveOne(list: seq<string>, address: string): seq<string> {
    if address in list then RemoveSwap(list, address) else list
  }

  function StoreAddresses(s: ModeSet, m: char, list: seq<string>): ModeSet {
    if list == [] then s.(addresses := s.addresses - {m}) else s.(addresses := s.addresses[m := list])
  }

  function AddressList(s: ModeSet, m: char): seq<string> {
    if m in s.addresses then s.addresses[m] else []
  }

  function Step(s: ModeSet, op: ModeOp): ModeSet {
    match op
    case SetMode(m) => s.(flags := s.flags + {m})
    case UnsetMode(m) => s.(flags := s.flags - {m})
    case SetArg(m, a) => s.(args := s.args[m := a])
    case UnsetArg(m, a) =>
      if m in s.args && Unsets(a, s.args[m]) then s.(args := s.args - {m}) else s
    case SetAddress(m, a) =>
      if a in AddressList(s, m) then s else StoreAddresses(s, m, AddOne(AddressList(s, m), a))
    case UnsetAddress(m, a) =>
      if a in AddressList(s, m) then StoreAddresses(s, m, RemoveOne(AddressList(s, m), a)) else s
    case GiveUserMode(_, _) => s
    case TakeUserMode(_, _) => s
  }

  function Run(s: ModeSet, ops: seq<ModeOp>): ModeSet {
    if ops == [] then s else Step(Run(s, ops[..|ops| - 1]), ops[|ops| - 1])
  }

  datatype DiffSet = DiffSet(pos: ModeSet, neg: ModeSet)

  const EMPTY_DIFF := DiffSet(EMPTY_SET, EMPTY_SET)

  /** The same change with the opposite sign. */
  function Opposite(op: ModeOp): ModeOp {
    match op
    case SetMode(m) => UnsetMode(m)
    case UnsetMode(m) => SetMode(m)
    case SetArg(m, a) => UnsetArg(m, a)
    case UnsetArg(m, a) => SetArg(m, a)
    case SetAddress(m, a) => UnsetAddress(m, a)
    case UnsetAddress(m, a) => SetAddress(m, a)
    case GiveUserMode(m, a) => TakeUserMode(m, a)
    case TakeUserMode(m, a) => GiveUserMode(m, a)
  }

  /** Every setter and unsetter of a diff does the change on `pos` and its opposite on `neg`. */
  function StepDiff(d: DiffSet, op: ModeOp): DiffSet {
    DiffSet(Step(d.pos, op), Step(d.neg, Opposite(op)))
  }

  function RunDiff(d: DiffSet, ops: seq<ModeOp>): DiffSet {
    if ops == [] then d else StepDiff(RunDiff(d, ops[..|ops| - 1]), ops[|ops| - 1])
  }

  function AddAll(list: seq<string>, more: seq<string>): seq<string> {
    if more == [] then list else AddOne(AddAll(list, more[..|more| - 1]), more[|more| - 1])
  }

  function RemoveAll(list: seq<string>, gone: seq<string>): seq<string> {
    if gone == [] then list else RemoveOne(RemoveAll(list, gone[..|gone| - 1]), gone[|gone| - 1])
  }

  /** What `ApplyDiff` leaves behind, whatever order the maps are walked in. */
  ghost predicate DiffApplied(s: ModeSet, d: DiffSet, r: ModeSet) {
    && r.flags == s.flags + d.pos.flags - d.neg.flags
    && (forall m :: ArgOf(r, m) == AppliedArg(ArgOf(s, m), ArgOf(d.pos, m), ArgOf(d.neg, m)))
    && (forall m :: AddressList(r, m) == RemoveAll(AddAll(AddressList(s, m), AddressList(d.pos, m)), AddressList(d.neg, m)))
  }

  function AppliedArg(before: Option<string>, pos: Option<string>, neg: Option<string>): Option<string> {
    var held := if pos.Some? then pos else before;
    if neg.Some? && held.Some? && Unsets(neg.value, held.value) then None else held
  }

  // ---- what every operation keeps -------------------------------------------------

  lemma RemoveSwapKeeps(list: seq<string>, address: string)
    requires address in list && NoDuplicates(list)
    ensures var r := RemoveSwap(list, address);
            |r| == |list| - 1 && NoDuplicates(r) && Elements(r) == Elements(list) - {address}
  {
    var r := RemoveSwap(list, address);
    var i := IndexOf(list, address);
    forall x ensures x in r <==> x in list && x != address {
      if x in list && x != address {
        var k :| 0 <= k < |list| && list[k] == x;
        if k == |list| - 1 {
          assert r[i] == x;
        } else {
          assert r[k] == x;
        }
      }
    }
  }

  /** The last address takes the removed one's place; the others stay where they are. */
  lemma RemoveSwapExactly(list: seq<string>, address: string, i: nat)
    requires i < |list| && list[i] == address && address !in list[..i]
    ensures var r, last := RemoveSwap(list, address), |list| - 1;
            |r| == last && forall j :: 0 <= j < last ==> r[j] == if j == i then list[last] else list[j]
  {
    assert forall j :: 0 <= j < i ==> list[..i][j] == list[j];
  }

  lemma {:induction false} AddAllKeeps(list: seq<string>, more: seq<string>)
    requires NoDuplicates(list)
    ensures NoDuplicates(AddAll(list, more))
    ensures Elements(AddAll(list, more)) == Elements(list) + Elements(more)
  {
    if more != [] {
      var init, last := more[..|more| - 1], more[|more| - 1];
      AddAllKeeps(list, init);
      assert more == init + [last];
      assert Elements(more) == Elements(init) + {last};
      assert Elements(AddAll(list, init) + [last]) == Elements(AddAll(list, init)) + {last};
    }
  }

  lemma {:induction false} RemoveAllKeeps(list: seq<string>, gone: seq<string>)
    requires NoDuplicates(list)
    ensures NoDuplicates(RemoveAll(list, gone))
    ensures Elements(RemoveAll(list, gone)) == Elements(list) - Elements(gone)
  {
    if gone != [] {
      var init := gone[..|gone| - 1];
      RemoveAllKeeps(list, init);
      if gone[|gone| - 1] in RemoveAll(list, init) {
        RemoveSwapKeeps(RemoveAll(list, init), gone[|gone| - 1]);
      }
      assert gone == init + [gone[|gone| - 1]];
    }
  }

  lemma DiffAppliedAddresses(s: ModeSet, d: DiffSet, r: ModeSet, m: char)
    requires Valid(s) && DiffApplied(s, d, r)
    ensures AddressesOf(r, m) == AddressesOf(s, m) + AddressesOf(d.pos, m) - AddressesOf(d.neg, m)
  {
    AddAllKeeps(AddressList(s, m), AddressList(d.pos, m));
    RemoveAllKeeps(AddAll(AddressList(s, m), AddressList(d.pos, m)), AddressList(d.neg, m));
    assert forall t: ModeSet :: AddressesOf(t, m) == Elements(AddressList(t, m));
  }

  lemma StepKeepsValid(s: ModeSet, op: ModeOp)
    requires Valid(s)
    ensures Valid(Step(s, op))
  {
    if op.UnsetAddress? && op.arg in AddressList(s, op.mode) {
      RemoveSwapKeeps(AddressList(s, op.mode), op.arg);
    }
  }

  /** The effect of one operation on the address set of one mode. */
  lemma StepAddresses(s: ModeSet, op: ModeOp, m: char)
    requires Valid(s)
    ensures AddressesOf(Step(s, op), m) ==
            if op.mode != m then AddressesOf(s, m)
            else if op.SetAddress? then AddressesOf(s, m) + {op.arg}
            else if op.UnsetAddress? then AddressesOf(s, m) - {op.arg}
            else AddressesOf(s, m)
  {
    if op.UnsetAddress? && op.arg in AddressList(s, op.mode) {
      RemoveSwapKeeps(AddressList(s, op.mode), op.arg);
      if RemoveSwap(AddressList(s, op.mode), op.arg) == [] {
        assert Elements(RemoveSwap(AddressList(s, op.mode), op.arg)) == {};
      }
    }
  }

  lemma {:induction false} RunKeepsValid(s: ModeSet, ops: seq<ModeOp>)
    requires Valid(s)
    ensures Valid(Run(s, ops))
  {
    if ops != [] {
      RunKeepsValid(s, ops[..|ops| - 1]);
      StepKeepsValid(Run(s, ops[..|ops| - 1]), ops[|ops| - 1]);
    }
  }

  lemma {:induction false} RunConcat(s: ModeSet, a: seq<ModeOp>, b: seq<ModeOp>)
    ensures Run(s, a + b) == Run(Run(s, a), b)
  {
    if b == [] {
      assert a + b == a;
    } else {
      assert (a + b)[..|a + b| - 1] == a + b[..|b| - 1];
      RunConcat(s, a, b[..|b| - 1]);
    }
  }

  lemma {:induction false} RunDiffConcat(d: DiffSet, a: seq<ModeOp>, b: seq<ModeOp>)
    ensures RunDiff(d, a + b) == RunDiff(RunDiff(d, a), b)
  {
    if b == [] {
      assert a + b == a;
    } else {
      assert (a + b)[..|a + b| - 1] == a + b[..|b| - 1];
      RunDiffConcat(d, a, b[..|b| - 1]);
    }
  }

  /** No flag and no address is on both sides, and no mode has the same argument on both. */
  ghost predicate Apart(d: DiffSet) {
    && d.pos.flags !! d.neg.flags
    && (forall m :: m in d.pos.args && m in d.neg.args ==> d.pos.args[m] != d.neg.args[m])
    && (forall m :: AddressesOf(d.pos, m) !! AddressesOf(d.neg, m))
  }

  lemma StepKeepsApart(d: DiffSet, op: ModeOp)
    requires Valid(d.pos) && Valid(d.neg) && Apart(d)
    ensures var r := StepDiff(d, op); Valid(r.pos) && Valid(r.neg) && Apart(r)
  {
    StepKeepsValid(d.pos, op);
    StepKeepsValid(d.neg, Opposite(op));
    forall m ensures AddressesOf(StepDiff(d, op).pos, m) !! AddressesOf(StepDiff(d, op).neg, m) {
      StepAddresses(d.pos, op, m);
      StepAddresses(d.neg, Opposite(op), m);
    }
  }

  /** The two halves of a diff stay apart over every run from the empty diff. */
  lemma {:induction false} DiffHalvesApart(ops: seq<ModeOp>)
    ensures var d := RunDiff(EMPTY_DIFF, ops); Valid(d.pos) && Valid(d.neg) && Apart(d)
  {
    if ops != [] {
      DiffHalvesApart(ops[..|ops| - 1]);
      StepKeepsApart(RunDiff(EMPTY_DIFF, ops[..|ops| - 1]), ops[|ops| - 1]);
    }
  }
}
