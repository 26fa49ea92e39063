/** The modes of one user on one channel, as bits of a byte. */
module UserBits {
  /** `parsePrefixString` takes no more modes than a byte has bits. */
  const BITS_IN_BYTE := 8

  /** Pairs of mode letter and display symbol. */
  type ModeInfo = info: seq<(char, char)> | |info| <= BITS_IN_BYTE

  /** The single bit `1 << i`. */
  function One(i: nat): bv8 {
    if i == 0 then 1 else if i == 1 then 2 else if i == 2 then 4 else if i == 3 then 8
    else if i == 4 then 16 else if i == 5 then 32 else if i == 6 then 64 else 128
  }

  /** The first entry of a mode letter; the length of the table when there is none. */
  function Slot(info: seq<(char, char)>, mode: char): (i: nat)
    ensures i <= |info|
    ensures i < |info| ==> info[i].0 == mode
    ensures forall j :: 0 <= j < i ==> info[j].0 != mode
  {
    if info == [] then 0
    else if info[0].0 == mode then 0
    else
      assert forall j :: 0 < j < |info| ==> info[j] == info[1..][j - 1];
      1 + Slot(info[1..], mode)
  }

  function Bit(info: ModeInfo, mode: char): bv8 {
    if Slot(info, mode) < |info| then One(Slot(info, mode)) else 0
  }

  predicate HasBit(bits: bv8, bit: bv8) {
    bit != 0 && bit == bits & bit
  }

  predicate Has(info: ModeInfo, bits: bv8, mode: char) {
    HasBit(bits, Bit(info, mode))
  }

  lemma OnesApart(i: nat, j: nat)
    requires i < BITS_IN_BYTE && j < BITS_IN_BYTE
    ensures One(i) != 0 && (i != j ==> One(i) & One(j) == 0)
  {
  }

  lemma MaskSame(b: bv8, x: bv8)
    requires x != 0
    ensures HasBit(b | x, x) && !HasBit(b & !x, x)
  {
  }

  lemma MaskOther(b: bv8, x: bv8, y: bv8)
    requires x & y == 0
    ensures (HasBit(b | x, y) <==> HasBit(b, y)) && (HasBit(b & !x, y) <==> HasBit(b, y))
  {
  }

  lemma OtherSlot(bits: bv8, i: nat, j: nat)
    requires One(i) & One(j) == 0
    ensures HasBit(bits | One(i), One(j)) <==> HasBit(bits, One(j))
    ensures HasBit(bits & !One(i), One(j)) <==> HasBit(bits, One(j))
  {
    MaskOther(bits, One(i), One(j));
  }

  predicate IsListed(info: seq<(char, char)>, mode: char) {
    Slot(info, mode) < |info|
  }

  lemma HasListed(info: ModeInfo, bits: bv8, mode: char)
    ensures Bit(info, mode) != 0 <==> IsListed(info, mode)
  {
    if IsListed(info, mode) {
      OnesApart(Slot(info, mode), Slot(info, mode));
    }
  }

  /** The mode letters a byte stands for. */
  ghost function Letters(info: ModeInfo, bits: bv8): set<char> {
    set i | 0 <= i < |info| && Has(info, bits, info[i].0) :: info[i].0
  }

  lemma LettersExactly(info: ModeInfo, bits: bv8, mode: char)
    ensures mode in Letters(info, bits) <==> Has(info, bits, mode)
  {
    HasListed(info, bits, mode);
  }

  /** Setting a bit adds its letter alone, and unsetting it removes that letter alone. */
  lemma LettersSet(info: ModeInfo, bits: bv8, mode: char)
    ensures Letters(info, bits | Bit(info, mode)) == Letters(info, bits) + KnownLetter(info, mode)
    ensures Letters(info, bits & !Bit(info, mode)) == Letters(info, bits) - {mode}
  {
    if IsListed(info, mode) {
      LettersListed(info, bits, mode, Slot(info, mode));
    } else {
      LettersUnlisted(info, bits, mode);
      LettersExactly(info, bits, mode);
    }
  }

  lemma LettersUnlisted(info: ModeInfo, bits: bv8, mode: char)
    requires !IsListed(info, mode)
    ensures bits | Bit(info, mode) == bits && bits & !Bit(info, mode) == bits && !Has(info, bits, mode)
  {
  }

  lemma LettersListed(info: ModeInfo, bits: bv8, mode: char, i: nat)
    requires i == Slot(info, mode) < |info|
    ensures Letters(info, bits | One(i)) == Letters(info, bits) + {mode}
    ensures Letters(info, bits & !One(i)) == Letters(info, bits) - {mode}
  {
    forall m
      ensures m in Letters(info, bits | One(i)) <==> m in Letters(info, bits) || m == mode
      ensures m in Letters(info, bits & !One(i)) <==> m in Letters(info, bits) && m != mode
    {
      LettersSetSlot(info, bits, mode, i, m);
    }
  }

  lemma LettersSetSlot(info: ModeInfo, bits: bv8, mode: char, i: nat, m: char)
    requires i == Slot(info, mode) < |info|
    ensures m in Letters(info, bits | One(i)) <==> m in Letters(info, bits) || m == mode
    ensures m in Letters(info, bits & !One(i)) <==> m in Letters(info, bits) && m != mode
  {
    LettersExactly(info, bits, m);
    LettersExactly(info, bits | One(i), m);
    LettersExactly(info, bits & !One(i), m);
    if m == mode {
      OnesApart(i, i);
      MaskSame(bits, One(i));
    } else if IsListed(info, m) {
      OnesApart(i, Slot(info, m));
      OtherSlot(bits, i, Slot(info, m));
    }
  }

  function KnownLetter(info: seq<(char, char)>, mode: char): set<char> {
    if IsListed(info, mode) then {mode} else {}
  }

  class UserModes {
    const info: ModeInfo
    var modes: bv8

    ghost function Held(): set<char>
      reads this
    {
      Letters(info, modes)
    }

    constructor (info: ModeInfo)
      ensures Held() == {} && this.info == info
    {
      this.info := info;
      modes := 0;
    }

    method GetModeBit(mode: char) returns (bit: bv8)
      ensures bit == Bit(info, mode)
    {
      for i := 0 to |info|
        invariant forall j :: 0 <= j < i ==> info[j].0 != mode
      {
        if info[i].0 == mode {
          return One(i);
        }
      }
      return 0;
    }

    method SetMode(mode: char)
      modifies this
      ensures Held() == old(Held()) + KnownLetter(info, mode)
    {
      var bit := GetModeBit(mode);
      LettersSet(info, modes, mode);
      modes := modes | bit;
    }

    method UnsetMode(mode: char)
      modifies this
      ensures Held() == old(Held()) - {mode}
    {
      var bit := GetModeBit(mode);
      LettersSet(info, modes, mode);
      modes := modes & !bit;
    }

    method HasMode(mode: char) returns (has: bool)
      ensures has <==> mode in Held()
    {
      var bit := GetModeBit(mode);
      LettersExactly(info, modes, mode);
      has := bit != 0 && bit == modes & bit;
    }
  }

  /** The first entry of a display symbol; the length of the table when there is none. */
  function SymbolSlot(info: seq<(char, char)>, symbol: char): (i: nat)
    ensures i <= |info|
    ensures i < |info| ==> info[i].1 == symbol
    ensures forall j :: 0 <= j < i ==> info[j].1 != symbol
  {
    if info == [] then 0
    else if info[0].1 == symbol then 0
    else
      assert forall j :: 0 < j < |info| ==> info[j] == info[1..][j - 1];
      1 + SymbolSlot(info[1..], symbol)
  }

  method FindSymbol(info: seq<(char, char)>, symbol: char) returns (i: nat)
    ensures i == SymbolSlot(info, symbol)
  {
    i := 0;
    while i < |info|
      invariant i <= |info| && forall j :: 0 <= j < i ==> info[j].1 != symbol
    {
      if info[i].1 == symbol {
        return;
      }
      i := i + 1;
    }
  }

  /** The mode letter of a display symbol; 0 when no mode has it. */
  function ModeOf(info: seq<(char, char)>, symbol: char): char {
    if SymbolSlot(info, symbol) < |info| then info[SymbolSlot(info, symbol)].0 else '\0'
  }

  method GetMode(info: seq<(char, char)>, symbol: char) returns (mode: char)
    ensures mode == ModeOf(info, symbol)
  {
    var i := FindSymbol(info, symbol);
    mode := if i < |info| then info[i].0 else '\0';
  }
}
