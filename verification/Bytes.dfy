/** Byte strings, and the replacement Go's `bytes.Replace` does. */
module Bytes {

  newtype byte = b: int | 0 <= b < 256

  type bytes = seq<byte>

  /** Left to right, without overlap, every occurrence. */
  function Replace(s: bytes, from: bytes, to: bytes): bytes
    requires from != []
    decreases |s|
  {
    if |s| < |from| then s
    else if s[..|from|] == from then to + Replace(s[|from|..], from, to)
    else [s[0]] + Replace(s[1..], from, to)
  }

  lemma ReplaceByte(c: byte, s: bytes, from: byte, to: bytes)
    ensures Replace([c] + s, [from], to) == (if c == from then to else [c]) + Replace(s, [from], to)
  {
    assert ([c] + s)[..1] == [c] && ([c] + s)[1..] == s;
  }

  lemma {:induction false} ReplaceByteConcat(a: bytes, b: bytes, from: byte, to: bytes)
    ensures Replace(a + b, [from], to) == Replace(a, [from], to) + Replace(b, [from], to)
    decreases |a|
  {
    if a == [] {
      assert a + b == b;
    } else {
      assert a == [a[0]] + a[1..] && a + b == [a[0]] + (a[1..] + b);
      ReplaceByte(a[0], a[1..] + b, from, to);
      ReplaceByte(a[0], a[1..], from, to);
      ReplaceByteConcat(a[1..], b, from, to);
    }
  }

  lemma ReplacePairHit(s: bytes, from: bytes, to: bytes)
    requires |from| == 2
    ensures Replace(from + s, from, to) == to + Replace(s, from, to)
  {
    assert (from + s)[..2] == from && (from + s)[2..] == s;
  }

  lemma ReplacePairMiss(c: byte, s: bytes, from: bytes, to: bytes)
    requires |from| == 2 && (s == [] || [c, s[0]] != from)
    ensures Replace([c] + s, from, to) == [c] + Replace(s, from, to)
  {
    var t := [c] + s;
    assert t[1..] == s;
    if s != [] {
      assert t[..2] == [c, s[0]];
    } else {
      assert t == [c] && Replace(s, from, to) == [];
    }
  }
}
