/** Long messages cut into lines that each carry the header. */
module LineSplit {
  import opened Bytes
  import opened Seqs

  const IRC_MAX_LENGTH := 510 - 62
  const SPLIT_BACKWARD := 20
  const SPACE: byte := 0x20

  /** One line's text; after a soft break a space of the message is left out. */
  datatype Piece = Piece(text: bytes, soft: bool)

  /** The last space at or before `i` and after the first `room - SPLIT_BACKWARD` bytes. */
  function LookBack(msg: bytes, i: nat, room: nat): (at: Option<nat>)
    requires i <= room < |msg|
    ensures at.Some? ==> 0 < at.value <= i
  {
    if i == 0 || i <= room - SPLIT_BACKWARD then None
    else if msg[i] == SPACE then Some(i)
    else LookBack(msg, i - 1, room)
  }

  /** No space from after `low` up to `high`. */
  ghost predicate NoSpace(msg: bytes, low: int, high: int) {
    forall j :: 0 <= j < |msg| && low < j <= high ==> msg[j] != SPACE
  }

  lemma {:induction false} LookBackFinds(msg: bytes, i: nat, room: nat)
    requires i <= room < |msg|
    ensures var at := LookBack(msg, i, room);
            if at.Some? then
              at.value > room - SPLIT_BACKWARD && msg[at.value] == SPACE && NoSpace(msg, at.value, i)
            else NoSpace(msg, if room < SPLIT_BACKWARD then 0 else room - SPLIT_BACKWARD, i)
  {
    if i != 0 && i > room - SPLIT_BACKWARD && msg[i] != SPACE {
      LookBackFinds(msg, i - 1, room);
    }
  }

  /** The first piece of a message that does not fit. */
  function First(msg: bytes, room: nat): (p: Piece)
    requires 0 < room < |msg|
    ensures 0 < |p.text| <= room
  {
    var at := LookBack(msg, room, room);
    if at.Some? then Piece(msg[..at.value], true) else Piece(msg[..room], false)
  }

  /** The bytes of the message a piece stands for. */
  function Span(p: Piece): bytes {
    p.text + if p.soft then [SPACE] else []
  }

  function Pieces(msg: bytes, room: nat): seq<Piece>
    requires room > 0
    decreases |msg|
  {
    if msg == [] then []
    else if |msg| <= room then [Piece(msg, false)]
    else
      var p := First(msg, room);
      [p] + Pieces(msg[|Span(p)|..], room)
  }

  function WithHeader(header: bytes, pieces: seq<Piece>): seq<bytes> {
    seq(|pieces|, i requires 0 <= i < |pieces| => header + pieces[i].text)
  }

  /** The lines of a message; a message that fits is one line, even when it is empty. */
  function Lines(header: bytes, msg: bytes): seq<bytes>
    requires Sendable(header, msg)
  {
    if |header| + |msg| <= IRC_MAX_LENGTH then [header + msg]
    else if msg == [] then []
    else WithHeader(header, Pieces(msg, IRC_MAX_LENGTH - |header|))
  }

  /** Otherwise the loop would make no progress, or slice out of bounds. */
  predicate Sendable(header: bytes, msg: bytes) {
    |header| < IRC_MAX_LENGTH || |header| + |msg| <= IRC_MAX_LENGTH || msg == []
  }

  // ---- what the pieces are ---------------------------------------------------------------

  function Rebuilt(pieces: seq<Piece>): bytes {
    if pieces == [] then [] else Span(pieces[0]) + Rebuilt(pieces[1..])
  }

  lemma FirstSpan(msg: bytes, room: nat)
    requires 0 < room < |msg|
    ensures var p := First(msg, room); |Span(p)| <= |msg| && Span(p) == msg[..|Span(p)|]
  {
    LookBackFinds(msg, room, room);
  }

  lemma RebuiltCons(p: Piece, qs: seq<Piece>)
    ensures Rebuilt([p] + qs) == Span(p) + Rebuilt(qs)
  {
    assert ([p] + qs)[1..] == qs;
  }

  lemma LastRebuilt(msg: bytes)
    ensures Rebuilt([Piece(msg, false)]) == msg
  {
    assert [Piece(msg, false)][1..] == [];
  }

  /** The pieces rebuild the message once one space is put back at each soft break. */
  lemma {:induction false} PiecesRebuild(msg: bytes, room: nat)
    requires room > 0
    ensures Rebuilt(Pieces(msg, room)) == msg
    decreases |msg|
  {
    if |msg| > room {
      var p := First(msg, room);
      FirstSpan(msg, room);
      PiecesRebuild(msg[|Span(p)|..], room);
      RebuiltCons(p, Pieces(msg[|Span(p)|..], room));
    } else if msg != [] {
      LastRebuilt(msg);
    }
  }

  /** Where the k-th piece starts in the message. */
  function Offset(pieces: seq<Piece>, k: nat): nat
    requires k <= |pieces|
  {
    if k == 0 then 0 else |Span(pieces[0])| + Offset(pieces[1..], k - 1)
  }

  /** The k-th piece ends at the last space of its window, or fills its room when the window
      has none; only the last piece may be shorter than that. */
  ghost predicate WellBroken(msg: bytes, room: nat, start: nat, p: Piece) {
    && start + room < |msg|
    && 0 < |p.text| <= room
    && msg[start..start + |p.text|] == p.text
    && (if p.soft then |p.text| > room - SPLIT_BACKWARD && msg[start + |p.text|] == SPACE
        else |p.text| == room)
    && NoSpace(msg, start + if p.soft then |p.text| else if room < SPLIT_BACKWARD then 0 else room - SPLIT_BACKWARD, start + room)
  }

  lemma FirstBroken(msg: bytes, room: nat)
    requires 0 < room < |msg|
    ensures WellBroken(msg, room, 0, First(msg, room))
  {
    LookBackFinds(msg, room, room);
  }

  /** Every piece of a message is broken as above, or is what is left at the end. */
  lemma {:induction false} PiecesBroken(msg: bytes, room: nat, k: nat)
    requires room > 0 && k < |Pieces(msg, room)|
    ensures IsPiece(msg, room, Offset(Pieces(msg, room), k), Pieces(msg, room)[k], k == |Pieces(msg, room)| - 1)
    decreases k
  {
    if k == 0 {
      FirstIsPiece(msg, room);
    } else {
      PiecesBroken(msg[|Span(First(msg, room))|..], room, k - 1);
      LaterIsPiece(msg, room, k);
    }
  }

  lemma FirstIsPiece(msg: bytes, room: nat)
    requires room > 0 && msg != []
    ensures IsPiece(msg, room, 0, Pieces(msg, room)[0], |Pieces(msg, room)| == 1)
  {
    if |msg| > room {
      FirstBroken(msg, room);
    } else {
      assert msg[0..] == msg;
    }
  }

  lemma LaterIsPiece(msg: bytes, room: nat, k: nat)
    requires room > 0 && 0 < k < |Pieces(msg, room)|
    requires var qs := Pieces(msg[|Span(First(msg, room))|..], room);
             IsPiece(msg[|Span(First(msg, room))|..], room, Offset(qs, k - 1), qs[k - 1], k == |qs|)
    ensures IsPiece(msg, room, Offset(Pieces(msg, room), k), Pieces(msg, room)[k], k == |Pieces(msg, room)| - 1)
  {
    var p := First(msg, room);
    var qs := Pieces(msg[|Span(p)|..], room);
    FirstSpan(msg, room);
    assert Pieces(msg, room) == [p] + qs;
    ConsIsPiece(msg, room, p, qs, k);
  }

  lemma ConsIsPiece(msg: bytes, room: nat, p: Piece, qs: seq<Piece>, k: nat)
    requires 0 < k <= |qs| && |Span(p)| <= |msg|
    requires IsPiece(msg[|Span(p)|..], room, Offset(qs, k - 1), qs[k - 1], k == |qs|)
    ensures IsPiece(msg, room, Offset([p] + qs, k), ([p] + qs)[k], k == |qs|)
  {
    OffsetCons(p, qs, k);
    ShiftPiece(msg, |Span(p)|, room, Offset(qs, k - 1), qs[k - 1], k == |qs|);
  }

  lemma OffsetCons(p: Piece, qs: seq<Piece>, k: nat)
    requires 0 < k <= |qs|
    ensures Offset([p] + qs, k) == |Span(p)| + Offset(qs, k - 1) && ([p] + qs)[k] == qs[k - 1]
  {
    assert ([p] + qs)[1..] == qs;
  }

  /** A well-broken piece, or the rest of the message as the last one. */
  ghost predicate IsPiece(msg: bytes, room: nat, start: nat, p: Piece, last: bool) {
    || WellBroken(msg, room, start, p)
    || (last && !p.soft && 0 < |p.text| <= room && start <= |msg| && p.text == msg[start..])
  }

  lemma ShiftPiece(msg: bytes, shift: nat, room: nat, start: nat, p: Piece, last: bool)
    requires shift <= |msg| && IsPiece(msg[shift..], room, start, p, last)
    ensures IsPiece(msg, room, shift + start, p, last)
  {
    var later := msg[shift..];
    if WellBroken(later, room, start, p) {
      assert later[start..start + |p.text|] == msg[shift + start..shift + start + |p.text|];
      var low := if p.soft then |p.text| else if room < SPLIT_BACKWARD then 0 else room - SPLIT_BACKWARD;
      forall j | 0 <= j < |msg| && shift + start + low < j <= shift + start + room ensures msg[j] != SPACE {
        assert later[j - shift] == msg[j];
      }
    } else {
      assert later[start..] == msg[shift + start..];
    }
  }

  /** No line exceeds the limit. */
  lemma LinesFit(header: bytes, msg: bytes, k: nat)
    requires Sendable(header, msg) && k < |Lines(header, msg)|
    ensures |Lines(header, msg)[k]| <= IRC_MAX_LENGTH && header <= Lines(header, msg)[k]
  {
    if |header| + |msg| > IRC_MAX_LENGTH {
      PiecesBroken(msg, IRC_MAX_LENGTH - |header|, k);
    }
  }

  /** With room for more than the look-back, every line but the last uses up all but 18 bytes of it. */
  lemma {:induction false} FewLines(msg: bytes, room: nat)
    requires room >= SPLIT_BACKWARD && msg != []
    ensures Pieces(msg, room) != []
    ensures (|Pieces(msg, room)| - 1) * (room - SPLIT_BACKWARD + 2) < |msg|
    decreases |msg|
  {
    if |msg| > room {
      var p := First(msg, room);
      LookBackFinds(msg, room, room);
      var later := msg[|Span(p)|..];
      assert |Pieces(msg, room)| == 1 + |Pieces(later, room)|;
      if later != [] {
        FewLines(later, room);
        OneMore(|Pieces(later, room)|, room - SPLIT_BACKWARD + 2);
      }
    }
  }

  lemma OneMore(k: nat, n: nat)
    ensures k * n == (k - 1) * n + n
  {
  }

  // ---- what the lines deliver -------------------------------------------------------------

  /** Every line is the header and a text, and the texts are the message once the space left out at each
      soft break is put back. */
  ghost predicate Carry(lines: seq<bytes>, header: bytes, pieces: seq<Piece>) {
    |lines| == |pieces| && forall i :: 0 <= i < |lines| ==> lines[i] == header + pieces[i].text
  }

  /** The lines carry the whole message. One that fits is one line; only an empty one behind a header that
      is too long gives no line. */
  ghost predicate Delivers(lines: seq<bytes>, header: bytes, msg: bytes) {
    && (exists pieces :: Carry(lines, header, pieces) && Rebuilt(pieces) == msg)
    && (|header| + |msg| <= IRC_MAX_LENGTH ==> |lines| == 1 && lines[0] == header + msg)
    && (lines == [] <==> msg == [] && |header| > IRC_MAX_LENGTH)
  }

  lemma LinesDeliver(header: bytes, msg: bytes)
    requires Sendable(header, msg)
    ensures Delivers(Lines(header, msg), header, msg)
  {
    var lines := Lines(header, msg);
    if |header| + |msg| <= IRC_MAX_LENGTH {
      LastRebuilt(msg);
      assert Carry(lines, header, [Piece(msg, false)]);
    } else if msg == [] {
      assert Carry(lines, header, []) && Rebuilt([]) == msg;
    } else {
      var pieces := Pieces(msg, IRC_MAX_LENGTH - |header|);
      PiecesRebuild(msg, IRC_MAX_LENGTH - |header|);
      assert Carry(lines, header, pieces);
    }
  }

  // ---- sending --------------------------------------------------------------------------

  class Helper {
    /** The lines that reached the writer. */
    var lines: seq<bytes>
    /** How many more writes succeed. */
    var patience: Option<nat>

    constructor (patience: Option<nat>)
      ensures lines == [] && this.patience == patience
    {
      lines := [];
      this.patience := patience;
    }

    method Write(line: bytes) returns (err: bool)
      modifies this
      ensures err <==> old(patience) == Some(0)
      ensures if err then lines == old(lines) && patience == old(patience)
              else lines == old(lines) + [line] &&
                   patience == if old(patience).Some? then Some(old(patience).value - 1) else None
    {
      err := patience == Some(0);
      if !err {
        lines := lines + [line];
        patience := if patience.Some? then Some(patience.value - 1) else None;
      }
    }

    /** Sends the lines in order, until the first write error. */
    method SplitSend(header: bytes, msg: bytes) returns (err: bool)
      requires Sendable(header, msg)
      modifies this
      ensures !err ==> lines == old(lines) + Lines(header, msg) && Delivers(lines[|old(lines)|..], header, msg)
      ensures err ==> lines <= old(lines) + Lines(header, msg) && patience == Some(0)
      ensures Spent(old(patience), patience, |lines| - |old(lines)|)
    {
      var room := IRC_MAX_LENGTH - |header|;
      if |msg| <= room {
        err := Write(header + msg);
      } else if |msg| > 0 {
        err := SendPieces(header, msg, room);
      } else {
        err := false;
      }
      LinesDeliver(header, msg);
      assert (old(lines) + Lines(header, msg))[|old(lines)|..] == Lines(header, msg);
    }

    method SendPieces(header: bytes, msg: bytes, room: nat) returns (err: bool)
      requires 0 < room && |header| + room == IRC_MAX_LENGTH
      modifies this
      ensures var all := WithHeader(header, Pieces(msg, room));
              if err then lines <= old(lines) + all && patience == Some(0) else lines == old(lines) + all
      ensures Spent(old(patience), patience, |lines| - |old(lines)|)
    {
      ghost var all := WithHeader(header, Pieces(msg, room));
      ghost var done: seq<bytes> := [];
      var buf := new byte[IRC_MAX_LENGTH](_ => 0);
      var rest := msg;
      while |rest| > 0
        invariant all == done + WithHeader(header, Pieces(rest, room)) && lines == old(lines) + done
        invariant Spent(old(patience), patience, |done|)
        decreases |rest|
      {
        var size, skip := NextBreak(rest, room);
        Advance(header, rest, room, size, skip, done);
        err := WriteLine(buf, header, rest[..size]);
        if err {
          return;
        }
        done := done + [header + rest[..size]];
        rest := rest[size + skip..];
      }
      return false;
    }

    /** Copies the header and one piece into the buffer and writes that part of it. */
    method WriteLine(buf: array<byte>, header: bytes, text: bytes) returns (err: bool)
      requires |header| + |text| <= buf.Length
      modifies this, buf
      ensures err <==> old(patience) == Some(0)
      ensures if err then lines == old(lines) && patience == old(patience)
              else lines == old(lines) + [header + text] &&
                   patience == if old(patience).Some? then Some(old(patience).value - 1) else None
    {
      forall i | 0 <= i < |header| {
        buf[i] := header[i];
      }
      forall i | 0 <= i < |text| {
        buf[|header| + i] := text[i];
      }
      assert buf[..|header| + |text|] == header + text;
      err := Write(buf[..|header| + |text|]);
    }

    /** How much of the rest goes into the next line, and whether a space after it is left out. */
    method NextBreak(rest: bytes, room: nat) returns (size: nat, skip: nat)
      requires 0 < room && rest != []
      ensures Breaks(rest, room, size, skip)
    {
      if |rest| <= room {
        LastPiece(rest, room);
        return |rest|, 0;
      }
      var at := SpaceBefore(rest, room);
      if at.Some? {
        SoftBreak(rest, room, at.value);
        return at.value, 1;
      }
      HardBreak(rest, room);
      return room, 0;
    }

    /** Looks for a space from the end of the room backwards. */
    method SpaceBefore(rest: bytes, room: nat) returns (at: Option<nat>)
      requires 0 < room < |rest|
      ensures at == LookBack(rest, room, room)
    {
      var i: nat := room;
      while i != 0 && i > room - SPLIT_BACKWARD
        invariant i <= room && LookBack(rest, i, room) == LookBack(rest, room, room)
      {
        if rest[i] == SPACE {
          return Some(i);
        }
        i := i - 1;
      }
      return None;
    }
  }

  /** `n` writes have been used up, where they are counted. */
  predicate Spent(before: Option<nat>, after: Option<nat>, n: int) {
    after.Some? == before.Some? && (after.Some? ==> after.value == before.value - n)
  }

  lemma Advance(header: bytes, rest: bytes, room: nat, size: nat, skip: nat, done: seq<bytes>)
    requires Breaks(rest, room, size, skip)
    ensures done + WithHeader(header, Pieces(rest, room)) ==
            done + [header + rest[..size]] + WithHeader(header, Pieces(rest[size + skip..], room))
  {
    WithHeaderCons(header, Piece(rest[..size], skip == 1), Pieces(rest[size + skip..], room));
  }

  /** The first piece is the first `size` bytes, and `skip` spaces after it are left out. */
  ghost predicate Breaks(rest: bytes, room: nat, size: nat, skip: nat) {
    && skip <= 1 && 0 < size <= room && size + skip <= |rest|
    && Pieces(rest, room) == [Piece(rest[..size], skip == 1)] + Pieces(rest[size + skip..], room)
  }

  lemma LastPiece(rest: bytes, room: nat)
    requires 0 < |rest| <= room
    ensures Breaks(rest, room, |rest|, 0)
  {
    assert rest[..|rest|] == rest && rest[|rest|..] == [];
  }

  lemma SoftBreak(rest: bytes, room: nat, at: nat)
    requires 0 < room < |rest| && LookBack(rest, room, room) == Some(at)
    ensures Breaks(rest, room, at, 1)
  {
    LookBackFinds(rest, room, room);
    var p := Piece(rest[..at], true);
    assert First(rest, room) == p;
    assert |Span(p)| == at + 1;
  }

  lemma HardBreak(rest: bytes, room: nat)
    requires 0 < room < |rest| && LookBack(rest, room, room) == None
    ensures Breaks(rest, room, room, 0)
  {
    FirstSpan(rest, room);
  }

  lemma WithHeaderCons(header: bytes, p: Piece, ps: seq<Piece>)
    ensures WithHeader(header, [p] + ps) == [header + p.text] + WithHeader(header, ps)
  {
  }
}
