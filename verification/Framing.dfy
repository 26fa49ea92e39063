/** Reading: cutting the byte stream into messages at CR LF, in a reused buffer. */
module Framing {
  import opened Bytes
  import opened Seqs

  const CR: byte := 13
  const LF: byte := 10
  const CRLF: bytes := [CR, LF]
  const BUFFER_SIZE := 16348

  predicate BreakAt(s: bytes, i: nat) {
    i + 1 < |s| && s[i] == CR && s[i + 1] == LF
  }

  ghost predicate NoBreak(s: bytes) {
    forall i :: 0 <= i < |s| ==> !BreakAt(s, i)
  }

  /** Where the first CR LF starts, or the length. */
  function FirstBreak(s: bytes): (i: nat)
    ensures i == |s| || i + 2 <= |s|
  {
    if s == [] then 0
    else if BreakAt(s, 0) then 0
    else 1 + FirstBreak(s[1..])
  }

  lemma {:induction false} FirstBreakIs(s: bytes, i: nat)
    requires i <= |s| && (i < |s| ==> BreakAt(s, i)) && forall j :: 0 <= j < i ==> !BreakAt(s, j)
    ensures FirstBreak(s) == i
  {
    if i > 0 {
      forall j | 0 <= j < |s[1..]| ensures BreakAt(s[1..], j) == BreakAt(s, j + 1) {
      }
      assert !BreakAt(s, 0);
      FirstBreakIs(s[1..], i - 1);
    }
  }

  lemma {:induction false} FirstBreakFacts(s: bytes)
    ensures FirstBreak(s) < |s| ==> BreakAt(s, FirstBreak(s))
    ensures forall j :: 0 <= j < FirstBreak(s) ==> !BreakAt(s, j)
  {
    if s != [] && !BreakAt(s, 0) {
      FirstBreakFacts(s[1..]);
      forall j | 0 <= j < FirstBreak(s) ensures !BreakAt(s, j) {
        assert j > 0 ==> BreakAt(s, j) == BreakAt(s[1..], j - 1);
      }
    }
  }

  /** The terminated messages in a byte string, without their CR LF. */
  function Frames(s: bytes): seq<bytes>
    decreases |s|
  {
    var i := FirstBreak(s);
    if i < |s| then [s[..i]] + Frames(s[i + 2..]) else []
  }

  /** What follows the last CR LF. */
  function Rest(s: bytes): (r: bytes)
    ensures |r| <= |s|
    decreases |s|
  {
    var i := FirstBreak(s);
    if i < |s| then Rest(s[i + 2..]) else s
  }

  // ---- the same by its properties ---------------------------------------------------

  function Wire(frames: seq<bytes>): bytes {
    if frames == [] then [] else frames[0] + CRLF + Wire(frames[1..])
  }

  /** The stream is the frames, each ended by its first CR LF, and a rest without any. */
  ghost predicate IsFraming(s: bytes, frames: seq<bytes>, rest: bytes) {
    && s == Wire(frames) + rest
    && (forall f :: f in frames ==> NoBreak(f + [CR]))
    && NoBreak(rest)
  }

  /** A frame is cut off at its CR LF. */
  lemma FramesFrom(f: bytes, tail: bytes)
    requires NoBreak(f + [CR])
    ensures Frames(f + CRLF + tail) == [f] + Frames(tail) && Rest(f + CRLF + tail) == Rest(tail)
    ensures FirstBreak(f + CRLF + tail) == |f|
  {
    var s := f + CRLF + tail;
    forall j | 0 <= j < |f| ensures !BreakAt(s, j) {
      assert !BreakAt(f + [CR], j);
    }
    FirstBreakIs(s, |f|);
    assert s[..|f|] == f && s[|f| + 2..] == tail;
  }

  lemma FirstFrameOf(s: bytes)
    requires FirstBreak(s) < |s|
    ensures var i := FirstBreak(s); s == s[..i] + CRLF + s[i + 2..] && NoBreak(s[..i] + [CR])
  {
    FirstBreakFacts(s);
    FrameBefore(s, FirstBreak(s));
  }

  lemma FrameBefore(s: bytes, i: nat)
    requires BreakAt(s, i) && forall j :: 0 <= j < i ==> !BreakAt(s, j)
    ensures s == s[..i] + CRLF + s[i + 2..] && NoBreak(s[..i] + [CR])
  {
    assert s[i..i + 2] == CRLF;
    forall j | 0 <= j < i ensures !BreakAt(s[..i] + [CR], j) {
      assert !BreakAt(s, j);
    }
  }

  /** There is exactly one such reading of a byte string. */
  lemma {:induction false} FramingExactly(s: bytes, frames: seq<bytes>, rest: bytes)
    ensures IsFraming(s, frames, rest) <==> frames == Frames(s) && rest == Rest(s)
    decreases |frames|
  {
    if frames == [] {
      FirstBreakFacts(s);
      if NoBreak(s) {
        FirstBreakIs(s, |s|);
      }
      assert Wire(frames) + rest == rest;
    } else {
      var f, later := frames[0], frames[1..];
      var tail := Wire(later) + rest;
      assert frames == [f] + later && f in frames;
      Associate(f + CRLF, Wire(later), rest);
      if IsFraming(s, frames, rest) {
        FramesFrom(f, tail);
        assert IsFraming(tail, later, rest);
        FramingExactly(tail, later, rest);
      } else if frames == Frames(s) && rest == Rest(s) {
        var i := FirstBreak(s);
        FirstFrameOf(s);
        FramingExactly(s[i + 2..], later, rest);
      }
    }
  }

  // ---- reading on -------------------------------------------------------------------

  /** More bytes add the frames of the kept rest and the new bytes, wherever the cut falls. */
  lemma {:induction false} FramesExtend(a: bytes, b: bytes)
    ensures Frames(a + b) == Frames(a) + Frames(Rest(a) + b)
    ensures Rest(a + b) == Rest(Rest(a) + b)
    decreases |a|
  {
    var i := FirstBreak(a);
    if i < |a| {
      FirstFrameOf(a);
      FramesExtend(a[i + 2..], b);
      ExtendFrame(a[..i], a[i + 2..], b);
    } else {
      assert Frames(a) == [] && Rest(a) == a;
      assert [] + Frames(a + b) == Frames(a + b);
    }
  }

  lemma ExtendFrame(f: bytes, tail: bytes, b: bytes)
    requires NoBreak(f + [CR])
    requires Frames(tail + b) == Frames(tail) + Frames(Rest(tail) + b) && Rest(tail + b) == Rest(Rest(tail) + b)
    ensures var a := f + CRLF + tail;
            Frames(a + b) == Frames(a) + Frames(Rest(a) + b) && Rest(a + b) == Rest(Rest(a) + b)
  {
    Associate(f + CRLF, tail, b);
    FramesFrom(f, tail);
    FramesFrom(f, tail + b);
    Associate([f], Frames(tail), Frames(Rest(tail) + b));
  }

  class Siphon {
    /** The messages taken from the channel, in order. */
    var sent: seq<bytes>
    /** How many more messages are taken before the client is closed instead. */
    var patience: Option<nat>

    constructor (patience: Option<nat>)
      ensures sent == [] && this.patience == patience
    {
      sent := [];
      this.patience := patience;
    }

    method Send(chunk: bytes) returns (abort: bool)
      modifies this
      ensures abort <==> old(patience) == Some(0)
      ensures if abort then sent == old(sent) && patience == old(patience)
              else sent == old(sent) + [chunk] &&
                   patience == if old(patience).Some? then Some(old(patience).value - 1) else None
    {
      abort := patience == Some(0);
      if !abort {
        sent := sent + [chunk];
        patience := if patience.Some? then Some(patience.value - 1) else None;
      }
    }

    /** Sends each chunk of the buffered bytes that ends in CR LF. */
    method FindChunks(buf: bytes) returns (start: nat, remaining: bool, abort: bool)
      requires buf != []
      modifies this
      ensures start <= |buf|
      ensures old(sent) <= sent && SendCount(old(patience), patience, |sent| - |old(sent)|)
      ensures !abort ==> sent == old(sent) + Frames(buf) && Rest(buf) == if remaining then buf[start..] else []
      ensures abort ==> sent <= old(sent) + Frames(buf) && patience == Some(0)
    {
      ghost var done: seq<bytes> := [];
      var i: nat := 1;
      start := 0;
      NothingYet(buf);
      while i < |buf|
        invariant Scanning(buf, start, i, done)
        invariant sent == old(sent) + done && SendCount(old(patience), patience, |done|)
      {
        if buf[i - 1] == CR && buf[i] == LF {
          i := i + 1;
          abort := SendNext(buf, start, i, done);
          if abort {
            return start, false, true;
          }
          done := done + [buf[start..i - 2]];
          if i == |buf| {
            return start, false, false;
          }
          start := i;
        } else {
          ScanOn(buf, start, i, done);
        }
        i := i + 1;
      }
      remaining, abort := true, false;
      NothingLeft(buf, start, done);
    }

    method SendNext(buf: bytes, start: nat, end: nat, ghost done: seq<bytes>) returns (abort: bool)
      requires Scanning(buf, start, end - 1, done) && end <= |buf| && BreakAt(buf, end - 2)
      modifies this
      ensures var more := done + [buf[start..end - 2]];
              && done <= Frames(buf)
              && (end < |buf| ==> Scanning(buf, end, end + 1, more))
              && (end == |buf| ==> Frames(buf) == more && Rest(buf) == [])
      ensures if abort then sent == old(sent) && patience == old(patience) == Some(0)
              else sent == old(sent) + [buf[start..end - 2]] && SendCount(old(patience), patience, 1)
    {
      NextFrame(buf, start, end, done);
      abort := Send(buf[start..end - 2]);
    }

    /** Sends the complete messages and moves the unterminated rest to the front. */
    method ExtractMessages(buf: array<byte>, n: nat) returns (position: nat, shutdown: bool)
      requires 0 < n <= buf.Length
      modifies this, buf
      ensures old(sent) <= sent && SendCount(old(patience), patience, |sent| - |old(sent)|)
      ensures !shutdown ==> sent == old(sent) + Frames(old(buf[..n]))
      ensures !shutdown ==> position <= n && buf[..position] == Rest(old(buf[..n]))
      ensures shutdown ==> sent <= old(sent) + Frames(old(buf[..n])) && patience == Some(0)
    {
      var start, remaining, abort := FindChunks(buf[..n]);
      if abort {
        return 0, true;
      } else if remaining {
        forall i | 0 <= i < n - start {
          buf[i] := buf[start + i];
        }
        return n - start, false;
      }
      return 0, false;
    }

    /** The read loop. `stream` is what the server sends; each read delivers at most as many bytes as
        its cut says, as fit in the buffer, and as there are. */
    method Run(stream: bytes, cuts: seq<nat>)
      returns (buf: array<byte>, position: nat, consumed: nat, shutdown: bool)
      requires sent == []
      modifies this
      ensures fresh(buf) && buf.Length == BUFFER_SIZE && position <= BUFFER_SIZE && consumed <= |stream|
      ensures SendCount(old(patience), patience, |sent|)
      ensures !shutdown ==> sent == Frames(stream[..consumed]) && buf[..position] == Rest(stream[..consumed])
      ensures shutdown ==> sent <= Frames(stream[..consumed]) && patience == Some(0)
      ensures !shutdown && |cuts| >= |stream| && (forall c :: c in cuts ==> c > 0) ==>
                (consumed == |stream| <==> FitsBuffer(stream))
    {
      buf := new byte[BUFFER_SIZE](_ => 0);
      position, consumed, shutdown := 0, 0, false;
      assert stream[..0] == [];
      for r := 0 to |cuts|
        invariant HasRead(stream, consumed, sent, buf[..], position) && SendCount(old(patience), patience, |sent|)
        invariant (forall c :: c in cuts ==> c > 0) ==>
                    r <= consumed || consumed == |stream| || position == BUFFER_SIZE
      {
        assert cuts[r] in cuts;
        var n := ReadSize(cuts[r], BUFFER_SIZE - position, |stream| - consumed);
        if n > 0 {
          position, shutdown := ReadNext(buf, position, stream, consumed, n);
          consumed := consumed + n;
          if shutdown {
            return buf, 0, consumed, true;
          }
        }
      }
      AllRead(stream, consumed, sent, buf[..], position);
    }

    method ReadNext(buf: array<byte>, position: nat, stream: bytes, consumed: nat, n: nat)
      returns (now: nat, shutdown: bool)
      requires buf.Length == BUFFER_SIZE && HasRead(stream, consumed, sent, buf[..], position)
      requires n > 0 && position + n <= BUFFER_SIZE && consumed + n <= |stream|
      modifies this, buf
      ensures SendCount(old(patience), patience, |sent| - |old(sent)|)
      ensures !shutdown ==> HasRead(stream, consumed + n, sent, buf[..], now)
      ensures shutdown ==> sent <= Frames(stream[..consumed + n]) && patience == Some(0)
    {
      assert buf[..][..position] == buf[..position];
      ExtendStream(stream, consumed, n);
      ReadShort(stream, consumed, n);
      now, shutdown := Read(buf, position, stream[consumed..consumed + n]);
      assert shutdown || buf[..][..now] == buf[..now];
    }

    /** One read into the free part of the buffer. */
    method Read(buf: array<byte>, position: nat, chunk: bytes) returns (now: nat, shutdown: bool)
      requires chunk != [] && position + |chunk| <= buf.Length
      modifies this, buf
      ensures old(sent) <= sent && SendCount(old(patience), patience, |sent| - |old(sent)|)
      ensures !shutdown ==> sent == old(sent) + Frames(old(buf[..position]) + chunk)
      ensures !shutdown ==> now <= position + |chunk| && buf[..now] == Rest(old(buf[..position]) + chunk)
      ensures shutdown ==> sent <= old(sent) + Frames(old(buf[..position]) + chunk) && patience == Some(0)
    {
      forall i | 0 <= i < |chunk| {
        buf[position + i] := chunk[i];
      }
      assert buf[..position + |chunk|] == old(buf[..position]) + chunk;
      now, shutdown := ExtractMessages(buf, position + |chunk|);
    }
  }

  /** How many bytes a read delivers: its cut, unless there is less room or there are fewer bytes. */
  function ReadSize(cut: nat, room: nat, left: nat): (n: nat)
    ensures n <= cut && n <= room && n <= left
    ensures n == 0 ==> cut == 0 || room == 0 || left == 0
  {
    if cut <= room && cut <= left then cut else if room <= left then room else left
  }

  lemma ExtendStream(stream: bytes, consumed: nat, n: nat)
    requires consumed + n <= |stream|
    ensures var before, now := stream[..consumed], stream[..consumed + n];
            var chunk := stream[consumed..consumed + n];
            Frames(now) == Frames(before) + Frames(Rest(before) + chunk) && Rest(now) == Rest(Rest(before) + chunk)
  {
    assert stream[..consumed + n] == stream[..consumed] + stream[consumed..consumed + n];
    FramesExtend(stream[..consumed], stream[consumed..consumed + n]);
  }

  // ---- streams that fit the buffer ----------------------------------------------------

  /** Each frame fits the buffer together with its CR LF. */
  ghost predicate AllShort(frames: seq<bytes>) {
    forall f :: f in frames ==> |f| + 2 <= BUFFER_SIZE
  }

  ghost predicate FitsBuffer(stream: bytes) {
    AllShort(Frames(stream)) && |Rest(stream)| <= BUFFER_SIZE
  }

  lemma {:induction false} FramesWithin(s: bytes)
    ensures forall f :: f in Frames(s) ==> |f| + 2 <= |s|
    decreases |s|
  {
    var i := FirstBreak(s);
    if i < |s| {
      FramesWithin(s[i + 2..]);
    }
  }

  /** What a read into the free part of the buffer completes is short. */
  lemma ReadShort(stream: bytes, consumed: nat, n: nat)
    requires consumed + n <= |stream| && |Rest(stream[..consumed])| + n <= BUFFER_SIZE
    requires AllShort(Frames(stream[..consumed]))
    ensures AllShort(Frames(stream[..consumed + n]))
  {
    ExtendStream(stream, consumed, n);
    FramesWithin(Rest(stream[..consumed]) + stream[consumed..consumed + n]);
  }

  lemma {:induction false} RestNoBreak(s: bytes)
    ensures NoBreak(Rest(s))
    decreases |s|
  {
    var i := FirstBreak(s);
    FirstBreakFacts(s);
    if i < |s| {
      RestNoBreak(s[i + 2..]);
    }
  }

  /** A full buffer without a CR LF, and more to come: either the frame is too long or the rest is. */
  lemma FullBuffer(rest: bytes, more: bytes)
    requires NoBreak(rest) && |rest| == BUFFER_SIZE && more != []
    ensures !FitsBuffer(rest + more)
  {
    var s := rest + more;
    var i := FirstBreak(s);
    FirstBreakFacts(s);
    if i < |s| {
      if i + 1 < |rest| {
        assert BreakAt(rest, i);
      }
      assert Frames(s)[0] == s[..i];
    }
  }

  /** The frames of the bytes read so far have been sent, all of them short, and the rest is in front of
      the buffer. */
  ghost predicate HasRead(stream: bytes, consumed: nat, sent: seq<bytes>, buf: bytes, position: nat) {
    && consumed <= |stream| && position <= BUFFER_SIZE == |buf|
    && sent == Frames(stream[..consumed]) && buf[..position] == Rest(stream[..consumed])
    && AllShort(sent)
  }

  lemma StalledUnfit(stream: bytes, consumed: nat)
    requires consumed < |stream| && |Rest(stream[..consumed])| == BUFFER_SIZE
    ensures !FitsBuffer(stream)
  {
    var rest, more := Rest(stream[..consumed]), stream[consumed..];
    assert stream[consumed..|stream|] == more && stream[..|stream|] == stream;
    ExtendStream(stream, consumed, |stream| - consumed);
    RestNoBreak(stream[..consumed]);
    FullBuffer(rest, more);
    assert forall f :: f in Frames(rest + more) ==> f in Frames(stream);
  }

  /** With the buffer full or the stream at its end, it is the end exactly when the stream fits. */
  lemma AllRead(stream: bytes, consumed: nat, sent: seq<bytes>, buf: bytes, position: nat)
    requires HasRead(stream, consumed, sent, buf, position)
    ensures consumed == |stream| ==> FitsBuffer(stream)
    ensures consumed < |stream| && position == BUFFER_SIZE ==> !FitsBuffer(stream)
  {
    assert |buf[..position]| == position;
    if consumed == |stream| {
      assert stream[..consumed] == stream;
    } else if position == BUFFER_SIZE {
      StalledUnfit(stream, consumed);
    }
  }

  /** A longer frame fills the buffer before its CR LF is there: nothing can be sent, and nothing read. */
  lemma LongFrameStalls(f: bytes, tail: bytes)
    requires NoBreak(f + [CR]) && |f| + 2 > BUFFER_SIZE
    ensures var stream := f + CRLF + tail;
            && !FitsBuffer(stream)
            && Frames(stream[..BUFFER_SIZE]) == [] && |Rest(stream[..BUFFER_SIZE])| == BUFFER_SIZE
  {
    var stream := f + CRLF + tail;
    var head := stream[..BUFFER_SIZE];
    FramesFrom(f, tail);
    assert f in Frames(stream);
    forall j | 0 <= j < |head| ensures !BreakAt(head, j) {
      if j + 1 < |head| {
        assert head[j] == (f + [CR])[j] && head[j + 1] == (f + [CR])[j + 1];
        assert !BreakAt(f + [CR], j);
      }
    }
    FirstBreakIs(head, |head|);
  }

  /** `count` messages were taken between the two. */
  ghost predicate SendCount(before: Option<nat>, after: Option<nat>, count: int) {
    && before.Some? == after.Some?
    && (before.Some? ==> before.value == after.value + count)
  }

  /** No CR LF lies within the bytes from `start` to before `i`. */
  ghost predicate Scanned(text: bytes, start: nat, i: int) {
    forall j :: start <= j && j + 1 < i ==> !BreakAt(text, j)
  }

  /** The frames found so far come before those of the bytes from `start` on. */
  ghost predicate Chunked(text: bytes, start: nat, done: seq<bytes>) {
    start <= |text| && Frames(text) == done + Frames(text[start..]) && Rest(text) == Rest(text[start..])
  }

  /** The scan stands at `i` in the frame that starts at `start`. */
  ghost predicate Scanning(text: bytes, start: nat, i: int, done: seq<bytes>) {
    start < i <= |text| && Chunked(text, start, done) && Scanned(text, start, i)
  }

  lemma NothingYet(text: bytes)
    requires text != []
    ensures Scanning(text, 0, 1, [])
  {
    assert text[0..] == text;
  }

  lemma ScanOn(text: bytes, start: nat, i: nat, done: seq<bytes>)
    requires Scanning(text, start, i, done) && i < |text| && !BreakAt(text, i - 1)
    ensures Scanning(text, start, i + 1, done)
  {
  }

  /** No frame is left in what has been scanned: the frames are those found, and the bytes are the rest. */
  lemma NothingLeft(text: bytes, start: nat, done: seq<bytes>)
    requires Chunked(text, start, done) && Scanned(text, start, |text|)
    ensures Frames(text) == done && Rest(text) == text[start..]
  {
    forall j | 0 <= j < |text[start..]| ensures !BreakAt(text[start..], j) {
      assert start + j + 1 < |text| ==> !BreakAt(text, start + j);
    }
    FirstBreakIs(text[start..], |text[start..]|);
  }

  lemma NextFrame(text: bytes, start: nat, end: nat, done: seq<bytes>)
    requires Scanning(text, start, end - 1, done) && end <= |text| && BreakAt(text, end - 2)
    ensures var more := done + [text[start..end - 2]];
            && done <= Frames(text)
            && (end < |text| ==> Scanning(text, end, end + 1, more))
            && (end == |text| ==> Frames(text) == more && Rest(text) == [])
  {
    FirstFrame(text, start, end);
    Associate(done, [text[start..end - 2]], Frames(text[end..]));
    if end == |text| {
      NothingLeft(text, end, done + [text[start..end - 2]]);
    }
  }

  lemma FirstFrame(text: bytes, start: nat, end: nat)
    requires start + 2 <= end <= |text| && BreakAt(text, end - 2) && Scanned(text, start, end - 1)
    ensures Frames(text[start..]) == [text[start..end - 2]] + Frames(text[end..])
    ensures Rest(text[start..]) == Rest(text[end..])
  {
    var f := text[start..end - 2];
    forall j | 0 <= j < |f + [CR]| ensures !BreakAt(f + [CR], j) {
      assert start + j + 1 < end - 1 ==> !BreakAt(text, start + j);
    }
    assert text[start..] == f + CRLF + text[end..];
    FramesFrom(f, text[end..]);
  }
}
